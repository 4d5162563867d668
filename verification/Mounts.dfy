/** The mount table of vfs.c and its longest-prefix lookup. */
module Mounts {
  import opened Paths

  const MAX_MOUNTS: nat := 8
  const MAX_PATH: nat := 256
  const NONE: int := -1

  /** The operation table registered for a mountpoint; null routes to the virtual-file adapter. */
  datatype Ops = Null | Backend(id: nat)

  datatype Mount = Mount(path: string, ops: Ops)

  datatype Found = NotFound | VFile | Use(id: nat)

  /** A mountpoint by its components; the root has none but the empty one that starts every absolute path. */
  function Components(m: string): seq<string> {
    if m == "/" then [""] else Split(m)
  }

  /** The mountpoint covers the path: its components are the path's first components. */
  ghost predicate Covers(m: string, p: string) {
    Components(m) <= Split(p)
  }

  /** The tests of the lookup loop, on an absolute path, decide whether the mountpoint covers it. */
  lemma CoversTest(m: string, p: string)
    requires p != [] && p[0] == '/'
    ensures Covers(m, p) <==> m <= p && (|m| <= 1 || |m| == |p| || p[|m|] == '/')
  {
    PrefixByComponents(m, p);
    if m == "/" {
      assert Split(p)[0] == "";
    } else if |m| == 1 {
      assert m[0] != '/';
    }
  }

  /** Covering mountpoints of one path are prefixes of each other, so their lengths tell them apart. */
  lemma CoversChain(m: string, n: string, p: string)
    requires p != [] && p[0] == '/' && Covers(m, p) && Covers(n, p)
    ensures |m| <= |n| ==> m <= n
    ensures |m| == |n| ==> m == n
  {
    CoversTest(m, p);
    CoversTest(n, p);
  }

  /** What fits of a path into the 256 bytes of a table entry, terminator included. */
  function Stored(path: string): string {
    if |path| < MAX_PATH then path else path[..MAX_PATH - 1]
  }

  class MountTable {
    var mounts: seq<Mount>

    /** At most one entry per mountpoint. */
    ghost predicate Valid()
      reads this
    {
      |mounts| <= MAX_MOUNTS && forall i, j :: 0 <= i < j < |mounts| ==> mounts[i].path != mounts[j].path
    }

    ghost predicate Mounted(path: string)
      reads this
    {
      exists i :: 0 <= i < |mounts| && mounts[i].path == path
    }

    constructor ()
      ensures Valid() && mounts == []
    {
      mounts := [];
    }

    /**
     `vfs_mount`: a mounted path gets new operations, another one a new entry while there is room.  A
     path of 256 characters or more is stored cut short and never recognised again, so the table
     keeps one entry per mountpoint unless the cut path is already mounted.
     */
    method Register(path: string, ops: Ops)
      requires Valid()
      modifies this
      ensures Valid() <==>
        (|path| < MAX_PATH || |old(mounts)| == MAX_MOUNTS || !old(Mounted(path[..MAX_PATH - 1])) || old(Mounted(path)))
      ensures old(Mounted(path)) ==>
        && |mounts| == |old(mounts)|
        && forall i :: 0 <= i < |mounts| ==>
          mounts[i] == (if old(mounts)[i].path == path then Mount(path, ops) else old(mounts)[i])
      ensures !old(Mounted(path)) ==>
        mounts == (if |old(mounts)| == MAX_MOUNTS then old(mounts) else old(mounts) + [Mount(Stored(path), ops)])
    {
      var m := 0;
      while m < |mounts|
        invariant 0 <= m <= |mounts| && mounts == old(mounts)
        invariant forall i :: 0 <= i < m ==> mounts[i].path != path
      {
        if mounts[m].path == path {
          mounts := mounts[m := Mount(path, ops)];
          return;
        }
        m := m + 1;
      }
      if |mounts| >= MAX_MOUNTS {
        return;
      }
      var stored := "";
      var i := 0;
      while i < |path| && i < MAX_PATH - 1
        invariant 0 <= i <= |path| && i <= MAX_PATH - 1 && stored == path[..i]
      {
        stored := stored + [path[i]];
        i := i + 1;
      }
      assert stored == Stored(path);
      mounts := mounts + [Mount(stored, ops)];
      assert forall k :: 0 <= k < |old(mounts)| ==> mounts[k] == old(mounts)[k];
      assert mounts[|old(mounts)|].path == stored;
      if |path| >= MAX_PATH && old(Mounted(path[..MAX_PATH - 1])) {
        ghost var k :| 0 <= k < |old(mounts)| && old(mounts)[k].path == path[..MAX_PATH - 1];
        assert mounts[k].path == mounts[|old(mounts)|].path;
      }
    }

    /**
     The choice made by `find_ops`.  On an absolute path it is the unique longest mountpoint that covers
     the path by whole components, and there is none only when nothing covers it; any other path is
     resolved at the root mountpoint.
     */
    method Choose(path: string) returns (best: int)
      requires Valid()
      ensures best == NONE || 0 <= best < |mounts|
      ensures path != [] && path[0] == '/' ==>
        if best == NONE then forall i :: 0 <= i < |mounts| ==> !Covers(mounts[i].path, path)
        else Covers(mounts[best].path, path) &&
             forall i :: 0 <= i < |mounts| && i != best && Covers(mounts[i].path, path) ==>
               |mounts[i].path| < |mounts[best].path|
      ensures path == [] || path[0] != '/' ==>
        if best == NONE then !Mounted("/") else mounts[best].path == "/"
    {
      best := NONE;
      var i := 0;
      if path == [] || path[0] != '/' {
        while i < |mounts|
          invariant 0 <= i <= |mounts|
          invariant forall j :: 0 <= j < i ==> mounts[j].path != "/"
        {
          if mounts[i].path == "/" {
            return i;
          }
          i := i + 1;
        }
        return;
      }
      var bestLen := 0;
      while i < |mounts|
        invariant 0 <= i <= |mounts|
        invariant best == NONE ==> bestLen == 0 && forall j :: 0 <= j < i ==> !Covers(mounts[j].path, path)
        invariant best != NONE ==> 0 <= best < i && Covers(mounts[best].path, path) && bestLen == |mounts[best].path|
        invariant forall j :: 0 <= j < i && j != best && Covers(mounts[j].path, path) ==> |mounts[j].path| < bestLen
      {
        var m := mounts[i].path;
        CoversTest(m, path);
        var n := |m|;
        if n >= bestLen && m <= path && !(n > 1 && n != |path| && path[n] != '/') {
          if best != NONE {
            CoversChain(mounts[best].path, m, path);
          }
          best, bestLen := i, n;
        }
        i := i + 1;
      }
    }

    /** `find_ops`: a null operation table means the virtual-file adapter. */
    method FindOps(path: string) returns (r: Found, ghost best: int)
      requires Valid()
      ensures best == NONE || 0 <= best < |mounts|
      ensures path != [] && path[0] == '/' && best != NONE ==>
        && Covers(mounts[best].path, path)
        && forall i :: 0 <= i < |mounts| && i != best && Covers(mounts[i].path, path) ==>
          |mounts[i].path| < |mounts[best].path|
      ensures r ==
        (if best == NONE then NotFound else if mounts[best].ops.Null? then VFile else Use(mounts[best].ops.id))
      ensures path != [] && path[0] == '/' ==>
        (r == NotFound <==> forall i :: 0 <= i < |mounts| ==> !Covers(mounts[i].path, path))
      ensures path == [] || path[0] != '/' ==>
        && (r == NotFound <==> !Mounted("/"))
        && (best != NONE ==> mounts[best].path == "/")
    {
      var k := Choose(path);
      best := k;
      if k == NONE {
        return NotFound, best;
      }
      match mounts[k].ops {
        case Null => r := VFile;
        case Backend(id) => r := Use(id);
      }
    }
  }
}
