/**
 The descriptor calls of vfs.c over the shared node pool.

 Backend calls, the heap and the choice of the current table are parameters: the result of a
 backend's open, whether kmalloc succeeds, and the number of the table the call works on.
 */
module VfsLayer {
  import opened Sizes
  import opened VfsModel

  /** Slot `i` is the only reference to a console node. */
  ghost predicate StdAt(nodes: seq<Node>, fds: seq<int>, i: int) {
    0 <= i < |fds| && 0 <= fds[i] < |nodes| && nodes[fds[i]] == Node(1, Console, i)
  }

  /** Pool entry `m` can be allocated. */
  ghost predicate Free(nodes: seq<Node>, m: int) {
    0 <= m < |nodes| && nodes[m].refs == 0 && nodes[m].ops == NoOps
  }

  ghost function FreeNodes(nodes: seq<Node>): set<int> {
    set m | 0 <= m < |nodes| && Free(nodes, m)
  }

  /** How many of the three standard descriptors a pool with `n` free entries allows. */
  function StdCount(n: int): int {
    if n < 3 then n else 3
  }

  /** The first `k` standard descriptors are installed, each with a node of its own that was free before. */
  ghost predicate StdUpTo(before: seq<Node>, nodes: seq<Node>, fds0: seq<int>, fds: seq<int>, k: nat) {
    && |nodes| == |before| && |fds| == |fds0| && k <= 3 <= |fds|
    && |FreeNodes(nodes)| == |FreeNodes(before)| - k
    && (forall i :: 0 <= i < k ==> StdAt(nodes, fds, i))
    && (forall i :: k <= i < |fds| ==> fds[i] == fds0[i])
    && (forall m :: 0 <= m < |before| && !Free(before, m) ==> !Free(nodes, m) && nodes[m] == before[m])
  }

  lemma StdStep(before: seq<Node>, nodes: seq<Node>, fds0: seq<int>, fds: seq<int>, k: nat, n: int)
    requires StdUpTo(before, nodes, fds0, fds, k) && k < 3 && Free(nodes, n)
    ensures StdUpTo(before, nodes[n := Node(1, Console, k)], fds0, fds[k := n], k + 1)
  {
    var nodes', fds' := nodes[n := Node(1, Console, k)], fds[k := n];
    assert FreeNodes(nodes') == FreeNodes(nodes) - {n};
    forall i | 0 <= i < k + 1 ensures StdAt(nodes', fds', i) {
      assert i < k ==> StdAt(nodes, fds, i);
    }
  }

  /** A free entry filled in leaves one less, and cleared again as many as before. */
  lemma TookNode(nodes: seq<Node>, n: int, o: Ops, fd: int)
    requires Free(nodes, n) && o != NoOps
    ensures |FreeNodes(nodes[n := Node(0, o, fd)])| == |FreeNodes(nodes)| - 1
    ensures FreeNodes(nodes[n := Node(0, o, fd)][n := FREE_NODE]) == FreeNodes(nodes)
  {
    assert FreeNodes(nodes[n := Node(0, o, fd)]) == FreeNodes(nodes) - {n};
  }

  lemma AllFree(nodes: seq<Node>)
    requires forall m :: 0 <= m < |nodes| ==> Free(nodes, m)
    ensures |FreeNodes(nodes)| == |nodes|
  {
    assert FreeNodes(nodes) == Range(|nodes|);
  }

  ghost predicate TwoFree(nodes: seq<Node>) {
    exists a, b :: 0 <= a < b < |nodes| && Free(nodes, a) && Free(nodes, b)
  }

  /** The pool entries that could be allocated before and cannot afterwards. */
  ghost function Lost(before: seq<Node>, after: seq<Node>): set<int> {
    set m | 0 <= m < |before| && Free(before, m) && !Free(after, m)
  }

  ghost predicate NoneGained(before: seq<Node>, after: seq<Node>) {
    forall m :: Free(after, m) ==> Free(before, m)
  }

  /** How many pool entries a failing `vfs_pipe` loses, by what was short and whether the table had an empty slot. */
  function PipeLoss(short: bool, slot: bool): nat {
    if short then 0 else if slot then 1 else 2
  }

  ghost predicate TwoEmpty(fds: seq<int>) {
    exists i, j :: 0 <= i < j < |fds| && fds[i] == NIL && fds[j] == NIL
  }

  /** Below slot `fd` the table has the standard descriptors, and behind it nothing. */
  ghost predicate StdBelow(nodes: seq<Node>, fds: seq<int>, fd: int) {
    && 0 <= fd && (forall i :: 0 <= i < fd ==> StdAt(nodes, fds, i))
    && (forall i :: fd < i < |fds| ==> fds[i] == NIL)
  }

  lemma StdStays(nodes: seq<Node>, fds: seq<int>, k: int, n: int, o: Ops, fd': int, fd: int)
    requires 0 <= n < |nodes| && nodes[n] == Node(0, o, fd') && 0 <= fd < |fds| && 0 <= k < |fds|
    requires (forall i :: 0 <= i < k ==> StdAt(nodes, fds, i)) && (forall i :: k <= i < |fds| ==> fds[i] == NIL)
    requires fds[fd] == NIL && forall j :: 0 <= j < fd ==> fds[j] != NIL
    ensures fd == k && StdBelow(nodes[n := Node(1, o, fd')], fds[fd := n], fd)
  {
    assert fds[k] == NIL;
    assert fd < k ==> StdAt(nodes, fds, fd);
    var nodes', fds' := nodes[n := Node(1, o, fd')], fds[fd := n];
    forall i | 0 <= i < fd ensures StdAt(nodes', fds', i) {
      assert StdAt(nodes, fds, i);
    }
  }

  /** `i` and `j` are the first two empty slots. */
  ghost predicate FirstEmpty(fds: seq<int>, i: int, j: int) {
    0 <= i < j < |fds| && fds[j] == NIL && forall k :: 0 <= k < j ==> (fds[k] == NIL <==> k == i)
  }

  /** Slots `i` and `j` of table `t` were the first two empty ones and now hold nodes `n` and `m`. */
  ghost predicate EndsMade(a: Vfs, r: Vfs, t: int, n: int, m: int, i: int, j: int) {
    && t in a.tables && FirstEmpty(a.tables[t].fds, i, j)
    && r.tables == a.tables[t := Table(a.tables[t].fds[i := n][j := m], a.tables[t].count + 2)]
    && n != m
    && 0 <= n < |r.nodes| && 0 <= m < |r.nodes| && |a.nodes| == |r.nodes|
    && r.nodes == a.nodes[n := a.nodes[n].(refs := 1)][m := a.nodes[m].(refs := 1)]
  }

  /** A pipe slot that was free is in use and its two ends are what slots `i` and `j` hold. */
  ghost predicate PipeMade(s: Vfs, r: Vfs, t: int, i: int, j: int) {
    && t in s.tables && FirstEmpty(s.tables[t].fds, i, j)
    && t in r.tables && |r.tables[t].fds| == |s.tables[t].fds|
    && var n, m := r.tables[t].fds[i], r.tables[t].fds[j];
    && r.tables == s.tables[t := Table(s.tables[t].fds[i := n][j := m], s.tables[t].count + 2)]
    && 0 <= n < |r.nodes| && 0 <= m < |r.nodes| && n != m && n !in s.gen && m !in s.gen
    && r.nodes[n].refs == 1 && r.nodes[m].refs == 1
    && r.nodes[n].ops == PipeRead && r.nodes[m].ops == PipeWrite && r.nodes[n].fd == r.nodes[m].fd
    && var p := r.nodes[n].fd; 0 <= p < |s.inUse| && !s.inUse[p] && r.inUse == s.inUse[p := true]
  }

  class Layer {
    var nodes: seq<Node>
    var tables: map<int, Table>
    var inUse: seq<bool>
    var readers: seq<int>
    var writers: seq<int>
    ghost var gen: map<int, nat>
    ghost var made: seq<(Ops, int)>
    ghost var closed: seq<nat>

    ghost function Abs(): Vfs
      reads this
    {
      Vfs(nodes, tables, inUse, readers, writers, gen, made, closed)
    }

    ghost predicate Valid()
      reads this
    {
      Inv(Abs())
    }

    /** `vfs_init`: only the kernel's table, with the standard descriptors. */
    constructor (kernelTable: int)
      ensures Valid() && closed == [] && tables.Keys == {kernelTable}
      ensures forall i :: 0 <= i < MAX_FDS ==>
        if i < 3 then StdAt(nodes, tables[kernelTable].fds, i) else tables[kernelTable].fds[i] == NIL
    {
      nodes := seq(MAX_NODES, i => FREE_NODE);
      tables := map[kernelTable := Table(EMPTY_FDS, 0)];
      inUse := seq(MAX_PIPES, i => false);
      readers := seq(MAX_PIPES, i => 0);
      writers := seq(MAX_PIPES, i => 0);
      gen, made, closed := map[], [], [];
      new;
      StartInv(Abs(), kernelTable);
      AllFree(nodes);
      InstallStd(kernelTable);
    }

    /** `alloc_node`: the lowest free pool entry, marked as held. */
    method AllocNode() returns (n: int)
      requires |nodes| == MAX_NODES
      modifies this`nodes
      ensures n == NIL ==> nodes == old(nodes)
      ensures n == NIL <==> forall m :: IsNode(m) ==> old(nodes)[m].refs != 0 || old(nodes)[m].ops != NoOps
      ensures n != NIL ==>
        && IsNode(n) && old(nodes)[n].refs == 0 && old(nodes)[n].ops == NoOps
        && (forall m :: 0 <= m < n ==> old(nodes)[m].refs != 0 || old(nodes)[m].ops != NoOps)
        && nodes == old(nodes)[n := old(nodes)[n].(refs := 1)]
    {
      n := 0;
      while n < MAX_NODES
        invariant 0 <= n <= MAX_NODES && nodes == old(nodes)
        invariant forall m :: 0 <= m < n ==> nodes[m].refs != 0 || nodes[m].ops != NoOps
      {
        if nodes[n].refs == 0 && nodes[n].ops == NoOps {
          nodes := nodes[n := nodes[n].(refs := 1)];
          return;
        }
        n := n + 1;
      }
      n := NIL;
    }

    /** `fd_table_alloc`: the lowest empty slot. */
    method FdTableAlloc(t: int, n: int) returns (fd: int)
      requires WellFormed(Abs()) && t in tables && IsNode(n)
      modifies this
      ensures fd == NIL ==> Abs() == old(Abs()) && NIL !in tables[t].fds
      ensures fd != NIL ==>
        && 0 <= fd < MAX_FDS && old(tables)[t].fds[fd] == NIL
        && (forall j :: 0 <= j < fd ==> old(tables)[t].fds[j] != NIL)
        && Abs() == Put(old(Abs()), t, fd, n)
    {
      assert TableShape(tables[t]);
      var T := tables[t];
      fd := 0;
      while fd < MAX_FDS
        invariant 0 <= fd <= MAX_FDS && unchanged(this)
        invariant forall j :: 0 <= j < fd ==> T.fds[j] != NIL
      {
        if T.fds[fd] == NIL {
          PutSlot(t, fd, n);
          return;
        }
        fd := fd + 1;
      }
      fd := NIL;
    }

    /** `pipe_vfs_close_read` and `pipe_vfs_close_write`. */
    method CloseBackend(o: Ops, p: int)
      requires WellFormed(Abs())
      modifies this`inUse, this`readers, this`writers
      ensures Abs() == CloseEnd(old(Abs()), o, p)
    {
      if (o.PipeRead? || o.PipeWrite?) && IsPipe(p) && inUse[p] {
        if o.PipeRead? {
          readers := readers[p := readers[p] - 1];
        } else {
          writers := writers[p := writers[p] - 1];
        }
        if readers[p] <= 0 && writers[p] <= 0 {
          inUse := inUse[p := false];
        }
      }
    }

    /** Dropping one reference: shared by `fd_table_close` and `fd_table_destroy`. */
    method ReleaseNode(n: int)
      requires WellFormed(Abs()) && IsNode(n)
      modifies this
      ensures Abs() == Release(old(Abs()), n)
    {
      var node := nodes[n].(refs := nodes[n].refs - 1);
      if node.refs <= 0 {
        if HasClose(node.ops) {
          CloseBackend(node.ops, node.fd);
          if n in gen {
            closed := closed + [gen[n]];
          }
        }
        nodes := nodes[n := FREE_NODE];
        gen := gen - {n};
      } else {
        nodes := nodes[n := node];
      }
    }

    /** `fd_table_close`. */
    method FdTableClose(t: int, fd: int) returns (r: int)
      requires WellFormed(Abs()) && t in tables
      modifies this
      ensures r == -1 <==> !(0 <= fd < MAX_FDS) || old(tables)[t].fds[fd] == NIL
      ensures r == -1 ==> Abs() == old(Abs())
      ensures r != -1 ==> r == 0 && Abs() == Drop(old(Abs()), t, fd, true)
      ensures r != -1 ==>
        tables == old(tables)[t := Table(old(tables)[t].fds[fd := NIL], old(tables)[t].count - 1)] && made == old(made)
    {
      if fd < 0 || fd >= MAX_FDS {
        return -1;
      }
      assert TableShape(tables[t]);
      var n := tables[t].fds[fd];
      if n == NIL {
        return -1;
      }
      ReleaseNode(n);
      var T := tables[t];
      tables := tables[t := Table(T.fds[fd := NIL], T.count - 1)];
      return 0;
    }

    /** `vfs_close` in table `t`. */
    method VfsClose(t: int, fd: int) returns (r: int)
      requires Valid() && t in tables
      modifies this
      ensures Valid()
      ensures r == -1 <==> !(0 <= fd < MAX_FDS) || old(tables)[t].fds[fd] == NIL
      ensures r == -1 ==> Abs() == old(Abs())
      ensures r != -1 ==> r == 0 && Abs() == Drop(old(Abs()), t, fd, true)
      ensures r != -1 ==>
        tables == old(tables)[t := Table(old(tables)[t].fds[fd := NIL], old(tables)[t].count - 1)] && made == old(made)
    {
      if 0 <= fd < MAX_FDS && tables[t].fds[fd] != NIL {
        DropInv(Abs(), t, fd);
      }
      r := FdTableClose(t, fd);
    }

    /** `vfs_dup` in table `t`: the lowest empty slot shares the node. */
    method VfsDup(t: int, fd: int) returns (r: int)
      requires Valid() && t in tables
      modifies this
      ensures Valid()
      ensures r < 0 <==> !(0 <= fd < MAX_FDS) || old(tables)[t].fds[fd] == NIL || NIL !in old(tables)[t].fds
      ensures r < 0 ==> r == -1 && Abs() == old(Abs())
      ensures r >= 0 ==>
        && r < MAX_FDS && old(tables)[t].fds[r] == NIL && (forall j :: 0 <= j < r ==> old(tables)[t].fds[j] != NIL)
        && Abs() == Put(old(Abs()), t, r, old(tables)[t].fds[fd])
        && var n := old(tables)[t].fds[fd];
        && tables == old(tables)[t := Table(old(tables)[t].fds[r := n], old(tables)[t].count + 1)]
        && IsNode(n) && nodes == old(nodes)[n := old(nodes)[n].(refs := old(nodes)[n].refs + 1)]
        && closed == old(closed) && made == old(made)
    {
      if fd < 0 || fd >= MAX_FDS || tables[t].fds[fd] == NIL {
        return -1;
      }
      var n := tables[t].fds[fd];
      ghost var s := Abs();
      HeldIsInstalled(s, t, fd);
      r := FdTableAlloc(t, n);
      if r != NIL {
        PutInv(s, t, r, n);
      }
    }

    /** `vfs_dup2` in table `t`. */
    method VfsDup2(t: int, oldfd: int, newfd: int) returns (r: int)
      requires Valid() && t in tables
      modifies this
      ensures Valid()
      ensures var ok := 0 <= oldfd < MAX_FDS && 0 <= newfd < MAX_FDS &&
                        (oldfd == newfd || old(tables)[t].fds[oldfd] != NIL);
        r == if ok then newfd else -1
      ensures r == -1 || oldfd == newfd ==> Abs() == old(Abs())
      ensures r != -1 && oldfd != newfd ==> Abs() == Dup2(old(Abs()), t, oldfd, newfd)
    {
      if oldfd < 0 || newfd < 0 || oldfd >= MAX_FDS || newfd >= MAX_FDS {
        return -1;
      }
      if oldfd == newfd {
        return newfd;
      }
      var n := tables[t].fds[oldfd];
      if n == NIL {
        return -1;
      }
      Dup2Inv(Abs(), t, oldfd, newfd);
      ReplaceSlot(t, oldfd, newfd);
      return newfd;
    }

    /** The end of `vfs_dup2`: close `newfd` if it is open, then point it at the node of `oldfd`. */
    method ReplaceSlot(t: int, oldfd: int, newfd: int)
      requires WellFormed(Abs()) && t in tables && 0 <= newfd < MAX_FDS && 0 <= oldfd < MAX_FDS && oldfd != newfd
      requires tables[t].fds[oldfd] != NIL
      modifies this
      ensures Abs() == Dup2(old(Abs()), t, oldfd, newfd)
    {
      assert TableShape(tables[t]);
      var n := tables[t].fds[oldfd];
      if tables[t].fds[newfd] != NIL {
        DropShape(Abs(), t, newfd, true);
        var r := FdTableClose(t, newfd);
      }
      PutSlot(t, newfd, n);
    }

    /** Pointing slot `i` of table `t` at node `n`. */
    method PutSlot(t: int, i: int, n: int)
      requires WellFormed(Abs()) && t in tables && IsNode(n) && 0 <= i < MAX_FDS
      modifies this
      ensures Abs() == Put(old(Abs()), t, i, n)
    {
      if n !in gen {
        gen := gen[n := |made|];
        made := made + [(nodes[n].ops, nodes[n].fd)];
      }
      assert TableShape(tables[t]);
      var T := tables[t];
      tables := tables[t := Table(T.fds[i := n], T.count + 1)];
      nodes := nodes[n := nodes[n].(refs := nodes[n].refs + 1)];
    }

    /** `alloc_node` followed by filling the node in; no descriptor points at it yet. */
    method TakeNode(o: Ops, fd: int) returns (n: int)
      requires Valid()
      modifies this`nodes
      ensures Valid()
      ensures n == NIL ==> nodes == old(nodes)
      ensures n == NIL <==> forall m :: IsNode(m) ==> old(nodes)[m].refs != 0 || old(nodes)[m].ops != NoOps
      ensures n != NIL ==> IsNode(n) && old(nodes)[n].refs == 0 && old(nodes)[n].ops == NoOps && n !in gen
      ensures n != NIL ==> Abs() == Describe(old(Abs()), n, o, fd)
    {
      ghost var s := Abs();
      n := AllocNode();
      if n == NIL {
        assert Abs() == s;
        return;
      }
      nodes := nodes[n := Node(0, o, fd)];
      DescribeInv(s, n, o, fd);
      assert Abs() == Describe(s, n, o, fd);
    }

    /** `free_node` of a node no descriptor points at. */
    method FreeNode(n: int)
      requires Valid() && IsNode(n) && nodes[n].refs == 0
      modifies this`nodes
      ensures Valid() && nodes == old(nodes)[n := FREE_NODE]
    {
      DescribeInv(Abs(), n, NoOps, -1);
      nodes := nodes[n := FREE_NODE];
    }

    /**
     `fd_table_install_std` into a table whose first three slots are empty: as many descriptors as the pool
     allows.
     */
    method InstallStd(t: int)
      requires Valid() && t in tables && forall i :: 0 <= i < 3 ==> tables[t].fds[i] == NIL
      modifies this
      ensures Valid() && closed == old(closed) && t in tables && tables == old(tables)[t := tables[t]]
      ensures StdUpTo(old(nodes), nodes, old(tables)[t].fds, tables[t].fds, StdCount(|FreeNodes(old(nodes))|))
    {
      var fd := 0;
      while fd < 3
        invariant 0 <= fd <= 3 && Valid() && closed == old(closed)
        invariant t in tables && tables == old(tables)[t := tables[t]]
        invariant StdUpTo(old(nodes), nodes, old(tables)[t].fds, tables[t].fds, fd)
      {
        ghost var nodes0, fds0 := nodes, tables[t].fds;
        var n := InstallConsole(t, fd);
        if n == NIL {
          return;
        }
        StdStep(old(nodes), nodes0, old(tables)[t].fds, fds0, fd, n);
        fd := fd + 1;
      }
    }

    /** One iteration of `fd_table_install_std`. */
    method InstallConsole(t: int, fd: int) returns (n: int)
      requires Valid() && t in tables && 0 <= fd < MAX_FDS && tables[t].fds[fd] == NIL
      modifies this
      ensures Valid() && closed == old(closed)
      ensures n == NIL ==> Abs() == old(Abs()) && FreeNodes(nodes) == {}
      ensures n != NIL ==>
        && IsNode(n) && Free(old(nodes), n)
        && nodes == old(nodes)[n := Node(1, Console, fd)]
        && tables == old(tables)[t := Table(old(tables)[t].fds[fd := n], old(tables)[t].count + 1)]
    {
      ghost var s := Abs();
      n := AllocNode();
      if n == NIL {
        assert Abs() == s;
        return;
      }
      InstallInv(s, t, fd, n, Console, fd);
      nodes := nodes[n := Node(0, Console, fd)];
      assert nodes == s.nodes[n := Node(0, Console, fd)];
      PutSlot(t, fd, n);
      assert nodes == s.nodes[n := Node(1, Console, fd)];
    }

    /** `fd_table_create`; `heapOk` tells whether kmalloc succeeds. */
    method FdTableCreate(t: int, heapOk: bool) returns (ok: bool)
      requires Valid() && t !in tables
      modifies this
      ensures Valid() && ok == heapOk && closed == old(closed)
      ensures !ok ==> Abs() == old(Abs())
      ensures ok ==> t in tables && tables == old(tables)[t := tables[t]]
      ensures ok ==> StdUpTo(old(nodes), nodes, EMPTY_FDS, tables[t].fds, StdCount(|FreeNodes(old(nodes))|))
    {
      if !heapOk {
        return false;
      }
      NewTableInv(Abs(), t);
      tables := tables[t := Table(EMPTY_FDS, 0)];
      InstallStd(t);
      return true;
    }

    /** `fd_table_destroy`: every descriptor of the table is dropped and the table is gone. */
    method FdTableDestroy(t: int)
      requires Valid() && t in tables
      modifies this
      ensures Valid() && tables == old(tables) - {t} && made == old(made)
    {
      var i := 0;
      while i < MAX_FDS
        invariant 0 <= i <= MAX_FDS && InvBut(Abs(), t) && made == old(made)
        invariant t in tables && tables == old(tables)[t := tables[t]]
        invariant forall j :: 0 <= j < i ==> tables[t].fds[j] == NIL
      {
        if tables[t].fds[i] != NIL {
          DropSlot(t, i);
        }
        i := i + 1;
      }
      assert TableShape(tables[t]);
      assert tables[t].fds == EMPTY_FDS;
      RemoveTableInv(Abs(), t);
      tables := tables - {t};
    }

    /** One iteration of `fd_table_destroy`. */
    method DropSlot(t: int, i: int)
      requires InvBut(Abs(), t) && t in tables && 0 <= i < MAX_FDS && tables[t].fds[i] != NIL
      modifies this
      ensures InvBut(Abs(), t) && Abs() == Drop(old(Abs()), t, i, false)
      ensures tables == old(tables)[t := Table(old(tables)[t].fds[i := NIL], old(tables)[t].count)] && made == old(made)
    {
      DropInvBut(Abs(), t, i);
      assert TableShape(tables[t]);
      ReleaseNode(tables[t].fds[i]);
      var T := tables[t];
      tables := tables[t := Table(T.fds[i := NIL], T.count)];
    }

    /** One iteration of `fd_table_clone`. */
    method ShareSlot(src: int, dst: int, i: int)
      requires Valid() && src in tables && dst in tables && src != dst && 0 <= i < MAX_FDS
      requires tables[src].fds[i] != NIL && tables[dst].fds[i] == NIL
      modifies this
      ensures Valid() && closed == old(closed) && made == old(made) && gen == old(gen)
      ensures tables ==
        old(tables)[dst := Table(old(tables)[dst].fds[i := old(tables)[src].fds[i]], old(tables)[dst].count + 1)]
    {
      var n := tables[src].fds[i];
      HeldIsInstalled(Abs(), src, i);
      PutInv(Abs(), dst, i, n);
      PutSlot(dst, i, n);
    }

    /** `fd_table_clone`: the copy shares every node; nothing is installed or closed. */
    method FdTableClone(src: int, dst: int, heapOk: bool) returns (ok: bool)
      requires Valid() && src in tables && dst !in tables
      modifies this
      ensures Valid() && ok == heapOk && closed == old(closed) && made == old(made) && gen == old(gen)
      ensures !ok ==> Abs() == old(Abs())
      ensures ok ==> dst in tables && tables == old(tables)[dst := tables[dst]] && tables[dst].fds == tables[src].fds
    {
      if !heapOk {
        return false;
      }
      NewTableInv(Abs(), dst);
      tables := tables[dst := Table(EMPTY_FDS, 0)];
      var i := 0;
      while i < MAX_FDS
        invariant 0 <= i <= MAX_FDS && Valid() && closed == old(closed) && made == old(made) && gen == old(gen)
        invariant dst in tables && tables == old(tables)[dst := tables[dst]]
        invariant forall j :: 0 <= j < MAX_FDS ==> tables[dst].fds[j] == if j < i then tables[src].fds[j] else NIL
      {
        if tables[src].fds[i] != NIL {
          ShareSlot(src, dst, i);
        }
        i := i + 1;
      }
      assert TableShape(tables[src]) && TableShape(tables[dst]);
      return true;
    }

    /** No pool entry can be allocated. */
    ghost predicate PoolEmpty()
      reads this
    {
      forall m :: 0 <= m < |nodes| ==> nodes[m].refs != 0 || nodes[m].ops != NoOps
    }

    /**
     `vfs_open`, after mount lookup chose `o` and its open returned `internalFd`.  A process without a
     table first gets table `t`, with the standard descriptors as far as the pool goes.  On success the
     descriptor is the only reference to a new node.  `shut` tells whether the backend was closed again:
     that is done when there is no node, but not when there is no table or no slot.
     */
    method VfsOpen(o: Ops, internalFd: int, t: int, heapOk: bool) returns (fd: int, shut: bool)
      requires Valid() && o.File?
      modifies this
      ensures Valid() && closed == old(closed)
      ensures forall u :: u in old(tables) && u != t ==> u in tables && tables[u] == old(tables)[u]
      ensures fd < 0 <==>
        internalFd < 0 || old(PoolEmpty()) || (if t in old(tables) then NIL !in old(tables)[t].fds else !heapOk)
      ensures fd < 0 ==> fd == -1 && tables == old(tables) && FreeNodes(nodes) == FreeNodes(old(nodes))
      ensures shut <==> internalFd >= 0 && old(PoolEmpty()) && o.closes
      ensures fd >= 0 ==>
        && fd < MAX_FDS && t in tables && IsNode(tables[t].fds[fd])
        && nodes[tables[t].fds[fd]] == Node(1, o, internalFd)
        && Slots(tables, tables[t].fds[fd]) == {(t, fd)} && tables == old(tables)[t := tables[t]]
        && if t in old(tables) then
             && old(tables)[t].fds[fd] == NIL && (forall j :: 0 <= j < fd ==> old(tables)[t].fds[j] != NIL)
             && tables[t].fds == old(tables)[t].fds[fd := tables[t].fds[fd]]
           else fd == StdCount(|FreeNodes(old(nodes))| - 1) && StdBelow(nodes, tables[t].fds, fd)
    {
      shut := false;
      if internalFd < 0 {
        return -1, shut;
      }
      var n := TakeNode(o, internalFd);
      if n == NIL {
        return -1, o.closes;
      }
      TookNode(old(nodes), n, o, internalFd);
      if t in tables {
        fd := InstallOpened(t, n, o, internalFd);
      } else {
        fd := InstallFirst(t, n, o, internalFd, heapOk);
      }
      if fd < 0 {
        FreeNode(n);
      }
    }

    /** The same for a process that has no table yet. */
    method InstallFirst(t: int, n: int, o: Ops, internalFd: int, heapOk: bool) returns (fd: int)
      requires Valid() && o.File? && t !in tables && IsNode(n) && nodes[n] == Node(0, o, internalFd)
      modifies this
      ensures Valid() && closed == old(closed) && fd >= -1 && (fd < 0 <==> !heapOk)
      ensures fd < 0 ==> Abs() == old(Abs())
      ensures fd >= 0 ==>
        && fd < MAX_FDS && t in tables && tables == old(tables)[t := tables[t]] && |tables[t].fds| == MAX_FDS
        && tables[t].fds[fd] == n
        && nodes[n] == Node(1, o, internalFd) && Slots(tables, n) == {(t, fd)}
        && fd == StdCount(|FreeNodes(old(nodes))|) && StdBelow(nodes, tables[t].fds, fd)
    {
      var ok := FdTableCreate(t, heapOk);
      if !ok {
        return -1;
      }
      assert TableShape(tables[t]);
      ghost var nodes1, fds1, k := nodes, tables[t].fds, StdCount(|FreeNodes(old(nodes))|);
      assert fds1[k] == NIL;
      fd := InstallOpened(t, n, o, internalFd);
      StdStays(nodes1, fds1, k, n, o, internalFd, fd);
    }

    /** `fd_table_alloc` of a node that was just filled in. */
    method InstallOpened(t: int, n: int, o: Ops, internalFd: int) returns (fd: int)
      requires Valid() && o.File? && t in tables && IsNode(n) && nodes[n] == Node(0, o, internalFd)
      modifies this
      ensures Valid() && closed == old(closed) && fd >= -1
      ensures fd < 0 ==> tables == old(tables) && nodes == old(nodes) && NIL !in tables[t].fds
      ensures fd >= 0 ==>
        && fd < MAX_FDS && t in tables && nodes[n] == Node(1, o, internalFd) && Slots(tables, n) == {(t, fd)}
        && old(tables)[t].fds[fd] == NIL && (forall j :: 0 <= j < fd ==> old(tables)[t].fds[j] != NIL)
        && tables == old(tables)[t := Table(old(tables)[t].fds[fd := n], old(tables)[t].count + 1)]
        && nodes == old(nodes)[n := Node(1, o, internalFd)]
    {
      ghost var s := Abs();
      fd := FdTableAlloc(t, n);
      if fd != NIL {
        PutInv(s, t, fd, n);
        OnlySlot(Abs(), t, fd, n);
      }
    }

    /** `pipe_alloc_index`. */
    method PipeAllocIndex() returns (p: int)
      requires |inUse| == MAX_PIPES
      ensures p == NIL <==> false !in inUse
      ensures p != NIL ==> IsPipe(p) && !inUse[p] && forall q :: 0 <= q < p ==> inUse[q]
    {
      p := 0;
      while p < MAX_PIPES
        invariant 0 <= p <= MAX_PIPES
        invariant forall q :: 0 <= q < p ==> inUse[q]
      {
        if !inUse[p] {
          return;
        }
        p := p + 1;
      }
      p := NIL;
    }

    /**
     `vfs_pipe` in table `t`.  On success two lowest empty slots hold the only references to the two
     ends of a pipe slot that was not in use.  On every failure path all tables, all installations
     and all pipe slots are as before; but when it was the table that had no room, pool entries are lost:
     nothing points at them and `alloc_node` passes them over.  With one empty slot it is the node meant for
     the write end, with none it is both nodes; when pipe slots or nodes are short, none is lost.
     */
    method VfsPipe(t: int) returns (r: int, rfd: int, wfd: int)
      requires Valid() && t in tables
      modifies this
      ensures Valid() && (r == 0 || r == -1)
      ensures r == -1 ==> tables == old(tables) && inUse == old(inUse) && gen == old(gen)
      ensures r == 0 ==>
        && closed == old(closed) && PipeMade(old(Abs()), Abs(), t, rfd, wfd)
      ensures r == -1 <==> false !in old(inUse) || !TwoFree(old(nodes)) || !TwoEmpty(old(tables)[t].fds)
      ensures r == -1 ==> NoneGained(old(nodes), nodes)
      ensures r == -1 ==>
        |Lost(old(nodes), nodes)| == PipeLoss(false !in old(inUse) || !TwoFree(old(nodes)), NIL in old(tables)[t].fds)
    {
      r, rfd, wfd := -1, NIL, NIL;
      var idx := PipeAllocIndex();
      if idx == NIL {
        NothingLost(nodes, nodes);
        return;
      }
      ghost var s := Abs();
      readers, writers, inUse := readers[idx := 1], writers[idx := 1], inUse[idx := true];
      var rnode, wnode := AllocTwo();
      if rnode == NIL || wnode == NIL {
        ReturnNode(rnode, idx, s);
        NothingLost(s.nodes, nodes);
        return;
      }
      r, rfd, wfd := MakeEnds(t, rnode, wnode, idx, s);
    }

    /** The rest of `vfs_pipe`, once there is a pipe slot and two nodes. */
    method MakeEnds(t: int, rnode: int, wnode: int, idx: int, ghost s: Vfs) returns (r: int, rfd: int, wfd: int)
      requires Inv(s) && t in s.tables && IsPipe(idx) && !s.inUse[idx] && IsNode(rnode) && IsNode(wnode)
      requires rnode != wnode
      requires Free(s.nodes, rnode) && Free(s.nodes, wnode) && |nodes| == MAX_NODES
      requires Abs() == ArmPipe(s, idx).(nodes := nodes)
      requires nodes == s.nodes[rnode := s.nodes[rnode].(refs := 1)][wnode := s.nodes[wnode].(refs := 1)]
      modifies this
      ensures Valid() && (r == 0 || r == -1) && (r == -1 <==> !TwoEmpty(s.tables[t].fds))
      ensures r == 0 ==> closed == s.closed && PipeMade(s, Abs(), t, rfd, wfd)
      ensures r == -1 ==>
        && tables == s.tables && inUse == s.inUse && gen == s.gen && NoneGained(s.nodes, nodes)
        && |Lost(s.nodes, nodes)| == PipeLoss(false, NIL in s.tables[t].fds)
    {
      nodes := nodes[rnode := Node(0, PipeRead, idx)][wnode := Node(0, PipeWrite, idx)];
      DescribeEnds(s, rnode, wnode, idx);
      ghost var a := Described(s, rnode, wnode, idx);
      assert nodes == a.nodes;
      r, rfd, wfd := InstallEnds(t, rnode, wnode, idx, a);
      if r == 0 {
        EndsArePipe(s, Abs(), t, rnode, wnode, rfd, wfd, idx);
      } else {
        EndsLost(s.nodes, nodes, rnode, wnode, NIL in tables[t].fds);
      }
    }

    /** The two calls of `alloc_node` in `vfs_pipe`. */
    method AllocTwo() returns (n: int, m: int)
      requires |nodes| == MAX_NODES
      modifies this`nodes
      ensures n == NIL ==> m == NIL
      ensures m == NIL <==> !TwoFree(old(nodes))
      ensures n != NIL ==> IsNode(n) && Free(old(nodes), n)
      ensures m != NIL ==> IsNode(m) && m != n && Free(old(nodes), m)
      ensures nodes == (if n == NIL then old(nodes)
                        else if m == NIL then old(nodes)[n := old(nodes)[n].(refs := 1)]
                        else old(nodes)[n := old(nodes)[n].(refs := 1)][m := old(nodes)[m].(refs := 1)])
    {
      n := AllocNode();
      ghost var mid := nodes;
      m := AllocNode();
      if m == NIL {
        forall x | 0 <= x < |mid| && x != n ensures !Free(old(nodes), x) {
          assert mid[x] == old(nodes)[x];
        }
      } else {
        assert Free(old(nodes), n) && Free(old(nodes), m);
      }
    }

    /** The failure path of `vfs_pipe` when the pool is short. */
    method ReturnNode(rnode: int, idx: int, ghost s: Vfs)
      requires Inv(s) && IsPipe(idx) && !s.inUse[idx] && (rnode == NIL || (IsNode(rnode) && s.nodes[rnode].refs == 0))
      requires Abs() ==
        ArmPipe(s, idx).(nodes := if rnode == NIL then s.nodes else s.nodes[rnode := s.nodes[rnode].(refs := 1)])
      modifies this`nodes, this`inUse
      ensures Valid() && inUse == s.inUse
      ensures nodes == if rnode == NIL then s.nodes else s.nodes[rnode := FREE_NODE]
    {
      inUse := inUse[idx := false];
      assert inUse == s.inUse;
      ghost var d := s;
      if rnode != NIL {
        nodes := nodes[rnode := FREE_NODE];
        DescribeInv(s, rnode, NoOps, -1);
        d := Describe(s, rnode, NoOps, -1);
        assert nodes == d.nodes;
      }
      IdlePipeInv(d, Abs(), idx);
    }

    /** The second half of `vfs_pipe`: install both ends, or take everything back. */
    method InstallEnds(t: int, rnode: int, wnode: int, idx: int, ghost a: Vfs) returns (r: int, rfd: int, wfd: int)
      requires Inv(a) && t in a.tables && IsPipe(idx) && !a.inUse[idx] && Abs() == ArmPipe(a, idx)
      requires IsNode(rnode) && IsNode(wnode) && rnode != wnode && rnode !in a.gen && wnode !in a.gen
      requires a.nodes[rnode] == Node(0, PipeRead, idx) && a.nodes[wnode] == Node(0, PipeWrite, idx)
      modifies this
      ensures Valid() && (r == 0 || r == -1)
      ensures r == -1 ==> tables == a.tables && inUse == a.inUse && gen == a.gen
      ensures r == -1 <==> !TwoEmpty(a.tables[t].fds)
      ensures r == -1 ==> nodes == if NIL in a.tables[t].fds then a.nodes[rnode := FREE_NODE] else a.nodes
      ensures r == 0 ==>
        closed == a.closed && inUse == a.inUse[idx := true] && EndsMade(a, Abs(), t, rnode, wnode, rfd, wfd)
    {
      rfd, wfd := AllocEnds(t, rnode, wnode);
      if rfd < 0 || wfd < 0 {
        UndoEnds(t, rfd, rnode, idx, a);
        return -1, rfd, wfd;
      }
      PipeInv(a, t, rfd, wfd, rnode, wnode, idx);
      return 0, rfd, wfd;
    }

    /** The two calls of `fd_table_alloc` in `vfs_pipe`. */
    method AllocEnds(t: int, rnode: int, wnode: int) returns (rfd: int, wfd: int)
      requires WellFormed(Abs()) && t in tables && IsNode(rnode) && IsNode(wnode)
      modifies this
      ensures -1 <= rfd < MAX_FDS && -1 <= wfd < MAX_FDS && (rfd < 0 ==> wfd < 0)
      ensures (rfd < 0 <==> NIL !in old(tables)[t].fds) && (wfd < 0 ==> !TwoEmpty(old(tables)[t].fds))
      ensures rfd >= 0 ==> old(tables)[t].fds[rfd] == NIL && WellFormed(Put(old(Abs()), t, rfd, rnode))
      ensures wfd >= 0 ==> FirstEmpty(old(tables)[t].fds, rfd, wfd)
      ensures Abs() == (if rfd < 0 then old(Abs())
                        else if wfd < 0 then Put(old(Abs()), t, rfd, rnode)
                        else Put(Put(old(Abs()), t, rfd, rnode), t, wfd, wnode))
    {
      assert TableShape(tables[t]);
      rfd := FdTableAlloc(t, rnode);
      if rfd != NIL {
        PutShape(old(Abs()), t, rfd, rnode);
      }
      wfd := FdTableAlloc(t, wnode);
      if rfd >= 0 {
        if wfd < 0 {
          OneEmpty(old(tables)[t].fds, rfd, rnode);
        } else {
          FirstTwo(old(tables)[t].fds, tables[t].fds[wfd := NIL], rfd, wfd, rnode);
        }
      }
    }

    /** The failure path of `vfs_pipe` when the table is full: close what was opened, give the slot back. */
    method UndoEnds(t: int, rfd: int, rnode: int, idx: int, ghost a: Vfs)
      requires Inv(a) && t in a.tables && IsPipe(idx) && !a.inUse[idx]
      requires IsNode(rnode) && rnode !in a.gen && a.nodes[rnode] == Node(0, PipeRead, idx)
      requires -1 <= rfd < MAX_FDS && (rfd >= 0 ==> a.tables[t].fds[rfd] == NIL)
      requires Abs() == (if rfd < 0 then ArmPipe(a, idx) else Put(ArmPipe(a, idx), t, rfd, rnode))
      modifies this
      ensures Valid() && tables == a.tables && inUse == a.inUse && gen == a.gen
      ensures nodes == if rfd >= 0 then a.nodes[rnode := FREE_NODE] else a.nodes
    {
      if rfd >= 0 {
        AbortPipeInv(a, t, rfd, rnode, idx);
        AbortPipeFields(a, t, rfd, rnode, idx);
        PutShape(ArmPipe(a, idx), t, rfd, rnode);
        var c := FdTableClose(t, rfd);
      } else {
        IdlePipeInv(a, ArmPipe(a, idx).(inUse := a.inUse), idx);
      }
      inUse := inUse[idx := false];
      assert inUse == a.inUse;
    }
  }

  /** A node with one reference is held by exactly one slot. */
  lemma OnlySlot(s: Vfs, t: int, i: int, n: int)
    requires Core(s) && t in s.tables && 0 <= i < MAX_FDS && s.tables[t].fds[i] == n && IsNode(n)
    requires s.nodes[n].refs == 1
    ensures Slots(s.tables, n) == {(t, i)}
  {
    assert RefsAt(s, n);
    assert TableShape(s.tables[t]);
    SlotWrite(s.tables, t, i, NIL, 0, n);
    var rest := Slots(s.tables, n) - {(t, i)};
    assert |rest| == 0;
  }

  /** The pool entries of both ends filled in, before either is installed. */
  ghost function Described(s: Vfs, n: int, m: int, p: int): Vfs
    requires WellFormed(s) && IsNode(n) && IsNode(m)
  {
    Describe(Describe(s, n, PipeRead, p), m, PipeWrite, p)
  }

  lemma DescribeEnds(s: Vfs, n: int, m: int, p: int)
    requires Inv(s) && IsNode(n) && IsNode(m) && n != m && s.nodes[n].refs == 0 && s.nodes[m].refs == 0
    ensures Inv(Described(s, n, m, p)) && n !in s.gen && m !in s.gen
  {
    DescribeInv(s, n, PipeRead, p);
    DescribeInv(Describe(s, n, PipeRead, p), m, PipeWrite, p);
  }

  lemma EndsArePipe(s: Vfs, r: Vfs, t: int, n: int, m: int, i: int, j: int, p: int)
    requires WellFormed(s) && IsNode(n) && IsNode(m) && n !in s.gen && m !in s.gen && IsPipe(p) && !s.inUse[p]
    requires EndsMade(Described(s, n, m, p), r, t, n, m, i, j) && r.inUse == s.inUse[p := true]
    ensures PipeMade(s, r, t, i, j)
  {
  }

  lemma NothingLost(before: seq<Node>, after: seq<Node>)
    requires |before| == |after| && forall m :: 0 <= m < |before| ==> (Free(before, m) <==> Free(after, m))
    ensures NoneGained(before, after) && |Lost(before, after)| == 0
  {
    assert Lost(before, after) == {};
  }

  /** The pool entries lost when both ends were filled in and the read end was given back or not. */
  lemma EndsLost(before: seq<Node>, after: seq<Node>, n: int, m: int, back: bool)
    requires 0 <= n < |before| && 0 <= m < |before| && n != m && Free(before, n) && Free(before, m)
    requires |after| == |before|
    requires !Free(after, m) && (Free(after, n) <==> back)
    requires forall k :: 0 <= k < |before| && k != n && k != m ==> after[k] == before[k]
    ensures NoneGained(before, after) && |Lost(before, after)| == if back then 1 else 2
  {
    assert Lost(before, after) == if back then {m} else {n, m};
  }

  lemma OneEmpty(fds: seq<int>, i: int, n: int)
    requires 0 <= i < |fds| && NIL !in fds[i := n]
    ensures !TwoEmpty(fds)
  {
    forall k | 0 <= k < |fds| && k != i ensures fds[k] != NIL {
      assert fds[i := n][k] == fds[k];
    }
  }

  /** Taking the lowest empty slot twice gives the first two empty slots. */
  lemma FirstTwo(fds: seq<int>, fds': seq<int>, i: int, j: int, n: int)
    requires 0 <= i < |fds| && 0 <= j < |fds| && fds[i] == NIL && n != NIL && fds' == fds[i := n] && fds'[j] == NIL
    requires forall k :: 0 <= k < i ==> fds[k] != NIL
    requires forall k :: 0 <= k < j ==> fds'[k] != NIL
    ensures FirstEmpty(fds, i, j)
  {
    forall k | 0 <= k < j ensures fds[k] == NIL <==> k == i {
      assert k != i ==> fds'[k] == fds[k];
    }
  }

  lemma StartInv(s: Vfs, t: int)
    requires s.nodes == seq(MAX_NODES, i => FREE_NODE) && s.tables == map[t := Table(EMPTY_FDS, 0)]
    requires s.inUse == seq(MAX_PIPES, i => false) && |s.readers| == |s.writers| == MAX_PIPES
    requires s.gen == map[] && s.made == [] && s.closed == []
    ensures Inv(s)
  {
    assert Open(EMPTY_FDS) == {};
    forall m | IsNode(m) ensures Slots(s.tables, m) == {} {
    }
  }
}
