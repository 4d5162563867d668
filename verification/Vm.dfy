/**
 The address spaces of vm.c over the frame allocator of memory.c.

 Frames are named by their number.  `tabs` is the memory behind page tables; the kernel half of a root
 is copied at creation and never walked.
 */
module Vm {
  import opened Basics
  import opened PageTables
  import opened Pmm
  import opened Spaces
  import opened Cloning

  /** Physical addresses have 52 bits. */
  const MAX_FRAMES: nat := 0x100_0000_0000

  class AddressSpaces {
    const pmm: FrameAllocator
    const kernelHalf: seq<Entry>
    var tabs: Tables
    /** What the pages that are not tables hold. */
    var bytes: map<nat, seq<bv8>>
    ghost var loc: Locs

    ghost predicate Valid()
      reads this, pmm, pmm.bitmap
    {
      pmm.Valid() && |kernelHalf| == 256 && Forest(tabs, loc) && TablesTaken(loc, pmm.free, pmm.total)
    }

    /** On the allocator as it comes out of boot. */
    constructor (pmm: FrameAllocator, kernelHalf: seq<Entry>)
      requires pmm.Valid() && pmm.Guarded() && pmm.bitmapStart > 0 && |kernelHalf| == 256
      ensures Valid() && this.pmm == pmm && tabs == map[] && loc == map[]
      ensures LeavesTaken() && Owned(tabs, loc, pmm.free, pmm.total)
    {
      this.pmm := pmm;
      this.kernelHalf := kernelHalf;
      tabs, loc := map[], map[];
      bytes := map[];
    }

    /** Mapped frames are taken, and neither tables nor frame 0. */
    ghost predicate LeavesTaken()
      reads this, pmm
    {
      Backed(tabs, loc, pmm.free)
    }

    /**
     One level of `get_pte` with its create flag set: the table behind entry `x` of table `t`, made if it is
     missing.
     */
    method Descend(t: nat, x: nat, ghost rest: seq<nat>) returns (c: nat)
      requires Valid() && t in loc && |loc[t].path| < 3 && IsPath(loc[t].path + [x]) && x < ENTRIES
      requires Missing(tabs, t, [x] + rest) <= |pmm.free|
      modifies this`tabs, this`loc, pmm`freeCount, pmm`free, pmm.bitmap
      ensures Valid() && Extends(old(tabs), old(loc), tabs, loc)
      ensures c in loc && loc[c] == Loc(loc[t].root, loc[t].path + [x])
      ensures |pmm.free| - Missing(tabs, c, rest) == |old(pmm.free)| - Missing(old(tabs), t, [x] + rest)
      ensures Grown(old(tabs), old(loc), old(pmm.free), tabs, loc, pmm.free)
      ensures TablesAdded(old(loc), old(pmm.free), loc, pmm.free, loc[t].root)
    {
      assert NodeAt(tabs, loc, t) && ChildAt(tabs, loc, t, x);
      assert ([x] + rest)[1..] == rest;
      ExtendsSelf(tabs, loc);
      if !tabs[t][x].present {
        c := pmm.AllocFrame();
        assert c !in loc;
        GrowExtends(tabs, loc, t, x, c);
        GrowForest(tabs, loc, t, x, c);
        tabs := tabs[c := seq(ENTRIES, i => EMPTY)];
        tabs := tabs[t := tabs[t][x := Link(c)]];
        loc := GrowLoc(loc, t, x, c);
      }
      return tabs[t][x].frame;
    }

    /** `get_pte` with its create flag set: the leaf table for a page of space `root`. */
    method GetPte(root: nat, page: seq<nat>) returns (t: nat)
      requires Valid() && IsRoot(loc, root) && |page| == 4 && IsPath(page)
      requires Missing(tabs, root, page[..3]) <= |pmm.free|
      modifies this`tabs, this`loc, pmm`freeCount, pmm`free, pmm.bitmap
      ensures Valid() && Extends(old(tabs), old(loc), tabs, loc)
      ensures t in loc && loc[t] == Loc(root, page[..3])
      ensures Grown(old(tabs), old(loc), old(pmm.free), tabs, loc, pmm.free)
      ensures TablesAdded(old(loc), old(pmm.free), loc, pmm.free, root)
      ensures |pmm.free| == |old(pmm.free)| - Missing(old(tabs), root, page[..3])
    {
      assert [] + [page[0]] == page[..1] && page[..1] + [page[1]] == page[..2] && page[..2] + [page[2]] == page[..3];
      assert page[..3] == [page[0]] + [page[1], page[2]];
      var pdpt := Descend(root, page[0], [page[1], page[2]]);
      ghost var tabs1, loc1 := tabs, loc;
      assert [page[1], page[2]] == [page[1]] + [page[2]];
      var pd := Descend(pdpt, page[1], [page[2]]);
      ExtendsTrans(old(tabs), old(loc), tabs1, loc1, tabs, loc);
      ghost var tabs2, loc2 := tabs, loc;
      assert [page[2]] == [page[2]] + [];
      t := Descend(pd, page[2], []);
      ExtendsTrans(old(tabs), old(loc), tabs2, loc2, tabs, loc);
    }

    /** `get_pte` with its create flag clear: the leaf table for a page, if there is one. */
    method FindPte(root: nat, page: seq<nat>) returns (found: bool, t: nat)
      requires Valid() && IsRoot(loc, root) && |page| == 4 && IsPath(page)
      ensures found ==>
        t in loc && loc[t] == Loc(root, page[..3]) && Lookup(tabs, root, page) == LeafEntry(tabs, t, page[3])
      ensures !found ==> Lookup(tabs, root, page) == None
    {
      t := root;
      var i := 0;
      assert page[0..3] == page[..3];
      while i < 3
        invariant 0 <= i <= 3 && t in loc && loc[t] == Loc(root, page[..i])
        invariant Walk(tabs, root, page[..3]) == Walk(tabs, t, page[i..3])
      {
        assert NodeAt(tabs, loc, t) && ChildAt(tabs, loc, t, page[i]);
        assert page[i..3][1..] == page[i + 1..3] && page[i..3][0] == page[i];
        assert page[..i] + [page[i]] == page[..i + 1];
        if !tabs[t][page[i]].present {
          return false, 0;
        }
        t := tabs[t][page[i]].frame;
        i := i + 1;
      }
      LookupAt(tabs, loc, root, page, t);
      return true, t;
    }

    /**
     `vm_map_page` for a user address, when the frames for missing tables are there: that page of that
     space translates to the given frame and flags, every other user page of it and every page of all
     other spaces as before.
     */
    method MapPage(root: nat, virt: nat, phys: nat, flags: Flags)
      requires Valid() && IsRoot(loc, root) && IsPath(PageOf(virt))
      requires Missing(tabs, root, PageOf(virt)[..3]) <= |pmm.free|
      modifies this`tabs, this`loc, pmm`freeCount, pmm`free, pmm.bitmap
      ensures Valid() && SameRoots(old(loc), loc)
      ensures Mapped(old(tabs), old(loc), tabs, root, PageOf(virt), Some(LeafFor(phys, flags)))
      ensures Grants(Lookup(tabs, root, PageOf(virt)), phys, flags)
      ensures forall write :: Allowed(tabs, root, PageOf(virt), write) <==> flags.user && (write ==> flags.writable)
      ensures TablesAdded(old(loc), old(pmm.free), loc, pmm.free, root)
      ensures |pmm.free| == |old(pmm.free)| - Missing(old(tabs), root, PageOf(virt)[..3])
      ensures forall g: nat :: old(Held(tabs, loc, pmm.free, pmm.total, g)) && g != LeafFor(phys, flags).frame ==>
        Held(tabs, loc, pmm.free, pmm.total, g)
      ensures old(Owned(tabs, loc, pmm.free, pmm.total)) &&
              old(Held(tabs, loc, pmm.free, pmm.total, LeafFor(phys, flags).frame)) ==>
        && Owned(tabs, loc, pmm.free, pmm.total)
        && forall g: nat :: Held(tabs, loc, pmm.free, pmm.total, g) <==>
             (old(Held(tabs, loc, pmm.free, pmm.total, g)) && g != LeafFor(phys, flags).frame) ||
             MapsTo(old(tabs), root, PageOf(virt), g)
      ensures var f := LeafFor(phys, flags).frame;
        old(LeavesTaken()) && f != 0 && f !in old(loc) && f !in old(pmm.free) ==> LeavesTaken()
    {
      var page := PageOf(virt);
      var t := GetPte(root, page);
      ghost var tabs1 := tabs;
      OwnedGrown(old(tabs), old(loc), old(pmm.free), tabs, loc, pmm.free, pmm.total);
      if old(LeavesTaken()) {
        BackedGrown(old(tabs), old(loc), old(pmm.free), tabs, loc, pmm.free);
      }
      StoreLeaf(root, page, t, LeafFor(phys, flags));
      ExtendsMapped(old(tabs), old(loc), tabs1, loc, tabs, root, page, Some(LeafFor(phys, flags)));
      LeafGrants(phys, flags);
    }

    /** The write of the leaf entry in `vm_map_page`. */
    method StoreLeaf(root: nat, page: seq<nat>, t: nat, e: Entry)
      requires Valid() && IsRoot(loc, root) && |page| == 4 && IsPath(page) && e.present
      requires t in loc && loc[t] == Loc(root, page[..3])
      modifies this`tabs
      ensures Valid() && Mapped(old(tabs), loc, tabs, root, page, Some(e))
      ensures forall write :: Allowed(tabs, root, page, write) <==> Lets(e, write)
      ensures forall g: nat :: old(Held(tabs, loc, pmm.free, pmm.total, g)) && g != e.frame ==>
        Held(tabs, loc, pmm.free, pmm.total, g)
      ensures old(Owned(tabs, loc, pmm.free, pmm.total)) && old(Held(tabs, loc, pmm.free, pmm.total, e.frame)) ==>
        && Owned(tabs, loc, pmm.free, pmm.total)
        && forall g: nat :: Held(tabs, loc, pmm.free, pmm.total, g) <==>
             (old(Held(tabs, loc, pmm.free, pmm.total, g)) && g != e.frame) || MapsTo(old(tabs), root, page, g)
      ensures old(LeavesTaken()) && e.frame != 0 && e.frame !in loc && e.frame !in pmm.free ==> LeavesTaken()
    {
      assert NodeAt(tabs, loc, t);
      OwnedWrite(tabs, loc, pmm.free, pmm.total, t, page[3], e);
      HeldWrite(tabs, loc, pmm.free, pmm.total, t, page[3], e);
      LookupAt(tabs, loc, root, page, t);
      if LeavesTaken() && e.frame != 0 && e.frame !in loc && e.frame !in pmm.free {
        BackedWrite(tabs, loc, pmm.free, t, page[3], e);
      }
      WriteLeafAll(tabs, loc, t, page[3], e, root, page);
      tabs := tabs[t := tabs[t][page[3] := e]];
      AccessExactly(tabs, loc, root, page, true);
      AccessExactly(tabs, loc, root, page, false);
    }

    /** What `vm_map_page` maps, `vm_get_physical` finds: the address rounded down to its page. */
    method MapThenFind(root: nat, virt: nat, phys: nat, flags: Flags) returns (found: nat)
      requires Valid() && IsRoot(loc, root) && IsPath(PageOf(virt)) && phys < PHYS_LIMIT
      requires Missing(tabs, root, PageOf(virt)[..3]) <= |pmm.free|
      modifies this`tabs, this`loc, pmm`freeCount, pmm`free, pmm.bitmap
      ensures Valid() && found == phys - phys % PAGE_SIZE
    {
      MapPage(root, virt, phys, flags);
      found := GetPhysical(root, virt);
    }

    /** `vm_unmap_page`: removes exactly one page, and fails exactly if it was not mapped. */
    method UnmapPage(root: nat, virt: nat) returns (r: int)
      requires Valid() && IsRoot(loc, root) && IsPath(PageOf(virt))
      modifies this`tabs
      ensures Valid()
      ensures r == (if Lookup(old(tabs), root, PageOf(virt)).Some? then 0 else -1)
      ensures r == -1 ==> tabs == old(tabs)
      ensures Mapped(old(tabs), old(loc), tabs, root, PageOf(virt), None)
      ensures forall g: nat :: old(Held(tabs, loc, pmm.free, pmm.total, g)) ==> Held(tabs, loc, pmm.free, pmm.total, g)
      ensures old(Owned(tabs, loc, pmm.free, pmm.total)) ==>
        && Owned(tabs, loc, pmm.free, pmm.total)
        && forall g: nat :: Held(tabs, loc, pmm.free, pmm.total, g) <==>
             old(Held(tabs, loc, pmm.free, pmm.total, g)) || MapsTo(old(tabs), root, PageOf(virt), g)
      ensures old(LeavesTaken()) ==> LeavesTaken()
    {
      var page := PageOf(virt);
      var found, t := FindPte(root, page);
      if !found {
        return -1;
      }
      assert NodeAt(tabs, loc, t);
      if !tabs[t][page[3]].present {
        return -1;
      }
      WriteLeafAll(tabs, loc, t, page[3], EMPTY, root, page);
      OwnedWrite(tabs, loc, pmm.free, pmm.total, t, page[3], EMPTY);
      HeldWrite(tabs, loc, pmm.free, pmm.total, t, page[3], EMPTY);
      if LeavesTaken() {
        BackedWrite(tabs, loc, pmm.free, t, page[3], EMPTY);
      }
      tabs := tabs[t := tabs[t][page[3] := EMPTY]];
      return 0;
    }

    /** `vm_get_physical`: the address of the frame a page translates to, or 0. */
    method GetPhysical(root: nat, virt: nat) returns (phys: nat)
      requires Valid() && IsRoot(loc, root) && IsPath(PageOf(virt))
      ensures phys == (match Lookup(tabs, root, PageOf(virt)) case None => 0 case Some(e) => e.frame * PAGE_SIZE)
    {
      var page := PageOf(virt);
      var found, t := FindPte(root, page);
      if !found {
        return 0;
      }
      assert NodeAt(tabs, loc, t);
      if !tabs[t][page[3]].present {
        return 0;
      }
      return tabs[t][page[3]].frame * PAGE_SIZE;
    }

    /**
     One round of `vm_alloc_pages`: a frame is taken and mapped.  A page that was mapped already is mapped
     anew, and the frame it had is left held with nobody to give it back.
     */
    method ObtainPage(root: nat, virt: nat, flags: Flags) returns (ok: bool)
      requires Valid() && IsRoot(loc, root) && IsPath(PageOf(virt)) && pmm.total <= MAX_FRAMES
      requires Owned(tabs, loc, pmm.free, pmm.total)
      requires pmm.free == {} || Missing(tabs, root, PageOf(virt)[..3]) < |pmm.free|
      modifies this`tabs, this`loc, pmm`freeCount, pmm`free, pmm.bitmap
      ensures Valid() && Owned(tabs, loc, pmm.free, pmm.total) && (ok <==> old(pmm.free) != {})
      ensures !ok ==> tabs == old(tabs) && loc == old(loc) && pmm.free == old(pmm.free)
      ensures ok ==> |pmm.free| == |old(pmm.free)| - 1 - Missing(old(tabs), root, PageOf(virt)[..3])
      ensures ok ==>
        && SameRoots(old(loc), loc) && exists f: nat ::
             && f in old(pmm.free) && TablesAdded(old(loc), old(pmm.free) - {f}, loc, pmm.free, root)
             && Mapped(old(tabs), old(loc), tabs, root, PageOf(virt), Some(LeafFor(f * PAGE_SIZE, flags)))
             && Grants(Lookup(tabs, root, PageOf(virt)), f * PAGE_SIZE, flags)
      ensures ok ==> forall g: nat :: Held(tabs, loc, pmm.free, pmm.total, g) <==>
        old(Held(tabs, loc, pmm.free, pmm.total, g)) || MapsTo(old(tabs), root, PageOf(virt), g)
    {
      var f := pmm.AllocFrame();
      if f == 0 {
        return false;
      }
      OwnedAlloc(tabs, loc, old(pmm.free), pmm.total, f);
      assert LeafFor(f * PAGE_SIZE, flags).frame == f;
      MapPage(root, virt, f * PAGE_SIZE, flags);
      return true;
    }

    /**
     One round of `vm_free_pages`: the page is unmapped and its frame freed, whatever its count.  The frames
     of other pages stay taken exactly if no other page was mapped to it.
     */
    method ReleasePage(root: nat, virt: nat)
      requires Valid() && IsRoot(loc, root) && IsPath(PageOf(virt)) && LeavesApart(tabs, loc)
      modifies this`tabs, pmm`freeCount, pmm`free, pmm.bitmap
      ensures Valid() && Mapped(old(tabs), loc, tabs, root, PageOf(virt), None)
      ensures pmm.free == old(pmm.free) + Releases(Lookup(old(tabs), root, PageOf(virt)), pmm.total)
      ensures old(LeavesTaken()) ==> (LeavesTaken() <==>
        forall f: nat :: f in Releases(Lookup(old(tabs), root, PageOf(virt)), pmm.total) ==>
          NowhereElse(old(tabs), loc, root, PageOf(virt), f))
      ensures old(Owned(tabs, loc, pmm.free, pmm.total)) ==>
        && Owned(tabs, loc, pmm.free, pmm.total)
        && forall g: nat :: Held(tabs, loc, pmm.free, pmm.total, g) <==> old(Held(tabs, loc, pmm.free, pmm.total, g))
    {
      var phys := GetPhysical(root, virt);
      NotHeld(root, PageOf(virt));
      var r := UnmapPage(root, virt);
      if old(LeavesTaken()) {
        ReleasedBacked(old(tabs), tabs, loc, pmm.free, pmm.total, root, PageOf(virt));
      }
      if old(Owned(tabs, loc, pmm.free, pmm.total)) {
        ReleasedOwned(old(tabs), tabs, loc, pmm.free, pmm.total, root, PageOf(virt));
      }
      ReleaseFrame(phys, Lookup(old(tabs), root, PageOf(virt)));
    }

    /** The frame of the page is freed, if there is one and it is not frame 0. */
    method ReleaseFrame(phys: nat, ghost e: Option<Entry>)
      requires Valid() && phys == (match e case None => 0 case Some(e) => e.frame * PAGE_SIZE)
      requires e.Some? ==> e.value.frame !in loc
      modifies pmm`freeCount, pmm`free, pmm.bitmap
      ensures Valid() && pmm.free == old(pmm.free) + Releases(e, pmm.total)
    {
      if phys != 0 {
        pmm.FreeFrame(phys / PAGE_SIZE);
      }
    }

    /** A mapped frame is not held. */
    lemma NotHeld(root: nat, page: seq<nat>)
      requires Valid() && IsRoot(loc, root) && |page| == 4 && IsPath(page)
      ensures LeavesApart(tabs, loc) && Lookup(tabs, root, page).Some? ==>
        Lookup(tabs, root, page).value.frame !in loc
      ensures forall g: nat :: MapsTo(tabs, root, page, g) ==> !Held(tabs, loc, pmm.free, pmm.total, g)
    {
      if Lookup(tabs, root, page).Some? {
        var t := LookupLeaf(tabs, loc, root, page, Lookup(tabs, root, page).value.frame);
      }
    }

    /** `vm_create_space`: an empty user half behind the copied kernel half. */
    method CreateSpace() returns (root: nat)
      requires Valid()
      modifies this`tabs, this`loc, pmm`freeCount, pmm`free, pmm.bitmap
      ensures Valid()
      ensures root == 0 <==> old(pmm.free) == {}
      ensures root == 0 ==> tabs == old(tabs) && loc == old(loc) && pmm.free == {}
      ensures root != 0 ==>
        && root in old(pmm.free) && pmm.free == old(pmm.free) - {root}
        && loc == old(loc)[root := Loc(root, [])] && root !in old(loc)
        && tabs == old(tabs)[root := seq(USER_HALF, i => EMPTY) + kernelHalf]
        && SameTranslations(old(tabs), old(loc), tabs)
        && (forall page: seq<nat> :: |page| == 4 && IsPath(page) ==> Lookup(tabs, root, page) == None)
      ensures old(Owned(tabs, loc, pmm.free, pmm.total)) ==> Owned(tabs, loc, pmm.free, pmm.total)
      ensures forall g: nat :: Held(tabs, loc, pmm.free, pmm.total, g) <==> old(Held(tabs, loc, pmm.free, pmm.total, g))
      ensures old(LeavesTaken()) ==> LeavesTaken()
    {
      root := pmm.AllocFrame();
      if root == 0 {
        return;
      }
      NewRoot(tabs, loc, root, seq(USER_HALF, i => EMPTY) + kernelHalf);
      if old(LeavesTaken()) {
        BackedNewRoot(tabs, loc, old(pmm.free), root, seq(USER_HALF, i => EMPTY) + kernelHalf);
      }
      OwnedNewRoot(tabs, loc, old(pmm.free), pmm.total, root, seq(USER_HALF, i => EMPTY) + kernelHalf);
      tabs := tabs[root := seq(USER_HALF, i => EMPTY) + kernelHalf];
      loc := loc[root := Loc(root, [])];
    }

    // ---------- destroying a space ----------

    /** What a teardown relies on while it runs. */
    ghost predicate Teardown(t: nat)
      reads this, pmm, pmm.bitmap
    {
      pmm.Valid() && Forest(tabs, loc) && t in loc && forall u :: u in loc ==> u < pmm.total && Seen(u)
    }

    /** `vm_destroy_space` below one table; the table is given back after what it leads to. */
    method DestroyTable(t: nat, depth: nat)
      requires Teardown(t) && depth == |loc[t].path|
      modifies pmm`freeCount, pmm`free, pmm.bitmap, pmm.refs
      ensures Teardown(t)
      ensures AllGivenBack(tabs, loc, old(pmm.free), old(pmm.refs[..]), pmm.free, pmm.refs[..],
                           loc[t].root, loc[t].path)
      decreases 3 - depth, 2
    {
      assert NodeAt(tabs, loc, t);
      var limit := DestroyEntries(t, depth);
      GivenBackWhole(tabs, loc, old(pmm.free), old(pmm.refs[..]), pmm.free, pmm.refs[..], t, limit);
      pmm.FreeFrame(t);
    }

    /** The loop of `vm_destroy_space` over the entries of one table. */
    method DestroyEntries(t: nat, depth: nat) returns (limit: nat)
      requires Teardown(t) && depth == |loc[t].path|
      modifies pmm`freeCount, pmm`free, pmm.bitmap, pmm.refs
      ensures Teardown(t) && limit == (if depth == 0 then USER_HALF else ENTRIES)
      ensures GivenBack(tabs, loc, old(pmm.free), old(pmm.refs[..]), pmm.free, pmm.refs[..],
                        loc[t].root, loc[t].path, limit)
      decreases 3 - depth, 1
    {
      ghost var r, path := loc[t].root, loc[t].path;
      limit := if depth == 0 then USER_HALF else ENTRIES;
      var x := 0;
      NoneGivenBack(tabs, loc, pmm.free, pmm.refs[..], r, path);
      while x < limit
        invariant 0 <= x <= limit && Teardown(t)
        invariant GivenBack(tabs, loc, old(pmm.free), old(pmm.refs[..]), pmm.free, pmm.refs[..], r, path, x)
      {
        ghost var free1, c1 := pmm.free, pmm.refs[..];
        DestroyEntry(t, x, depth);
        GivenBackStep(tabs, loc, old(pmm.free), old(pmm.refs[..]), free1, c1, pmm.free, pmm.refs[..], r, path, x);
        x := x + 1;
      }
    }

    /** What `vm_destroy_space` does at one entry: nothing, drop a mapped frame, or tear down the table below. */
    method DestroyEntry(t: nat, x: nat, depth: nat)
      requires Teardown(t) && depth == |loc[t].path| && x < (if depth == 0 then USER_HALF else ENTRIES)
      modifies pmm`freeCount, pmm`free, pmm.bitmap, pmm.refs
      ensures Teardown(t)
      ensures AllGivenBack(tabs, loc, old(pmm.free), old(pmm.refs[..]), pmm.free, pmm.refs[..],
                           loc[t].root, loc[t].path + [x])
      decreases 3 - depth, 0
    {
      assert NodeAt(tabs, loc, t);
      if !tabs[t][x].present {
        NothingGivenBack(tabs, loc, pmm.free, pmm.refs[..], t, x);
        return;
      }
      var f := tabs[t][x].frame;
      if depth == 3 {
        DropFrame(f);
        LeafGivenBack(tabs, loc, old(pmm.free), old(pmm.refs[..]), pmm.free, pmm.refs[..], t, x, f);
      } else {
        assert ChildAt(tabs, loc, t, x);
        DestroyTable(f, depth + 1);
      }
    }

    /** One count less for a mapped frame, which is freed when none is left. */
    method DropFrame(f: nat)
      requires pmm.Valid()
      modifies pmm`freeCount, pmm`free, pmm.bitmap, pmm.refs
      ensures pmm.Valid()
      ensures var c := old(pmm.refs[..]);
        && pmm.refs[..] == (if f < |c| then c[f := Dec(c[f])] else c)
        && pmm.free == (if f < |c| && Dec(c[f]) == 0 && Seen(f) then old(pmm.free) + {f} else old(pmm.free))
    {
      var c := pmm.RefDec(f * PAGE_SIZE);
      if c == 0 {
        pmm.FreeFrame(f);
      }
    }

    /**
     `vm_destroy_space`.  All tables of the space go back to the free frames, and of the frames it maps those
     whose count does not exceed the number of its entries for them; no table is written, so the other
     spaces keep their translations.  Their frames stay taken exactly if none of them is among those freed.
     When every frame has one role and no count, exactly the space's tables and mapped frames are given back
     and every frame still has one role.
     */
    method DestroySpace(root: nat)
      requires Valid() && IsRoot(loc, root) && LeavesApart(tabs, loc)
      modifies this`loc, pmm`freeCount, pmm`free, pmm.bitmap, pmm.refs
      ensures Valid() && loc == KeptLoc(old(loc), root)
      ensures AllGivenBack(tabs, old(loc), old(pmm.free), old(pmm.refs[..]), pmm.free, pmm.refs[..], root, [])
      ensures old(LeavesTaken()) ==> (LeavesTaken() <==>
        forall t, l, f: nat :: IsLeaf(tabs, old(loc), t, l, f) && old(loc)[t].root != root ==>
          !Lost(tabs, old(loc), old(pmm.refs[..]), root, f))
      ensures old(Owned(tabs, loc, pmm.free, pmm.total) && NoCounts()) ==>
        && Owned(tabs, loc, pmm.free, pmm.total) && NoCounts()
        && (forall f: nat :: f in pmm.free <==>
              f in old(pmm.free) || SubTable(old(loc), f, root, []) || |SubSlots(tabs, old(loc), f, root, [])| > 0)
        && forall g: nat :: Held(tabs, loc, pmm.free, pmm.total, g) <==> old(Held(tabs, loc, pmm.free, pmm.total, g))
    {
      ghost var loc0, free0, c0 := loc, pmm.free, pmm.refs[..];
      RemoveRoot(root);
      if old(LeavesTaken()) {
        RemoveSpaceBacked(tabs, loc0, free0, c0, pmm.free, pmm.refs[..], root);
      }
      if old(Owned(tabs, loc, pmm.free, pmm.total) && NoCounts()) {
        RemoveSpaceOwned(tabs, loc0, free0, c0, pmm.free, pmm.refs[..], root);
        forall g: nat ensures Held(tabs, loc, pmm.free, pmm.total, g) <==> Held(tabs, loc0, free0, pmm.total, g) {
          RemoveSpaceHeld(tabs, loc0, free0, pmm.free, pmm.total, root, g);
        }
      }
    }

    /** The loops of `vm_destroy_space`, after which the space is gone. */
    method RemoveRoot(root: nat)
      requires Valid() && IsRoot(loc, root) && LeavesApart(tabs, loc)
      modifies this`loc, pmm`freeCount, pmm`free, pmm.bitmap, pmm.refs
      ensures Valid() && loc == KeptLoc(old(loc), root)
      ensures AllGivenBack(tabs, old(loc), old(pmm.free), old(pmm.refs[..]), pmm.free, pmm.refs[..], root, [])
    {
      ghost var free0, c0 := pmm.free, pmm.refs[..];
      DestroyTable(root, 0);
      RemoveSpace(tabs, loc, root);
      RemoveSpaceTaken(tabs, loc, free0, c0, pmm.free, pmm.refs[..], root);
      loc := KeptLoc(loc, root);
    }

    /** No frame has a reference count; so it is until a space is cloned. */
    ghost predicate NoCounts()
      reads this, pmm.refs
    {
      pmm.refs.Length == pmm.total && forall p :: 0 <= p < pmm.total ==> pmm.refs[..][p] == 0
    }

    // ---------- cloning a space ----------

    /** The reference counting `vm_clone_space` does for a user-writable page. */
    method ShareFrame(f: nat)
      requires pmm.refs.Length == pmm.total
      modifies pmm.refs
      ensures forall p :: 0 <= p < pmm.total ==>
        pmm.refs[p] == if p == f then CloneCount(old(pmm.refs[p])) else old(pmm.refs[p])
    {
      if pmm.RefCount(f * PAGE_SIZE) == 1 {
        pmm.RefInc(f * PAGE_SIZE);
      }
      pmm.RefInc(f * PAGE_SIZE);
    }

    /** What a clone relies on while it runs. */
    ghost predicate Clonable()
      reads this, pmm, pmm.bitmap
    {
      pmm.Valid() && Forest(tabs, loc) && TablesTaken(loc, pmm.free, pmm.total)
    }

    /** The loop over the entries of a leaf table in `vm_clone_space`. */
    method CopyPages(t: nat, d: nat)
      requires t != d && t in tabs && |tabs[t]| == ENTRIES && d in tabs && tabs[d] == seq(ENTRIES, i => EMPTY)
      requires pmm.refs.Length == pmm.total
      modifies this`tabs, pmm.refs
      ensures Counted(old(tabs), {t}, old(pmm.refs[..]), pmm.refs[..])
      ensures t in tabs && |tabs[t]| == ENTRIES && d in tabs && |tabs[d]| == ENTRIES
      ensures tabs == old(tabs)[t := tabs[t]][d := tabs[d]]
      ensures forall y :: 0 <= y < ENTRIES ==> tabs[t][y] == Cow(old(tabs)[t][y])
      ensures forall y :: 0 <= y < ENTRIES ==>
        tabs[d][y] == if old(tabs)[t][y].present then Cow(old(tabs)[t][y]) else EMPTY
    {
      ghost var es, c0 := tabs[t], pmm.refs[..];
      var l := 0;
      while l < ENTRIES
        invariant 0 <= l <= ENTRIES && t in tabs && |tabs[t]| == ENTRIES && d in tabs && |tabs[d]| == ENTRIES
        invariant tabs == old(tabs)[t := tabs[t]][d := tabs[d]]
        invariant forall y :: 0 <= y < ENTRIES ==> tabs[t][y] == if y < l then Cow(es[y]) else es[y]
        invariant forall y :: 0 <= y < ENTRIES ==> tabs[d][y] == if y < l && es[y].present then Cow(es[y]) else EMPTY
        invariant forall p: nat :: p < pmm.total ==> pmm.refs[p] == Shares(c0[p], |PartShares(es, t, l, p)|)
      {
        CopyPage(t, d, l);
        forall p: nat | p < pmm.total ensures pmm.refs[p] == Shares(c0[p], |PartShares(es, t, l + 1, p)|) {
          PartSharesStep(es, t, l, p);
        }
        l := l + 1;
      }
      CountedOne(old(tabs), t, c0, pmm.refs[..]);
    }

    /** The body of that loop. */
    method CopyPage(t: nat, d: nat, l: nat)
      requires t != d && t in tabs && d in tabs && l < |tabs[t]| && l < |tabs[d]| && pmm.refs.Length == pmm.total
      modifies this`tabs, pmm.refs
      ensures t in tabs && d in tabs && tabs == old(tabs)[t := tabs[t]][d := tabs[d]]
      ensures var e := old(tabs)[t][l];
        && tabs[t] == old(tabs)[t][l := Cow(e)]
        && tabs[d] == (if e.present then old(tabs)[d][l := Cow(e)] else old(tabs)[d])
        && forall p: nat :: p < pmm.total ==>
             pmm.refs[p] == if SharesFrame(e, p) then CloneCount(old(pmm.refs[p])) else old(pmm.refs[p])
    {
      var pte := tabs[t][l];
      if pte.present {
        if pte.writable && pte.user {
          ShareFrame(pte.frame);
          pte := pte.(writable := false, cow := true);
          tabs := tabs[t := tabs[t][l := pte]];
        }
        tabs := tabs[d := tabs[d][l := pte]];
      }
    }

    /**
     One level of `vm_clone_space`: copy table `t` and all below it into new frames.  It works out exactly if
     there are as many free frames as tables.
     */
    method CloneTable(t: nat, depth: nat)
      returns (ok: bool, d: nat, ghost m: Copies, ghost w: Copies, ghost done: set<nat>)
      requires Clonable() && t in loc && depth == |loc[t].path| && 1 <= depth
      modifies this`tabs, pmm`freeCount, pmm`free, pmm.bitmap, pmm.refs
      ensures Clonable()
      ensures TableCloned(old(tabs), old(pmm.free), old(pmm.refs[..]), tabs, pmm.free, pmm.refs[..], loc,
                          t, d, m, w, done, ok)
      decreases 3 - depth, 2
    {
      assert NodeAt(tabs, loc, t);
      d := pmm.AllocFrame();
      if d == 0 {
        NoneCloned(tabs, pmm.refs[..], loc, t);
        return false, 0, map[], map[], {};
      }
      tabs := tabs[d := seq(ENTRIES, i => EMPTY)];
      OnlyCowedForest(old(tabs), tabs, loc, old(pmm.free), pmm.total, {}, {});
      ok, m, w, done := FillTable(t, d, depth, old(tabs), old(pmm.free));
    }

    /** The rest of it, once there is a cleared frame `d` for the copy. */
    method FillTable(t: nat, d: nat, depth: nat, ghost tabs0: Tables, ghost free0: set<int>)
      returns (ok: bool, ghost m: Copies, ghost w: Copies, ghost done: set<nat>)
      requires Clonable() && t in loc && depth == |loc[t].path| && 1 <= depth
      requires Forest(tabs0, loc) && TablesTaken(loc, free0, pmm.total) && d in free0 && pmm.free == free0 - {d}
      requires tabs == tabs0[d := seq(ENTRIES, i => EMPTY)]
      modifies this`tabs, pmm`freeCount, pmm`free, pmm.bitmap, pmm.refs
      ensures Clonable()
      ensures TableCloned(tabs0, free0, old(pmm.refs[..]), tabs, pmm.free, pmm.refs[..], loc, t, d, m, w, done, ok)
      decreases 3 - depth, 1, 1
    {
      assert NodeAt(tabs0, loc, t);
      ghost var tabs1, free1, c0 := tabs, pmm.free, pmm.refs[..];
      if depth == 3 {
        CopyPages(t, d);
        CountedBase(tabs0, tabs1, {t}, c0, pmm.refs[..]);
        LeafCloned(tabs0, free0, c0, tabs, pmm.free, pmm.refs[..], loc, t, d);
        OnlyCowedForest(tabs0, tabs, loc, free0, pmm.total, {t}, {});
        return true, map[t := d], map[d := t], {t};
      }
      ghost var x;
      ok, x, m, w, done := CloneEntries(t, d, depth);
      DirectoryCloned(tabs0, tabs1, tabs, loc, free0, free1, pmm.free, c0, pmm.refs[..], t, d, x, m, w, done, ok);
      m, w := m[t := d], w[d := t];
    }

    /**
     The loop over the entries of directory `t`, copied into table `d`; it stops at the first entry that does
     not fit.
     */
    method CloneEntries(t: nat, d: nat, depth: nat)
      returns (ok: bool, ghost x: nat, ghost m: Copies, ghost w: Copies, ghost done: set<nat>)
      requires Clonable() && t in loc && depth == |loc[t].path| && depth < 3
      requires d !in loc && d !in pmm.free && d in tabs && |tabs[d]| == ENTRIES
      requires forall y :: 0 <= y < Limit(loc[t].path) ==> tabs[d][y] == EMPTY
      modifies this`tabs, pmm`freeCount, pmm`free, pmm.bitmap, pmm.refs
      ensures Clonable()
      ensures CopyEnded(old(tabs), old(pmm.free), old(pmm.refs[..]), tabs, pmm.free, pmm.refs[..], loc,
                        t, d, x, m, w, done, ok)
      decreases 3 - depth, 1, 0
    {
      var limit := if depth == 0 then USER_HALF else ENTRIES;
      ghost var tabs0, free0, c0 := tabs, pmm.free, pmm.refs[..];
      var i := 0;
      ok, m, w, done := true, map[], map[], {};
      CopyingStart(tabs, pmm.free, pmm.refs[..], loc, t, d);
      while ok && i < limit
        invariant 0 <= i <= limit && Clonable()
        invariant ok ==> Copying(tabs0, free0, c0, tabs, pmm.free, pmm.refs[..], loc, t, d, i, m, w)
        invariant !ok ==> CopyEnded(tabs0, free0, c0, tabs, pmm.free, pmm.refs[..], loc, t, d, i, m, w, done, false)
        decreases limit - i, ok
      {
        ok, m, w, done := CloneEntry(t, d, depth, i, tabs0, free0, c0, m, w);
        i := if ok then i + 1 else i;
      }
      x := i;
      if ok {
        CopyingDone(tabs0, free0, c0, tabs, pmm.free, pmm.refs[..], loc, t, d, i, m, w);
        done := PartLeafTables(loc, loc[t].root, loc[t].path, i);
      }
    }

    /** The body of that loop. */
    method CloneEntry(t: nat, d: nat, depth: nat, x: nat, ghost tabs0: Tables, ghost free0: set<int>,
                      ghost c0: seq<Count>,
                      ghost m: Copies, ghost w: Copies)
      returns (ok: bool, ghost m': Copies, ghost w': Copies, ghost done: set<nat>)
      requires Clonable() && Copying(tabs0, free0, c0, tabs, pmm.free, pmm.refs[..], loc, t, d, x, m, w)
      requires depth == |loc[t].path| && x < Limit(loc[t].path)
      requires Forest(tabs0, loc) && TablesTaken(loc, free0, pmm.total) && d !in loc && d !in free0
      requires forall y :: 0 <= y < Limit(loc[t].path) ==> tabs0[d][y] == EMPTY
      modifies this`tabs, pmm`freeCount, pmm`free, pmm.bitmap, pmm.refs
      ensures Clonable()
      ensures if ok then Copying(tabs0, free0, c0, tabs, pmm.free, pmm.refs[..], loc, t, d, x + 1, m', w')
              else m' == m && w' == w &&
                   CopyEnded(tabs0, free0, c0, tabs, pmm.free, pmm.refs[..], loc, t, d, x, m, w, done, false)
      decreases 3 - depth, 0
    {
      ghost var r, path := loc[t].root, loc[t].path;
      assert tabs[t] == tabs0[t];
      PartTablesStep(tabs, loc, r, path, x);
      PartLeafTablesStep(loc, r, path, x);
      done := PartLeafTables(loc, r, path, x);
      if !tabs[t][x].present {
        DirSkip(tabs0, tabs, loc, free0, pmm.free, t, d, x, m, w);
        NoTablesBelow(tabs, loc, t, x);
        assert LeafTables(loc, r, path + [x]) <= SubTables(loc, r, path + [x]);
        assert done == PartLeafTables(loc, r, path, x + 1);
        return true, m, w, done;
      }
      ChildOf(tabs, loc, t, x);
      ok, m', w', done := CloneChild(t, d, depth, x, tabs[t][x].frame, tabs0, free0, c0, m, w);
    }

    /** The same for an entry that leads to table `c`. */
    method CloneChild(t: nat, d: nat, depth: nat, x: nat, c: nat, ghost tabs0: Tables, ghost free0: set<int>,
                      ghost c0: seq<Count>,
                      ghost m: Copies, ghost w: Copies)
      returns (ok: bool, ghost m': Copies, ghost w': Copies, ghost done: set<nat>)
      requires Clonable() && DirState(tabs0, tabs, loc, free0, pmm.free, t, d, x, m, w)
      requires depth == |loc[t].path| && x < Limit(loc[t].path)
      requires Forest(tabs0, loc) && TablesTaken(loc, free0, pmm.total) && d !in loc && d !in free0
      requires tabs0[t][x].present && tabs0[t][x].frame == c && c in loc
      requires loc[c] == Loc(loc[t].root, loc[t].path + [x])
      requires Counted(tabs0, PartLeafTables(loc, loc[t].root, loc[t].path, x), c0, pmm.refs[..])
      requires |pmm.free| == |free0| - |PartTables(loc, loc[t].root, loc[t].path, x)|
      modifies this`tabs, pmm`freeCount, pmm`free, pmm.bitmap, pmm.refs
      ensures Clonable() && Counted(tabs0, done, c0, pmm.refs[..])
      ensures if ok then DirState(tabs0, tabs, loc, free0, pmm.free, t, d, x + 1, m', w')
              else m' == m && w' == w && DirStopped(tabs0, tabs, loc, free0, pmm.free, t, d, x, m, w, done)
      ensures if ok then done == PartLeafTables(loc, loc[t].root, loc[t].path, x + 1)
              else Reached(loc, loc[t].root, loc[t].path, |free0| + 1, done)
      ensures var n := |SubTables(loc, loc[t].root, loc[t].path + [x])|;
        if ok then |pmm.free| == |old(pmm.free)| - n else |old(pmm.free)| < n && pmm.free == {}
      decreases 3 - depth, 0, 0
    {
      ghost var r, path := loc[t].root, loc[t].path;
      ghost var tabs1, free1, c1 := tabs, pmm.free, pmm.refs[..];
      var dc;
      ghost var mc, wc, below;
      ok, dc, mc, wc, below := CloneTable(c, depth + 1);
      done := PartLeafTables(loc, r, path, x) + below;
      if !ok {
        ChildStopped(tabs0, tabs1, tabs, loc, free0, free1, t, c, d, x, m, w, dc, mc, wc, below, c0, c1, pmm.refs[..],
                     pmm.total);
        return false, m, w, done;
      }
      ChildCounted(tabs0, tabs1, loc, free0, t, d, x, m, below, c0, c1, pmm.refs[..], pmm.total);
      PartLeafTablesStep(loc, r, path, x);
      LinkChild(t, d, x, c, dc, tabs0, tabs1, free0, free1, m, w, mc, wc);
      return true, m + mc, w + wc, done;
    }

    /** The copy of the table below entry `x` is linked in. */
    method LinkChild(ghost t: nat, d: nat, x: nat, ghost c: nat, dc: nat, ghost tabs0: Tables, ghost tabs1: Tables,
                     ghost free0: set<int>, ghost free1: set<int>, ghost m: Copies, ghost w: Copies,
                     ghost mc: Copies, ghost wc: Copies)
      requires pmm.Valid() && Forest(tabs0, loc) && TablesTaken(loc, free0, pmm.total) && d !in loc && d !in free0
      requires DirState(tabs0, tabs1, loc, free0, free1, t, d, x, m, w) && x < Limit(loc[t].path)
      requires OnlyCowed(tabs1, tabs, free1, LeafTables(loc, loc[t].root, loc[t].path + [x]), {})
      requires Copied(tabs1, tabs, loc, mc, wc) && Fresh(wc, free1, pmm.free) && c in mc && mc[c] == dc
      requires forall s :: s in mc <==> SubTable(loc, s, loc[t].root, loc[t].path + [x])
      requires tabs0[t][x].present && tabs0[t][x].frame == c
      modifies this`tabs
      ensures Clonable() && DirState(tabs0, tabs, loc, free0, pmm.free, t, d, x + 1, m + mc, w + wc)
    {
      DirTake(tabs0, tabs1, tabs, loc, free0, free1, pmm.free, t, d, x, c, m, w, mc, wc, pmm.total);
      tabs := tabs[d := tabs[d][x := Link(dc)]];
      OnlyCowedForest(tabs0, tabs, loc, free0, pmm.total, PartLeafTables(loc, loc[t].root, loc[t].path, x + 1), {d});
    }

    /**
     `vm_clone_space`; 0 stands for failure, which comes exactly from too few frames for the tables.  On success
     the clone is complete, no table is shared, and the counts are as `CloneDone` says.  On failure the
     half-built clone is destroyed and with it every frame `LostBy` names, although the source still maps it;
     `x` is the top-level entry it stopped in and `done` holds the leaf tables it had reached.
     */
    method CloneSpace(src: nat) returns (dst: nat, ghost x: nat, ghost done: set<nat>)
      requires Valid() && IsRoot(loc, src) && LeavesTaken()
      modifies this`tabs, this`loc, pmm`freeCount, pmm`free, pmm.bitmap, pmm.refs
      ensures Valid()
      ensures dst != 0 <==> |SubTables(old(loc), src, [])| <= |old(pmm.free)|
      ensures dst != 0 ==>
        && CloneDone(old(tabs), old(loc), old(pmm.free), old(pmm.refs[..]), tabs, loc, pmm.free, pmm.refs[..], src, dst)
        && LeavesTaken() && |pmm.free| == |old(pmm.free)| - |SubTables(old(loc), src, [])|
      ensures dst == 0 ==> loc == old(loc) && SameFrames(old(tabs), loc, tabs)
      ensures dst == 0 && old(pmm.free) == {} ==>
        tabs == old(tabs) && pmm.free == {} && pmm.refs[..] == old(pmm.refs[..])
      ensures dst == 0 && old(pmm.free) != {} ==>
        && CloneFailed(old(tabs), loc, old(pmm.free), old(pmm.refs[..]), tabs, pmm.free, pmm.refs[..], src, x, done)
        && (LeavesTaken() <==> forall f: nat :: !LostBy(old(tabs), loc, old(pmm.refs[..]), src, x, done, f))
    {
      ghost var loc0, free0 := loc, pmm.free;
      SubTablesWhole(tabs, loc, src);
      x, done := 0, {};
      dst := CreateSpace();
      if dst == 0 {
        return;
      }
      loc := loc0;
      NewRootOutside(old(tabs), tabs, loc, dst);
      var ok;
      ok, x, done := CloneInto(src, dst, old(tabs), free0);
      dst := if ok then dst else 0;
    }

    /** The rest of `vm_clone_space`, once there is a root: fill it, or give up. */
    method CloneInto(src: nat, dst: nat, ghost tabs0: Tables, ghost free0: set<int>)
      returns (ok: bool, ghost x: nat, ghost done: set<nat>)
      requires Clonable() && |kernelHalf| == 256 && Rooted(tabs0, free0, tabs, pmm.free, loc, src, dst, pmm.total)
      modifies this`tabs, this`loc, pmm`freeCount, pmm`free, pmm.bitmap, pmm.refs
      ensures Valid() && (ok <==> |SubTables(old(loc), src, [])| <= |free0|)
      ensures ok ==>
        && CloneDone(tabs0, old(loc), free0, old(pmm.refs[..]), tabs, loc, pmm.free, pmm.refs[..], src, dst)
        && LeavesTaken() && |pmm.free| == |free0| - |SubTables(old(loc), src, [])|
      ensures !ok ==>
        && loc == old(loc) && SameFrames(tabs0, loc, tabs)
        && CloneFailed(tabs0, loc, free0, old(pmm.refs[..]), tabs, pmm.free, pmm.refs[..], src, x, done)
        && (LeavesTaken() <==> forall f: nat :: !LostBy(tabs0, loc, old(pmm.refs[..]), src, x, done, f))
    {
      ghost var tabs1, free1, c0 := tabs, pmm.free, pmm.refs[..];
      ghost var m, w;
      ok, x, m, w, done := CloneEntries(src, dst, 0);
      RootEnds(tabs0, tabs1, tabs, loc, free0, free1, pmm.free, c0, pmm.refs[..], src, dst, x, m, w, done, ok);
      if ok {
        Adopt(tabs0, tabs1, free0, free1, c0, src, dst, x, m, w, done);
      } else {
        Abandon(tabs0, tabs1, free0, free1, c0, src, dst, x, m, w, done);
      }
    }

    /** The success path: the copies are the tables of the new space. */
    ghost method Adopt(tabs0: Tables, tabs1: Tables, free0: set<int>, free1: set<int>, c0: seq<Count>,
                       src: nat, dst: nat, x: nat, m: Copies, w: Copies, done: set<nat>)
      requires pmm.Valid() && |kernelHalf| == 256 && |c0| == pmm.total
      requires Rooted(tabs0, free0, tabs1, free1, loc, src, dst, pmm.total)
      requires CopyEnded(tabs1, free1, c0, tabs, pmm.free, pmm.refs[..], loc, src, dst, x, m, w, done, true)
      modifies this`loc
      ensures Valid() && LeavesTaken()
      ensures CloneDone(tabs0, old(loc), free0, c0, tabs, loc, pmm.free, pmm.refs[..], src, dst)
    {
      CloneCompleted(tabs0, tabs1, tabs, loc, free0, free1, pmm.free, c0, pmm.refs[..], src, dst, x, m, w, done);
      loc := CloneLoc(loc, w, dst);
    }

    /** The failure path of `vm_clone_space`: destroy what is linked below the new root. */
    method Abandon(ghost tabs0: Tables, ghost tabs1: Tables, ghost free0: set<int>, ghost free1: set<int>,
                   ghost c0: seq<Count>,
                   ghost src: nat, dst: nat, ghost x: nat, ghost m: Copies, ghost w: Copies, ghost done: set<nat>)
      requires pmm.Valid() && |kernelHalf| == 256 && |c0| == pmm.total
      requires Rooted(tabs0, free0, tabs1, free1, loc, src, dst, pmm.total)
      requires CopyEnded(tabs1, free1, c0, tabs, pmm.free, pmm.refs[..], loc, src, dst, x, m, w, done, false)
      modifies this`loc, pmm`freeCount, pmm`free, pmm.bitmap, pmm.refs
      ensures Valid() && loc == old(loc) && SameFrames(tabs0, loc, tabs)
      ensures CloneFailed(tabs0, loc, free0, c0, tabs, pmm.free, pmm.refs[..], src, x, done)
      ensures LeavesTaken() <==> forall f: nat :: !LostBy(tabs0, loc, c0, src, x, done, f)
    {
      ghost var loc0, c1 := loc, pmm.refs[..];
      StoppedImage(tabs0, tabs1, tabs, loc, free1, pmm.free, pmm.total, src, dst, x, m, w, done);
      StoppedBacked(tabs0, tabs1, tabs, loc, free0, free1, src, dst, x, m, w, done);
      loc := CloneLoc(loc, w, dst);
      DestroySpace(dst);
      FailFinish(tabs0, tabs1, tabs, loc0, free0, free1, pmm.free, c0, c1, pmm.refs[..], src, dst, x, m, w, done);
      FailedBacked(tabs0, loc0, free0, c0, tabs, pmm.free, pmm.refs[..], src, x, done);
    }

    // ---------- copy on write ----------

    /** Every frame of the allocator holds a page of bytes. */
    ghost predicate Filled()
      reads this, pmm
    {
      forall f: nat :: f < pmm.total ==> f in bytes && |bytes[f]| == PAGE_SIZE
    }

    /** The first copying loop of `vm_handle_cow_fault`: read the page through its translation. */
    method ReadPage(root: nat, page: seq<nat>) returns (tmp: seq<bv8>)
      requires |page| == 4 && Lookup(tabs, root, page).Some?
      requires var f := Lookup(tabs, root, page).value.frame; f in bytes && |bytes[f]| == PAGE_SIZE
      ensures tmp == bytes[Lookup(tabs, root, page).value.frame]
    {
      var f := Lookup(tabs, root, page).value.frame;
      tmp := [];
      while |tmp| < PAGE_SIZE
        invariant |tmp| <= PAGE_SIZE && tmp == bytes[f][..|tmp|]
      {
        tmp := tmp + [bytes[f][|tmp|]];
      }
    }

    /** The second loop: write the page through its translation, byte by byte. */
    method WritePage(root: nat, page: seq<nat>, tmp: seq<bv8>)
      requires |page| == 4 && Lookup(tabs, root, page).Some? && |tmp| == PAGE_SIZE
      requires var f := Lookup(tabs, root, page).value.frame; f in bytes && |bytes[f]| == PAGE_SIZE
      modifies this`bytes
      ensures bytes == old(bytes)[Lookup(tabs, root, page).value.frame := tmp]
    {
      var f := Lookup(tabs, root, page).value.frame;
      var i := 0;
      while i < PAGE_SIZE
        invariant 0 <= i <= PAGE_SIZE && f in bytes && |bytes[f]| == PAGE_SIZE
        invariant bytes == old(bytes)[f := bytes[f]] && bytes[f][..i] == tmp[..i]
      {
        bytes := bytes[f := bytes[f][i := tmp[i]]];
        i := i + 1;
      }
      assert bytes[f] == tmp[..PAGE_SIZE] == tmp;
    }

    /**
     `vm_handle_cow_fault` for a user address; `current` is the space of the current process, if it has one.
     The fault is refused, with nothing changed, exactly when it is not a copy-on-write fault or a copy is
     due and no frame is free.  A frame counted at most once is made writable in place.  Otherwise the
     faulting page, and no other page of any space, moves to a frame that was free, mapped nowhere else and
     filled with the same bytes; the old frame keeps its bytes and its count drops by one.
     */
    method HandleCowFault(current: Option<nat>, virt: nat, err: nat) returns (r: int)
      requires Valid() && LeavesTaken() && Filled() && IsPath(PageOf(virt))
      requires (current.Some? ==> IsRoot(loc, current.value))
      modifies this`tabs, this`bytes, pmm`freeCount, pmm`free, pmm.bitmap, pmm.refs
      ensures Valid() && LeavesTaken() && Filled()
      ensures r == 0 || r == -1
      ensures r == 0 <==>
        && err % 4 == 3 && current.Some? && Lookup(old(tabs), current.value, PageOf(virt)).Some?
        && var e := Lookup(old(tabs), current.value, PageOf(virt)).value;
           e.cow && (old(pmm.RefCount(e.frame * PAGE_SIZE)) <= 1 || old(pmm.free) != {})
      ensures r == -1 ==>
        tabs == old(tabs) && bytes == old(bytes) && pmm.free == old(pmm.free) && pmm.refs[..] == old(pmm.refs[..])
      ensures r == 0 ==>
        var e := Lookup(old(tabs), current.value, PageOf(virt)).value;
        if old(pmm.RefCount(e.frame * PAGE_SIZE)) <= 1
        then MadeWritable(old(tabs), old(loc), tabs, current.value, PageOf(virt), e)
             && bytes == old(bytes) && pmm.free == old(pmm.free) && pmm.refs[..] == old(pmm.refs[..])
        else MadePrivate(old(tabs), loc, tabs, old(bytes), bytes, old(pmm.free), pmm.free,
                         current.value, PageOf(virt), e)
             && e.frame < pmm.total && pmm.refs[..] == old(pmm.refs[..])[e.frame := Dec(old(pmm.refs[..])[e.frame])]
    {
      if err % 4 != 3 || current.None? {
        return -1;
      }
      var root, page := current.value, PageOf(virt);
      var found, t := FindPte(root, page);
      if !found {
        return -1;
      }
      assert NodeAt(tabs, loc, t);
      var pte := tabs[t][page[3]];
      if !pte.present || !pte.cow {
        return -1;
      }
      assert IsLeaf(tabs, loc, t, page[3], pte.frame);
      if pmm.RefCount(pte.frame * PAGE_SIZE) <= 1 {
        WriteLeafAll(tabs, loc, t, page[3], pte.(cow := false, writable := true), root, page);
        SameLeaves(tabs, loc, t, page[3], pte.(cow := false, writable := true));
        tabs := tabs[t := tabs[t][page[3] := pte.(cow := false, writable := true)]];
        return 0;
      }
      r := CopyOnWrite(root, page, t, pte);
    }

    /** The rest of `vm_handle_cow_fault`, when the frame of entry `pte` is counted more than once. */
    method CopyOnWrite(root: nat, page: seq<nat>, t: nat, pte: Entry) returns (r: int)
      requires Valid() && LeavesTaken() && Filled() && IsRoot(loc, root) && |page| == 4 && IsPath(page)
      requires t in loc && loc[t] == Loc(root, page[..3]) && Lookup(tabs, root, page) == Some(pte)
      requires IsLeaf(tabs, loc, t, page[3], pte.frame)
      requires pmm.RefCount(pte.frame * PAGE_SIZE) > 1
      modifies this`tabs, this`bytes, pmm`freeCount, pmm`free, pmm.bitmap, pmm.refs
      ensures Valid() && LeavesTaken() && Filled() && r == (if old(pmm.free) == {} then -1 else 0)
      ensures r == -1 ==>
        tabs == old(tabs) && bytes == old(bytes) && pmm.free == old(pmm.free) && pmm.refs[..] == old(pmm.refs[..])
      ensures r == 0 ==>
        && MadePrivate(old(tabs), loc, tabs, old(bytes), bytes, old(pmm.free), pmm.free, root, page, pte)
        && pte.frame < pmm.total && pmm.refs[..] == old(pmm.refs[..])[pte.frame := Dec(old(pmm.refs[..])[pte.frame])]
    {
      var f := pmm.AllocFrame();
      if f == 0 {
        return -1;
      }
      var tmp := ReadPage(root, page);
      var entry := Entry(f, true, true, true, false, 0);
      assert NodeAt(tabs, loc, t);
      WriteLeafAll(tabs, loc, t, page[3], entry, root, page);
      OnlyLeaf(tabs, loc, old(pmm.free), t, page[3], entry);
      tabs := tabs[t := tabs[t][page[3] := entry]];
      WritePage(root, page, tmp);
      var _ := pmm.RefDec(pte.frame * PAGE_SIZE);
      return 0;
    }

    // ---------- fork and what follows ----------

    /**
     A clone followed by the first write to a user-writable page, in the child or in the parent.  The other
     side keeps the page as the clone left it.  The writing side gets a frame of its own with the same bytes
     exactly if `ForkCopies`; otherwise it writes to the frame the other side still maps.
     */
    method ForkThenFault(src: nat, virt: nat, inChild: bool) returns (dst: nat, r: int)
      requires Valid() && LeavesTaken() && Filled() && IsRoot(loc, src) && IsPath(PageOf(virt))
      requires var o := Lookup(tabs, src, PageOf(virt));
        o.Some? && o.value.user && o.value.writable && o.value.frame in bytes
      modifies this`tabs, this`bytes, this`loc, pmm`freeCount, pmm`free, pmm.bitmap, pmm.refs
      ensures Valid() && (dst != 0 <==> |SubTables(old(loc), src, [])| <= |old(pmm.free)|)
      ensures dst != 0 ==>
        var page := PageOf(virt);
        var copies := old(ForkCopies(tabs, loc, pmm.refs[..], src, Lookup(tabs, src, PageOf(virt)).value.frame));
        && LeavesTaken() && (r == 0 <==> !copies || |SubTables(old(loc), src, [])| < |old(pmm.free)|)
        && (r == 0 ==>
              Forked(old(tabs), tabs, old(bytes), bytes, if inChild then dst else src, if inChild then src else dst,
                     src, page, copies))
    {
      ghost var tabs0, loc0, c0 := tabs, loc, pmm.refs[..];
      ghost var x, done;
      dst, x, done := CloneSpace(src);
      if dst == 0 {
        return 0, -1;
      }
      r := FaultIn(src, dst, virt, inChild, tabs0, loc0, c0);
    }

    /** The write fault after the clone. */
    method FaultIn(src: nat, dst: nat, virt: nat, inChild: bool, ghost tabs0: Tables, ghost loc0: Locs,
                   ghost c0: seq<Count>)
      returns (r: int)
      requires Valid() && LeavesTaken() && Filled() && IsRoot(loc, src) && IsRoot(loc, dst) && src != dst
      requires IsPath(PageOf(virt))
      requires IsRoot(loc0, src) && Cloned(tabs0, loc0, tabs, src, dst)
      requires Counted(tabs0, LeafTables(loc0, src, []), c0, pmm.refs[..])
      requires var o := Lookup(tabs0, src, PageOf(virt));
        o.Some? && o.value.user && o.value.writable && o.value.frame in bytes
      modifies this`tabs, this`bytes, pmm`freeCount, pmm`free, pmm.bitmap, pmm.refs
      ensures Valid() && LeavesTaken()
      ensures var page, copies := PageOf(virt), ForkCopies(tabs0, loc0, c0, src,
                                         Lookup(tabs0, src, PageOf(virt)).value.frame);
        && (r == 0 <==> !copies || old(pmm.free) != {})
        && (r == 0 ==>
              Forked(tabs0, tabs, old(bytes), bytes, if inChild then dst else src, if inChild then src else dst,
                     src, page, copies))
    {
      ghost var page := PageOf(virt);
      ghost var e := Lookup(tabs0, src, page).value;
      ghost var tabs1, bytes1, free1 := tabs, bytes, pmm.free;
      ClonedPage(tabs0, loc0, tabs, src, dst, page);
      var mine := if inChild then dst else src;
      assert Lookup(tabs, mine, page) == Some(Cow(e));
      ghost var copies := ForkCopies(tabs0, loc0, c0, src, e.frame);
      assert copies <==> pmm.RefCount(e.frame * PAGE_SIZE) > 1;
      r := HandleCowFault(Some(mine), virt, 3);
      if r == 0 {
        ForkFaulted(tabs0, loc0, tabs1, loc, tabs, bytes1, bytes, free1, pmm.free, mine, if inChild then src else dst,
                    src, dst, page, copies);
      }
    }

    /**
     A clone followed by the end of one side.  The pages of the other side keep their frames exactly if no
     frame is lost in the sense of `LostBy`, with all leaf tables reached.
     */
    method ForkThenDestroy(src: nat, child: bool) returns (dst: nat)
      requires Valid() && LeavesTaken() && IsRoot(loc, src)
      modifies this`tabs, this`loc, pmm`freeCount, pmm`free, pmm.bitmap, pmm.refs
      ensures Valid()
      ensures dst != 0 ==> (LeavesTaken() <==>
        forall f: nat ::
          !LostBy(old(tabs), old(loc), old(pmm.refs[..]), src, USER_HALF, LeafTables(old(loc), src, []), f))
    {
      ghost var tabs0, loc0, free0, c0 := tabs, loc, pmm.free, pmm.refs[..];
      ghost var x, done;
      dst, x, done := CloneSpace(src);
      if dst == 0 {
        return;
      }
      assert IsRoot(loc, src) && IsRoot(loc, dst) && src != dst;
      ForkLoses(tabs0, loc0, free0, c0, tabs, loc, pmm.free, pmm.refs[..], src, dst, if child then dst else src);
      DestroySpace(if child then dst else src);
    }
  }
}
