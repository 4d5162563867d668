/**
 Sets of address spaces as values: their translations, what changes to one of them leaves alone, and
 who owns which frame.
 */
module Spaces {
  import opened Basics
  import opened PageTables
  import opened Pmm
  import opened Sizes

  datatype Flags = Flags(writable: bool, user: bool, cow: bool, other: nat)

  /** A root with an empty user half joins the forest and disturbs no other space. */
  lemma NewRoot(tabs: Tables, loc: Locs, root: nat, entries: seq<Entry>)
    requires Forest(tabs, loc) && root !in loc && |entries| == ENTRIES && forall i :: 0 <= i < USER_HALF ==>
      !entries[i].present
    ensures Forest(tabs[root := entries], loc[root := Loc(root, [])])
    ensures SameTranslations(tabs, loc, tabs[root := entries])
    ensures forall page: seq<nat> :: |page| == 4 && IsPath(page) ==> Lookup(tabs[root := entries], root, page) == None
  {
    var r, l := tabs[root := entries], loc[root := Loc(root, [])];
    forall u ensures NodeAt(r, l, u) {
      assert NodeAt(tabs, loc, u);
    }
    forall u, x ensures ChildAt(r, l, u, x) {
      assert ChildAt(tabs, loc, u, x);
      assert ([] + [x])[0] == x;
    }
    forall u ensures ParentAt(r, l, u) {
      assert ParentAt(tabs, loc, u);
      if u in loc && loc[u].path != [] {
        var n := |loc[u].path| - 1;
        var p :| p in loc && loc[p] == Loc(loc[u].root, loc[u].path[..n]) && Points(tabs, p, loc[u].path[n], u);
        assert Points(r, p, loc[u].path[n], u) && p in l && l[p] == loc[p];
      }
    }
    NewRootInjective(tabs, loc, root);
    forall q, page: seq<nat> | IsRoot(loc, q) && |page| == 4 && IsPath(page)
      ensures Lookup(r, q, page) == Lookup(tabs, q, page)
    {
      NewRootLookup(tabs, loc, root, entries, q, page);
    }
  }

  lemma NewRootInjective(tabs: Tables, loc: Locs, root: nat)
    requires Forest(tabs, loc) && root !in loc
    ensures Injective(loc[root := Loc(root, [])])
  {
    forall u | u in loc ensures loc[u] != Loc(root, []) {
      assert NodeAt(tabs, loc, u);
    }
  }

  lemma NewRootLookup(tabs: Tables, loc: Locs, root: nat, entries: seq<Entry>, q: nat, page: seq<nat>)
    requires Forest(tabs, loc) && Forest(tabs[root := entries], loc[root := Loc(root, [])]) && root !in loc
    requires IsRoot(loc, q) && |page| == 4 && IsPath(page)
    ensures Lookup(tabs[root := entries], q, page) == Lookup(tabs, q, page)
  {
    var r, l := tabs[root := entries], loc[root := Loc(root, [])];
    if u :| u in loc && loc[u] == Loc(q, page[..3]) {
      LookupAt(tabs, loc, q, page, u);
      LookupAt(r, l, q, page, u);
    } else {
      LookupNowhere(tabs, loc, q, page);
      LookupNowhere(r, l, q, page);
    }
  }

  /** The leaf entry `vm_map_page` writes. */
  function LeafFor(phys: nat, flags: Flags): (e: Entry)
    ensures e.present
  {
    Entry(phys / PAGE_SIZE % 0x100_0000_0000, true, flags.writable, flags.user, flags.cow, flags.other)
  }

  /** Physical addresses that an entry can hold. */
  const PHYS_LIMIT: nat := 0x10_0000_0000_0000

  /** The translation has the flags asked for and the page of the address, of which the low 52 bits count. */
  ghost predicate Grants(o: Option<Entry>, phys: nat, flags: Flags) {
    && o.Some? && var e := o.value;
    && e.present && (e.user <==> flags.user) && (e.writable <==> flags.writable) && (e.cow <==> flags.cow)
    && e.other == flags.other && e.frame * PAGE_SIZE == phys % PHYS_LIMIT - phys % PAGE_SIZE
  }

  lemma LeafGrants(phys: nat, flags: Flags)
    ensures Grants(Some(LeafFor(phys, flags)), phys, flags)
  {
    var q, r := phys / PHYS_LIMIT, phys % PHYS_LIMIT;
    assert phys / PAGE_SIZE == q * 0x100_0000_0000 + r / PAGE_SIZE && phys % PAGE_SIZE == r % PAGE_SIZE;
    assert 0 <= r / PAGE_SIZE < 0x100_0000_0000;
  }

  ghost predicate SameRoots(loc: Locs, loc': Locs) {
    forall r :: IsRoot(loc, r) <==> IsRoot(loc', r)
  }

  /** The partial map of every space is as before, except that `page` of `root` now translates to `e`. */
  ghost predicate Mapped(tabs: Tables, loc: Locs, tabs': Tables, root: nat, page: seq<nat>, e: Option<Entry>) {
    forall r, q: seq<nat> :: IsRoot(loc, r) && |q| == 4 && IsPath(q) ==>
      Lookup(tabs', r, q) == if r == root && q == page then e else Lookup(tabs, r, q)
  }

  lemma WriteLeafAll(tabs: Tables, loc: Locs, t: nat, l: nat, e: Entry, root: nat, page: seq<nat>)
    requires Forest(tabs, loc) && t in loc && l < ENTRIES && |page| == 4 && IsPath(page)
    requires loc[t] == Loc(root, page[..3]) && l == page[3]
    ensures t in tabs && |tabs[t]| == ENTRIES && Forest(WithEntry(tabs, t, l, e), loc)
    ensures Mapped(tabs, loc, WithEntry(tabs, t, l, e), root, page, if e.present then Some(e) else None)
  {
    WriteLeafForest(tabs, loc, t, l, e);
    assert page == page[..3] + [l];
    forall r, q: seq<nat> | IsRoot(loc, r) && |q| == 4 && IsPath(q)
      ensures Lookup(WithEntry(tabs, t, l, e), r, q) ==
        if r == root && q == page then (if e.present then Some(e) else None) else Lookup(tabs, r, q)
    {
      WriteLeafLookup(tabs, loc, t, l, e, r, q);
    }
  }

  lemma ExtendsMapped(tabs: Tables, loc: Locs, tabs1: Tables, loc1: Locs, tabs2: Tables, root: nat, page: seq<nat>,
                      e: Option<Entry>)
    requires Extends(tabs, loc, tabs1, loc1) && Mapped(tabs1, loc1, tabs2, root, page, e)
    ensures Mapped(tabs, loc, tabs2, root, page, e) && SameRoots(loc, loc1)
  {
    forall r, q: seq<nat> | IsRoot(loc, r) && |q| == 4 && IsPath(q)
      ensures Lookup(tabs2, r, q) == if r == root && q == page then e else Lookup(tabs, r, q)
    {
      assert IsRoot(loc1, r);
      assert Lookup(tabs1, r, q) == Lookup(tabs, r, q);
    }
  }

  /**
   Tables are taken frames of memory, and 0, which stands for failure, is never free.  As from boot on the
   allocator hands out seen frames only, tables are seen frames too.
   */
  ghost predicate TablesTaken(loc: Locs, free: set<int>, total: nat) {
    && (forall f :: f in free ==> f != 0 && Seen(f))
    && (forall t :: t in loc ==> t !in free && 0 < t < total && Seen(t))
  }

  /** A later forest: old tables keep their place, no new roots, and every page of every space translates as before. */
  ghost predicate Extends(tabs: Tables, loc: Locs, tabs': Tables, loc': Locs) {
    && (forall t :: t in loc ==> t in loc' && loc'[t] == loc[t])
    && (forall r :: IsRoot(loc', r) ==> IsRoot(loc, r))
    && SameTranslations(tabs, loc, tabs')
  }

  ghost predicate SameTranslations(tabs: Tables, loc: Locs, tabs': Tables) {
    forall r, page: seq<nat> :: IsRoot(loc, r) && |page| == 4 && IsPath(page) ==>
      Lookup(tabs', r, page) == Lookup(tabs, r, page)
  }

  lemma ExtendsSelf(tabs: Tables, loc: Locs)
    ensures Extends(tabs, loc, tabs, loc)
  {
  }

  lemma ExtendsTrans(tabs: Tables, loc: Locs, tabs1: Tables, loc1: Locs, tabs2: Tables, loc2: Locs)
    requires Extends(tabs, loc, tabs1, loc1) && Extends(tabs1, loc1, tabs2, loc2)
    ensures Extends(tabs, loc, tabs2, loc2)
  {
    forall r, page: seq<nat> | IsRoot(loc, r) && |page| == 4 && IsPath(page)
      ensures Lookup(tabs2, r, page) == Lookup(tabs, r, page)
    {
      assert IsRoot(loc1, r);
      assert Lookup(tabs1, r, page) == Lookup(tabs, r, page);
    }
  }

  lemma GrowExtends(tabs: Tables, loc: Locs, t: nat, x: nat, c: nat)
    requires CanGrow(tabs, loc, t, x, c)
    ensures Extends(tabs, loc, Grow(tabs, t, x, c), GrowLoc(loc, t, x, c))
  {
    forall r, page: seq<nat> | IsRoot(loc, r) && |page| == 4 && IsPath(page)
      ensures Lookup(Grow(tabs, t, x, c), r, page) == Lookup(tabs, r, page)
    {
      GrowLookup(tabs, loc, t, x, c, r, page);
    }
  }

  /** The only frames taken are those of new tables, and no leaf entry changed. */
  ghost predicate Grown(tabs: Tables, loc: Locs, free: set<int>, tabs': Tables, loc': Locs, free': set<int>) {
    && free' <= free
    && (forall t :: t in loc' && t !in loc ==> t in free && t !in free')
    && (forall t: nat :: t in free && t !in free' ==> t in loc')
    && (forall t, l, f: nat :: IsLeaf(tabs', loc', t, l, f) <==> IsLeaf(tabs, loc, t, l, f))
  }

  /** Old tables keep their place, and exactly the frames that are no longer free are new tables of space `root`. */
  ghost predicate TablesAdded(loc: Locs, free: set<int>, loc': Locs, free': set<int>, root: nat) {
    && free' <= free
    && (forall t :: t in loc ==> t in loc' && loc'[t] == loc[t])
    && (forall t :: t in loc' && t !in loc ==> t in free && t !in free' && loc'[t].root == root)
    && (forall t: nat :: t in free && t !in free' ==> t in loc')
  }

  /** Entry `l` of the leaf table `t` maps frame `f`. */
  ghost predicate IsLeaf(tabs: Tables, loc: Locs, t: nat, l: nat, f: nat) {
    t in loc && |loc[t].path| == 3 && Points(tabs, t, l, f)
  }

  // ---------- who owns which frame ----------

  /**
   Every frame has at most one role: free, a table of one space, or mapped by one page of one space.
   What is left is held by a caller.
   */
  ghost predicate Owned(tabs: Tables, loc: Locs, free: set<int>, total: nat) {
    && (forall t, l, f: nat :: IsLeaf(tabs, loc, t, l, f) ==> f !in loc && f !in free && 0 < f < total && Seen(f))
    && (forall t, l, t', l', f: nat :: IsLeaf(tabs, loc, t, l, f) && IsLeaf(tabs, loc, t', l', f) ==>
          t == t' && l == l')
  }

  /** Frame `f`, from the allocator, is in the hands of a caller: taken, but neither a table nor mapped. */
  ghost predicate Held(tabs: Tables, loc: Locs, free: set<int>, total: nat, f: nat) {
    f !in loc && f !in free && 0 < f < total && Seen(f) && forall t, l :: !IsLeaf(tabs, loc, t, l, f)
  }

  lemma OwnedGrown(tabs: Tables, loc: Locs, free: set<int>, tabs': Tables, loc': Locs, free': set<int>, total: nat)
    requires Grown(tabs, loc, free, tabs', loc', free') && Extends(tabs, loc, tabs', loc')
    ensures Owned(tabs, loc, free, total) ==> Owned(tabs', loc', free', total)
    ensures forall f: nat :: Held(tabs', loc', free', total, f) <==> Held(tabs, loc, free, total, f)
  {
  }

  /** Page `page` of space `root` is mapped to frame `f`. */
  ghost predicate MapsTo(tabs: Tables, root: nat, page: seq<nat>, f: nat)
    requires |page| == 4
  {
    Lookup(tabs, root, page).Some? && Lookup(tabs, root, page).value.frame == f
  }

  /** A frame handed out by the allocator is held by the caller, and every other frame keeps its role. */
  lemma OwnedAlloc(tabs: Tables, loc: Locs, free: set<int>, total: nat, f: nat)
    requires Owned(tabs, loc, free, total) && TablesTaken(loc, free, total) && f in free && f < total
    ensures Owned(tabs, loc, free - {f}, total)
    ensures forall g: nat :: Held(tabs, loc, free - {f}, total, g) <==> Held(tabs, loc, free, total, g) || g == f
  {
  }

  /** A held frame given back to the allocator is free, and every other frame keeps its role. */
  lemma OwnedFree(tabs: Tables, loc: Locs, free: set<int>, total: nat, f: nat)
    requires Owned(tabs, loc, free, total) && Held(tabs, loc, free, total, f)
    ensures Owned(tabs, loc, free + {f}, total)
    ensures forall g: nat :: Held(tabs, loc, free + {f}, total, g) <==> Held(tabs, loc, free, total, g) && g != f
  {
  }

  lemma OwnedWrite(tabs: Tables, loc: Locs, free: set<int>, total: nat, t: nat, l: nat, e: Entry)
    requires t in loc && t in tabs && l < |tabs[t]| && |loc[t].path| == 3
    ensures Owned(tabs, loc, free, total) && (e.present ==> Held(tabs, loc, free, total, e.frame)) ==>
      Owned(WithEntry(tabs, t, l, e), loc, free, total)
  {
    var r := WithEntry(tabs, t, l, e);
    forall u, x, f: nat | IsLeaf(r, loc, u, x, f)
      ensures (u == t && x == l && f == e.frame && e.present) || IsLeaf(tabs, loc, u, x, f)
    {
    }
  }

  /** Other held frames stay held, and with one role per frame the one that was mapped here becomes held. */
  lemma HeldWrite(tabs: Tables, loc: Locs, free: set<int>, total: nat, t: nat, l: nat, e: Entry)
    requires t in loc && t in tabs && l < |tabs[t]| && |loc[t].path| == 3
    ensures forall g: nat :: Held(tabs, loc, free, total, g) && !(e.present && g == e.frame) ==>
      Held(WithEntry(tabs, t, l, e), loc, free, total, g)
    ensures Owned(tabs, loc, free, total) && (e.present ==> Held(tabs, loc, free, total, e.frame)) ==>
      forall g: nat :: Held(WithEntry(tabs, t, l, e), loc, free, total, g) <==>
        (Held(tabs, loc, free, total, g) && !(e.present && g == e.frame)) || Points(tabs, t, l, g)
  {
    var r := WithEntry(tabs, t, l, e);
    forall u, x, f: nat
      ensures IsLeaf(r, loc, u, x, f) <==>
        if u == t && x == l then e.present && f == e.frame else IsLeaf(tabs, loc, u, x, f)
    {
    }
    if Owned(tabs, loc, free, total) && (e.present ==> Held(tabs, loc, free, total, e.frame)) {
      forall g: nat
        ensures Held(r, loc, free, total, g) <==>
          (Held(tabs, loc, free, total, g) && !(e.present && g == e.frame)) || Points(tabs, t, l, g)
      {
        HeldWriteOne(tabs, loc, free, total, t, l, e, g);
      }
    }
  }

  lemma HeldWriteOne(tabs: Tables, loc: Locs, free: set<int>, total: nat, t: nat, l: nat, e: Entry, g: nat)
    requires t in loc && t in tabs && l < |tabs[t]| && |loc[t].path| == 3 && Owned(tabs, loc, free, total)
    requires e.present ==> Held(tabs, loc, free, total, e.frame)
    ensures Held(WithEntry(tabs, t, l, e), loc, free, total, g) <==>
      (Held(tabs, loc, free, total, g) && !(e.present && g == e.frame)) || Points(tabs, t, l, g)
  {
    var r := WithEntry(tabs, t, l, e);
    forall u, x
      ensures IsLeaf(r, loc, u, x, g) <==>
        if u == t && x == l then e.present && g == e.frame else IsLeaf(tabs, loc, u, x, g)
    {
    }
    assert IsLeaf(tabs, loc, t, l, g) <==> Points(tabs, t, l, g);
    assert IsLeaf(r, loc, t, l, g) <==> e.present && g == e.frame;
  }

  lemma OwnedNewRoot(tabs: Tables, loc: Locs, free: set<int>, total: nat, root: nat, entries: seq<Entry>)
    requires root !in loc && root in free
    ensures Owned(tabs, loc, free, total) ==>
      Owned(tabs[root := entries], loc[root := Loc(root, [])], free - {root}, total)
    ensures forall g: nat :: Held(tabs[root := entries], loc[root := Loc(root, [])], free - {root}, total, g) <==>
      Held(tabs, loc, free, total, g)
  {
    var r, l := tabs[root := entries], loc[root := Loc(root, [])];
    forall u, x, f: nat ensures IsLeaf(r, l, u, x, f) <==> IsLeaf(tabs, loc, u, x, f) {
    }
  }

  // ---------- leaf entries and translations ----------

  /** A leaf entry is the translation of the page at its place. */
  lemma LeafLookup(tabs: Tables, loc: Locs, t: nat, l: nat, f: nat)
    requires Forest(tabs, loc) && t in loc && |loc[t].path| == 3 && l < ENTRIES
    ensures IsRoot(loc, loc[t].root) && IsPath(loc[t].path + [l])
    ensures IsLeaf(tabs, loc, t, l, f) <==> MapsTo(tabs, loc[t].root, loc[t].path + [l], f)
  {
    assert NodeAt(tabs, loc, t);
    var a := Ancestor(tabs, loc, t, 0);
    assert NodeAt(tabs, loc, a);
    var page := loc[t].path + [l];
    assert page[..3] == loc[t].path && page[3] == l;
    LookupAt(tabs, loc, loc[t].root, page, t);
  }

  /** Memory contents that translate alike map the same frames in the same entries. */
  lemma SameLeafEntries(tabs: Tables, tabs': Tables, loc: Locs)
    requires Forest(tabs, loc) && Forest(tabs', loc) && SameTranslations(tabs, loc, tabs')
    ensures forall t, l, f: nat :: IsLeaf(tabs', loc, t, l, f) <==> IsLeaf(tabs, loc, t, l, f)
  {
    forall t, l: nat, f: nat ensures IsLeaf(tabs', loc, t, l, f) <==> IsLeaf(tabs, loc, t, l, f) {
      assert NodeAt(tabs, loc, t) && NodeAt(tabs', loc, t);
      if t in loc && |loc[t].path| == 3 && l < ENTRIES {
        LeafLookup(tabs, loc, t, l, f);
        LeafLookup(tabs', loc, t, l, f);
      }
    }
  }

  /** No page other than `page` of space `root` is mapped to `f`. */
  ghost predicate NowhereElse(tabs: Tables, loc: Locs, root: nat, page: seq<nat>, f: nat) {
    forall r, q: seq<nat> :: IsRoot(loc, r) && |q| == 4 && IsPath(q) && (r != root || q != page) ==>
      !MapsTo(tabs, r, q, f)
  }

  /** Freeing the frame of a page just unmapped takes no frame from another page exactly if none was mapped to it. */
  lemma BackedFreed(tabs: Tables, tabs': Tables, loc: Locs, free: set<int>, root: nat, page: seq<nat>, f: nat)
    requires Forest(tabs', loc) && Backed(tabs', loc, free) && IsRoot(loc, root) && |page| == 4 && IsPath(page)
    requires Mapped(tabs, loc, tabs', root, page, None)
    ensures Backed(tabs', loc, free + {f}) <==> NowhereElse(tabs, loc, root, page, f)
  {
    if NowhereElse(tabs, loc, root, page, f) {
      forall t, l, g: nat | IsLeaf(tabs', loc, t, l, g) ensures g != f {
        assert NodeAt(tabs', loc, t);
        LeafLookup(tabs', loc, t, l, g);
        assert MapsTo(tabs', loc[t].root, loc[t].path + [l], g);
      }
    } else {
      var r, q: seq<nat> :|
        IsRoot(loc, r) && |q| == 4 && IsPath(q) && (r != root || q != page) && MapsTo(tabs, r, q, f);
      assert MapsTo(tabs', r, q, f);
      var t := LookupLeaf(tabs', loc, r, q, f);
      assert IsLeaf(tabs', loc, t, q[3], f);
    }
  }

  /** The frame `vm_free_pages` frees for a page with this translation. */
  ghost function Releases(e: Option<Entry>, total: nat): (r: set<int>)
    ensures r == {} || (e.Some? && r == {e.value.frame})
  {
    if e.Some? && 0 < e.value.frame < total && Seen(e.value.frame) then {e.value.frame} else {}
  }

  lemma ReleasedBacked(tabs: Tables, tabs': Tables, loc: Locs, free: set<int>, total: nat, root: nat, page: seq<nat>)
    requires Forest(tabs', loc) && Backed(tabs', loc, free) && IsRoot(loc, root) && |page| == 4 && IsPath(page)
    requires Mapped(tabs, loc, tabs', root, page, None)
    ensures Backed(tabs', loc, free + Releases(Lookup(tabs, root, page), total)) <==>
      forall f: nat :: f in Releases(Lookup(tabs, root, page), total) ==> NowhereElse(tabs, loc, root, page, f)
  {
    var r := Releases(Lookup(tabs, root, page), total);
    if r == {} {
      assert free + r == free;
    } else {
      BackedFreed(tabs, tabs', loc, free, root, page, Lookup(tabs, root, page).value.frame);
    }
  }

  /** With one role per frame the frame of the page was held in between. */
  lemma ReleasedOwned(tabs: Tables, tabs': Tables, loc: Locs, free: set<int>, total: nat, root: nat, page: seq<nat>)
    requires |page| == 4 && Owned(tabs', loc, free, total)
    requires forall g: nat :: Held(tabs', loc, free, total, g) <==>
      Held(tabs, loc, free, total, g) || MapsTo(tabs, root, page, g)
    requires forall g: nat :: MapsTo(tabs, root, page, g) ==> !Held(tabs, loc, free, total, g)
    ensures var free' := free + Releases(Lookup(tabs, root, page), total);
      && Owned(tabs', loc, free', total)
      && forall g: nat :: Held(tabs', loc, free', total, g) <==> Held(tabs, loc, free, total, g)
  {
    if Lookup(tabs, root, page).Some? {
      var f := Lookup(tabs, root, page).value.frame;
      assert MapsTo(tabs, root, page, f);
      OwnedFree(tabs', loc, free, total, f);
    } else {
      assert free + Releases(None, total) == free;
    }
  }

  lemma LookupLeaf(tabs: Tables, loc: Locs, r: nat, page: seq<nat>, f: nat) returns (t: nat)
    requires Forest(tabs, loc) && IsRoot(loc, r) && |page| == 4 && IsPath(page) && MapsTo(tabs, r, page, f)
    ensures IsLeaf(tabs, loc, t, page[3], f) && loc[t] == Loc(r, page[..3])
  {
    if forall t :: t in loc ==> loc[t] != Loc(r, page[..3]) {
      LookupNowhere(tabs, loc, r, page);
    }
    t :| t in loc && loc[t] == Loc(r, page[..3]);
    LookupAt(tabs, loc, r, page, t);
  }

  // ---------- everything below a table ----------

  /** `q` leads through `path` and then on by an index below `x`. */
  ghost predicate Through(path: seq<nat>, x: nat, q: seq<nat>) {
    path <= q && |path| < |q| && q[|path|] < x
  }

  lemma ThroughStep(path: seq<nat>, x: nat, q: seq<nat>)
    ensures Through(path, x + 1, q) <==> Through(path, x, q) || path + [x] <= q
  {
    if path <= q && |path| < |q| && q[|path|] == x {
      assert q[..|path|] == path;
      assert q[..|path| + 1] == path + [x];
    }
    if path + [x] <= q {
      assert (path + [x])[|path|] == q[|path|];
      assert path == (path + [x])[..|path|] == q[..|path|];
    }
  }

  /** Table `f` of space `r` lies at or below `path`. */
  ghost predicate SubTable(loc: Locs, f: nat, r: nat, path: seq<nat>) {
    f in loc && loc[f].root == r && path <= loc[f].path
  }

  /** The entries of leaf tables of space `r`, below `path`, that map frame `f`. */
  ghost function SubSlots(tabs: Tables, loc: Locs, f: nat, r: nat, path: seq<nat>): set<(nat, nat)> {
    set u: nat, l: nat |
      u in loc && l < ENTRIES && IsLeaf(tabs, loc, u, l, f) && loc[u].root == r && path <= loc[u].path + [l] :: (u, l)
  }

  /** The same, through an entry with an index below `x`. */
  ghost predicate PartTable(loc: Locs, f: nat, r: nat, path: seq<nat>, x: nat) {
    f in loc && loc[f].root == r && Through(path, x, loc[f].path)
  }

  ghost function PartSlots(tabs: Tables, loc: Locs, f: nat, r: nat, path: seq<nat>, x: nat): set<(nat, nat)> {
    set u: nat, l: nat |
      && u in loc && l < ENTRIES && IsLeaf(tabs, loc, u, l, f) && loc[u].root == r
      && Through(path, x, loc[u].path + [l]) :: (u, l)
  }

  lemma PartStep(tabs: Tables, loc: Locs, f: nat, r: nat, path: seq<nat>, x: nat)
    ensures PartTable(loc, f, r, path, x + 1) <==> PartTable(loc, f, r, path, x) || SubTable(loc, f, r, path + [x])
    ensures PartSlots(tabs, loc, f, r, path, x + 1) ==
      PartSlots(tabs, loc, f, r, path, x) + SubSlots(tabs, loc, f, r, path + [x])
    ensures PartSlots(tabs, loc, f, r, path, x) !! SubSlots(tabs, loc, f, r, path + [x])
  {
    if f in loc {
      ThroughStep(path, x, loc[f].path);
    }
    forall u, l | IsLeaf(tabs, loc, u, l, f)
      ensures Through(path, x + 1, loc[u].path + [l]) <==>
        Through(path, x, loc[u].path + [l]) || path + [x] <= loc[u].path + [l]
      ensures !(Through(path, x, loc[u].path + [l]) && path + [x] <= loc[u].path + [l])
    {
      ThroughStep(path, x, loc[u].path + [l]);
      ThroughOnce(path, x, loc[u].path + [l]);
    }
  }

  lemma ThroughOnce(path: seq<nat>, x: nat, q: seq<nat>)
    ensures !(Through(path, x, q) && path + [x] <= q)
  {
    if path + [x] <= q {
      assert (path + [x])[|path|] == q[|path|];
    }
  }

  lemma PartNone(tabs: Tables, loc: Locs, f: nat, r: nat, path: seq<nat>)
    ensures !PartTable(loc, f, r, path, 0) && PartSlots(tabs, loc, f, r, path, 0) == {}
  {
  }

  /** Below an absent directory entry there is neither a table nor a mapped frame. */
  lemma NothingBelow(tabs: Tables, loc: Locs, t: nat, x: nat, f: nat)
    requires Forest(tabs, loc) && t in loc && |loc[t].path| < 3 && t in tabs && x < |tabs[t]| && !tabs[t][x].present
    ensures !SubTable(loc, f, loc[t].root, loc[t].path + [x])
    ensures SubSlots(tabs, loc, f, loc[t].root, loc[t].path + [x]) == {}
  {
    var path := loc[t].path + [x];
    AbsentIsEmpty(tabs, loc, t, x);
    forall u | u in loc && loc[u].root == loc[t].root ensures !(path <= loc[u].path) {
      if path <= loc[u].path {
        assert NodeAt(tabs, loc, u);
        var a := Ancestor(tabs, loc, u, |path|);
      }
    }
    forall u, l | IsLeaf(tabs, loc, u, l, f) && loc[u].root == loc[t].root ensures !(path <= loc[u].path + [l]) {
    }
  }

  /** Below a table's own path lie the table itself and what its entries lead to. */
  lemma PartWhole(tabs: Tables, loc: Locs, t: nat, f: nat, limit: nat)
    requires Forest(tabs, loc) && t in loc && limit == (if loc[t].path == [] then USER_HALF else ENTRIES)
    ensures SubTable(loc, f, loc[t].root, loc[t].path) <==> f == t || PartTable(loc, f, loc[t].root, loc[t].path, limit)
    ensures SubSlots(tabs, loc, f, loc[t].root, loc[t].path) == PartSlots(tabs, loc, f, loc[t].root, loc[t].path, limit)
  {
    var path := loc[t].path;
    assert NodeAt(tabs, loc, t);
    if f in loc && path <= loc[f].path {
      assert NodeAt(tabs, loc, f);
      if |loc[f].path| == |path| {
        assert loc[f].path == path;
      }
    }
    forall u, l | IsLeaf(tabs, loc, u, l, f) && path <= loc[u].path + [l]
      ensures Through(path, limit, loc[u].path + [l])
    {
      assert NodeAt(tabs, loc, u);
    }
  }

  /** At a leaf table, what lies below entry `x` is the frame it maps. */
  lemma LeafBelow(tabs: Tables, loc: Locs, t: nat, x: nat, f: nat)
    requires Forest(tabs, loc) && t in loc && |loc[t].path| == 3 && x < ENTRIES
    ensures !SubTable(loc, f, loc[t].root, loc[t].path + [x])
    ensures SubSlots(tabs, loc, f, loc[t].root, loc[t].path + [x]) == if Points(tabs, t, x, f) then {(t, x)} else {}
  {
    var path := loc[t].path + [x];
    if f in loc {
      assert NodeAt(tabs, loc, f);
    }
    forall u, l | IsLeaf(tabs, loc, u, l, f) && loc[u].root == loc[t].root && path <= loc[u].path + [l]
      ensures u == t && l == x
    {
      assert path == loc[u].path + [l];
      assert path[..3] == loc[t].path && (loc[u].path + [l])[..3] == loc[u].path;
      assert path[3] == x && (loc[u].path + [l])[3] == l;
    }
    if Points(tabs, t, x, f) {
      assert IsLeaf(tabs, loc, t, x, f);
    }
  }

  // ---------- tearing down ----------

  /** What `vm_destroy_space` leaves of a count after meeting the frame in `n` entries. */
  function Dropped(c: int, n: nat): int {
    if c > n then c - n else 0
  }

  /** Meeting a frame in `n` entries frees it: it is met at all, and some time its count is 0 or reaches 0. */
  predicate Frees(c: int, n: nat) {
    n > 0 && c <= n
  }

  /**
   The effect on frame `f` of giving back some tables, `table` telling whether it is one, and of `n` entries
   that map it.
   */
  ghost predicate BackAt(free: set<int>, c: seq<Count>, free': set<int>, c': seq<Count>, f: nat, table: bool, n: nat) {
    && (f in free' <==> f in free || table || (f < |c| && Seen(f) && Frees(c[f], n)))
    && (f < |c| && |c'| == |c| ==> c'[f] == Dropped(c[f], n))
  }

  /** The frames given back and the counts dropped while tearing down space `r` below `path`, up to entry `x`. */
  ghost predicate GivenBack(tabs: Tables, loc: Locs, free: set<int>, c: seq<Count>, free': set<int>, c': seq<Count>,
                            r: nat, path: seq<nat>, x: nat) {
    && |c'| == |c|
    && forall f: nat ::
         BackAt(free, c, free', c', f, PartTable(loc, f, r, path, x), |PartSlots(tabs, loc, f, r, path, x)|)
  }

  ghost predicate AllGivenBack(tabs: Tables, loc: Locs, free: set<int>, c: seq<Count>, free': set<int>, c': seq<Count>,
                               r: nat, path: seq<nat>) {
    && |c'| == |c|
    && forall f: nat :: BackAt(free, c, free', c', f, SubTable(loc, f, r, path), |SubSlots(tabs, loc, f, r, path)|)
  }

  /** Two teardowns in a row meet a frame in the entries of both. */
  lemma BackTwice(free: set<int>, c: seq<Count>, free1: set<int>, c1: seq<Count>, free2: set<int>, c2: seq<Count>,
                  f: nat,
                  table1: bool, n1: nat, table2: bool, n2: nat)
    requires |c1| == |c| && |c2| == |c| && BackAt(free, c, free1, c1, f, table1, n1)
    requires BackAt(free1, c1, free2, c2, f, table2, n2)
    ensures BackAt(free, c, free2, c2, f, table1 || table2, n1 + n2)
  {
  }

  /** Adding what lies below entry `x`. */
  lemma GivenBackStep(tabs: Tables, loc: Locs, free: set<int>, c: seq<Count>, free1: set<int>, c1: seq<Count>,
                      free2: set<int>, c2: seq<Count>, r: nat, path: seq<nat>, x: nat)
    requires GivenBack(tabs, loc, free, c, free1, c1, r, path, x)
    requires AllGivenBack(tabs, loc, free1, c1, free2, c2, r, path + [x])
    ensures GivenBack(tabs, loc, free, c, free2, c2, r, path, x + 1)
  {
    var y := x + 1;
    forall f: nat
      ensures BackAt(free, c, free2, c2, f, PartTable(loc, f, r, path, y), |PartSlots(tabs, loc, f, r, path, y)|)
    {
      PartStep(tabs, loc, f, r, path, x);
      var a, b := PartSlots(tabs, loc, f, r, path, x), SubSlots(tabs, loc, f, r, path + [x]);
      UnionSize(a, b, PartSlots(tabs, loc, f, r, path, x + 1));
      BackTwice(free, c, free1, c1, free2, c2, f, PartTable(loc, f, r, path, x), |a|, SubTable(loc, f, r, path + [x]),
                |b|);
    }
  }

  /** Giving back the table itself completes it. */
  lemma GivenBackWhole(tabs: Tables, loc: Locs, free: set<int>, c: seq<Count>, free': set<int>, c': seq<Count>, t: nat,
                       limit: nat)
    requires Forest(tabs, loc) && t in loc && limit == (if loc[t].path == [] then USER_HALF else ENTRIES)
    requires GivenBack(tabs, loc, free, c, free', c', loc[t].root, loc[t].path, limit)
    ensures AllGivenBack(tabs, loc, free, c, free' + {t}, c', loc[t].root, loc[t].path)
  {
    var r, path := loc[t].root, loc[t].path;
    forall f: nat
      ensures BackAt(free, c, free' + {t}, c', f, SubTable(loc, f, r, path), |SubSlots(tabs, loc, f, r, path)|)
    {
      PartWhole(tabs, loc, t, f, limit);
      assert BackAt(free, c, free', c', f, PartTable(loc, f, r, path, limit),
                    |PartSlots(tabs, loc, f, r, path, limit)|);
    }
  }

  lemma NothingGivenBack(tabs: Tables, loc: Locs, free: set<int>, c: seq<Count>, t: nat, x: nat)
    requires Forest(tabs, loc) && t in loc && t in tabs && x < |tabs[t]| && !tabs[t][x].present && |loc[t].path| <= 3
    ensures AllGivenBack(tabs, loc, free, c, free, c, loc[t].root, loc[t].path + [x])
  {
    assert NodeAt(tabs, loc, t);
    var r, path := loc[t].root, loc[t].path + [x];
    forall f: nat ensures BackAt(free, c, free, c, f, SubTable(loc, f, r, path), |SubSlots(tabs, loc, f, r, path)|) {
      if |loc[t].path| < 3 {
        NothingBelow(tabs, loc, t, x, f);
      } else {
        LeafBelow(tabs, loc, t, x, f);
      }
    }
  }

  /** One mapped page: its count drops by one, and its frame is freed if that leaves none. */
  lemma LeafGivenBack(tabs: Tables, loc: Locs, free: set<int>, c: seq<Count>, free': set<int>, c': seq<Count>, t: nat,
                      x: nat, f: nat)
    requires Forest(tabs, loc) && t in loc && |loc[t].path| == 3 && x < ENTRIES && Points(tabs, t, x, f)
    requires c' == if f < |c| then c[f := Dec(c[f])] else c
    requires free' == if f < |c| && Dec(c[f]) == 0 && Seen(f) then free + {f} else free
    ensures AllGivenBack(tabs, loc, free, c, free', c', loc[t].root, loc[t].path + [x])
  {
    var r, path := loc[t].root, loc[t].path + [x];
    forall g: nat ensures BackAt(free, c, free', c', g, SubTable(loc, g, r, path), |SubSlots(tabs, loc, g, r, path)|) {
      LeafBelow(tabs, loc, t, x, g);
    }
  }

  lemma NoneGivenBack(tabs: Tables, loc: Locs, free: set<int>, c: seq<Count>, r: nat, path: seq<nat>)
    ensures GivenBack(tabs, loc, free, c, free, c, r, path, 0)
  {
    forall f: nat
      ensures BackAt(free, c, free, c, f, PartTable(loc, f, r, path, 0), |PartSlots(tabs, loc, f, r, path, 0)|)
    {
      PartNone(tabs, loc, f, r, path);
    }
  }

  // ---------- removing a space ----------

  /** Mapped frames are not tables and not frame 0. */
  ghost predicate LeavesApart(tabs: Tables, loc: Locs) {
    forall t, l, f: nat :: IsLeaf(tabs, loc, t, l, f) ==> f !in loc && f != 0
  }

  /** Mapped frames are taken, and neither tables nor frame 0. */
  ghost predicate Backed(tabs: Tables, loc: Locs, free: set<int>) {
    forall t, l, f: nat :: IsLeaf(tabs, loc, t, l, f) ==> f !in loc && f != 0 && f !in free
  }

  ghost function KeptLoc(loc: Locs, root: nat): Locs {
    map t | t in loc && loc[t].root != root :: loc[t]
  }

  lemma RemoveSpace(tabs: Tables, loc: Locs, root: nat)
    requires Forest(tabs, loc)
    ensures Forest(tabs, KeptLoc(loc, root))
  {
    var l := KeptLoc(loc, root);
    forall u ensures NodeAt(tabs, l, u) {
      assert NodeAt(tabs, loc, u);
    }
    forall u, x ensures ChildAt(tabs, l, u, x) {
      assert ChildAt(tabs, loc, u, x);
    }
    forall u ensures ParentAt(tabs, l, u) {
      assert ParentAt(tabs, loc, u);
    }
  }

  /** Destroying space `root` frees frame `f`, which it maps in some entries. */
  ghost predicate Lost(tabs: Tables, loc: Locs, c: seq<Count>, root: nat, f: nat) {
    f < |c| && Seen(f) && Frees(c[f], |SubSlots(tabs, loc, f, root, [])|)
  }

  lemma RemoveSpaceTaken(tabs: Tables, loc: Locs, free: set<int>, c: seq<Count>, free': set<int>, c': seq<Count>,
                         root: nat)
    requires TablesTaken(loc, free, |c|) && LeavesApart(tabs, loc) && (forall f :: f in free' ==> f >= 0)
    requires AllGivenBack(tabs, loc, free, c, free', c', root, [])
    ensures TablesTaken(KeptLoc(loc, root), free', |c|)
  {
    forall f: nat | |SubSlots(tabs, loc, f, root, [])| > 0 ensures f !in loc && f != 0 {
      MappedSomewhere(tabs, loc, f, root);
    }
    forall f: int | f in free' ensures f != 0 && Seen(f) && f !in KeptLoc(loc, root) {
      assert BackAt(free, c, free', c', f, SubTable(loc, f, root, []), |SubSlots(tabs, loc, f, root, [])|);
    }
  }

  lemma MappedSomewhere(tabs: Tables, loc: Locs, f: nat, root: nat)
    requires |SubSlots(tabs, loc, f, root, [])| > 0
    ensures exists u, l :: IsLeaf(tabs, loc, u, l, f) && loc[u].root == root
  {
    var s := SubSlots(tabs, loc, f, root, []);
    assert s != {};
    var p :| p in s;
    assert IsLeaf(tabs, loc, p.0, p.1, f) && loc[p.0].root == root;
  }

  /**
   After a space is destroyed, every page of the others still has its frame exactly if the counts of the
   frames it shared with them exceeded the number of its own entries for them.
   */
  lemma RemoveSpaceBacked(tabs: Tables, loc: Locs, free: set<int>, c: seq<Count>, free': set<int>, c': seq<Count>,
                          root: nat)
    requires Backed(tabs, loc, free) && AllGivenBack(tabs, loc, free, c, free', c', root, [])
    ensures Backed(tabs, KeptLoc(loc, root), free') <==>
      forall t, l, f: nat :: IsLeaf(tabs, loc, t, l, f) && loc[t].root != root ==> !Lost(tabs, loc, c, root, f)
  {
    var k := KeptLoc(loc, root);
    forall t, l, f: nat | IsLeaf(tabs, loc, t, l, f) ensures f in free' <==> Lost(tabs, loc, c, root, f) {
      assert BackAt(free, c, free', c', f, SubTable(loc, f, root, []), |SubSlots(tabs, loc, f, root, [])|);
    }
    forall t, l, f: nat ensures IsLeaf(tabs, k, t, l, f) <==> IsLeaf(tabs, loc, t, l, f) && loc[t].root != root {
    }
  }

  /** With one role per frame and no counts, exactly the tables and mapped frames of the space are freed. */
  lemma RemoveSpaceOwned(tabs: Tables, loc: Locs, free: set<int>, c: seq<Count>, free': set<int>, c': seq<Count>,
                         root: nat)
    requires Forest(tabs, loc) && Owned(tabs, loc, free, |c|) && AllGivenBack(tabs, loc, free, c, free', c', root, [])
    requires forall p :: 0 <= p < |c| ==> c[p] == 0
    ensures forall p :: 0 <= p < |c'| ==> c'[p] == 0
    ensures forall f: nat :: f in free' <==>
      f in free || SubTable(loc, f, root, []) || |SubSlots(tabs, loc, f, root, [])| > 0
    ensures Owned(tabs, KeptLoc(loc, root), free', |c|)
  {
    forall f: nat | f < |c| ensures c'[f] == 0 {
      assert BackAt(free, c, free', c', f, SubTable(loc, f, root, []), |SubSlots(tabs, loc, f, root, [])|);
    }
    forall f: nat
      ensures f in free' <==> f in free || SubTable(loc, f, root, []) || |SubSlots(tabs, loc, f, root, [])| > 0
    {
      assert BackAt(free, c, free', c', f, SubTable(loc, f, root, []), |SubSlots(tabs, loc, f, root, [])|);
      if |SubSlots(tabs, loc, f, root, [])| > 0 {
        MappedSomewhere(tabs, loc, f, root);
      }
    }
    var k := KeptLoc(loc, root);
    forall t, l, f: nat | IsLeaf(tabs, k, t, l, f) ensures IsLeaf(tabs, loc, t, l, f) && f !in free' {
      assert IsLeaf(tabs, loc, t, l, f);
      if |SubSlots(tabs, loc, f, root, [])| > 0 {
        MappedSomewhere(tabs, loc, f, root);
      }
    }
  }

  /** And a frame is held exactly if it was. */
  lemma RemoveSpaceHeld(tabs: Tables, loc: Locs, free: set<int>, free': set<int>, total: nat, root: nat, g: nat)
    requires Forest(tabs, loc) && Owned(tabs, loc, free, total) && (forall t :: t in loc ==> t !in free)
    requires g in free' <==> g in free || SubTable(loc, g, root, []) || |SubSlots(tabs, loc, g, root, [])| > 0
    ensures Held(tabs, KeptLoc(loc, root), free', total, g) <==> Held(tabs, loc, free, total, g)
  {
    var k := KeptLoc(loc, root);
    forall t, l ensures IsLeaf(tabs, k, t, l, g) <==> IsLeaf(tabs, loc, t, l, g) && loc[t].root != root {
    }
    if |SubSlots(tabs, loc, g, root, [])| > 0 {
      MappedSomewhere(tabs, loc, g, root);
    } else {
      forall t, l: nat | IsLeaf(tabs, loc, t, l, g) ensures loc[t].root != root {
        assert NodeAt(tabs, loc, t);
        assert loc[t].root == root ==> (t, l) in SubSlots(tabs, loc, g, root, []);
      }
    }
  }

  /** Every frame the allocator can hand out is free, a table, mapped or held, and no two of these. */
  lemma OneRole(tabs: Tables, loc: Locs, free: set<int>, total: nat, f: nat)
    requires Owned(tabs, loc, free, total) && TablesTaken(loc, free, total) && 0 < f < total && Seen(f)
    ensures var mapped := exists t, l :: IsLeaf(tabs, loc, t, l, f);
      Roles(f in free, f in loc, mapped, Held(tabs, loc, free, total, f)) == 1
  {
  }

  function Roles(free: bool, table: bool, mapped: bool, held: bool): nat {
    (if free then 1 else 0) + (if table then 1 else 0) + (if mapped then 1 else 0) + (if held then 1 else 0)
  }

  // ---------- mapped frames stay taken ----------

  lemma BackedGrown(tabs: Tables, loc: Locs, free: set<int>, tabs': Tables, loc': Locs, free': set<int>)
    requires Grown(tabs, loc, free, tabs', loc', free') && Backed(tabs, loc, free)
    ensures Backed(tabs', loc', free')
  {
    forall t, l, f: nat | IsLeaf(tabs', loc', t, l, f) ensures f !in loc' && f != 0 && f !in free' {
      assert IsLeaf(tabs, loc, t, l, f);
    }
  }

  lemma BackedWrite(tabs: Tables, loc: Locs, free: set<int>, t: nat, l: nat, e: Entry)
    requires Backed(tabs, loc, free) && t in loc && t in tabs && l < |tabs[t]|
    requires e.present ==> e.frame !in loc && e.frame != 0 && e.frame !in free
    ensures Backed(WithEntry(tabs, t, l, e), loc, free)
  {
    var r := WithEntry(tabs, t, l, e);
    forall u, x, f: nat | IsLeaf(r, loc, u, x, f) ensures f !in loc && f != 0 && f !in free {
      assert (u == t && x == l && f == e.frame && e.present) || IsLeaf(tabs, loc, u, x, f);
    }
  }

  lemma BackedNewRoot(tabs: Tables, loc: Locs, free: set<int>, root: nat, entries: seq<Entry>)
    requires Backed(tabs, loc, free) && root !in loc && root in free
    ensures Backed(tabs[root := entries], loc[root := Loc(root, [])], free - {root})
  {
    var r, k := tabs[root := entries], loc[root := Loc(root, [])];
    forall u, x, f: nat | IsLeaf(r, k, u, x, f) ensures IsLeaf(tabs, loc, u, x, f) {
    }
  }

  // ---------- copy on write ----------

  /** The page lost its copy-on-write mark and is writable; nothing else changed. */
  ghost predicate MadeWritable(tabs: Tables, loc: Locs, tabs': Tables, root: nat, page: seq<nat>, e: Entry) {
    Mapped(tabs, loc, tabs', root, page, Some(e.(cow := false, writable := true)))
  }

  /** The page moved from the frame of `e` to a free frame of its own with the same bytes; nothing else changed. */
  ghost predicate MadePrivate(tabs: Tables, loc: Locs, tabs': Tables, bytes: map<nat, seq<bv8>>,
                              bytes': map<nat, seq<bv8>>,
                              free: set<int>, free': set<int>, root: nat, page: seq<nat>, e: Entry) {
    exists f: nat ::
      && f in free && free' == free - {f} && f != e.frame
      && Mapped(tabs, loc, tabs', root, page, Some(Entry(f, true, true, true, false, 0)))
      && OneMapping(tabs', loc, f)
      && e.frame in bytes && bytes' == bytes[f := bytes[e.frame]]
  }

  /** No two pages, of the same or of different spaces, are mapped to frame `f`. */
  ghost predicate OneMapping(tabs: Tables, loc: Locs, f: nat) {
    forall t, l, t', l' :: IsLeaf(tabs, loc, t, l, f) && IsLeaf(tabs, loc, t', l', f) ==> t == t' && l == l'
  }

  /** A frame that was free is mapped by the entry just written and by no other. */
  lemma OnlyLeaf(tabs: Tables, loc: Locs, free: set<int>, t: nat, l: nat, e: Entry)
    requires t in loc && t in tabs && l < |tabs[t]| && |loc[t].path| == 3
    requires e.present && e.frame in free && e.frame !in loc && e.frame != 0 && Backed(tabs, loc, free)
    ensures OneMapping(WithEntry(tabs, t, l, e), loc, e.frame)
    ensures Backed(WithEntry(tabs, t, l, e), loc, free - {e.frame})
  {
    var r := WithEntry(tabs, t, l, e);
    forall u, x, f: nat | IsLeaf(r, loc, u, x, f)
      ensures (u == t && x == l && f == e.frame) || IsLeaf(tabs, loc, u, x, f)
    {
    }
  }

  /** A write that keeps the frame of an entry adds no mapping. */
  lemma SameLeaves(tabs: Tables, loc: Locs, t: nat, l: nat, e: Entry)
    requires t in tabs && l < |tabs[t]| && tabs[t][l].present && e.frame == tabs[t][l].frame
    ensures forall u, x, f: nat :: IsLeaf(WithEntry(tabs, t, l, e), loc, u, x, f) ==> IsLeaf(tabs, loc, u, x, f)
  {
  }
}
