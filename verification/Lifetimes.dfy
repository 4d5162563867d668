/**
 The life of an address space: created, given and taken pages in any order as `vm_alloc_pages` and
 `vm_free_pages` do, destroyed.  Afterwards the free frames are those before, except for the frames of pages
 that were given a second frame while they had one.
 */
module Lifetimes {
  import opened Basics
  import opened PageTables
  import opened Pmm
  import opened Sizes
  import opened Spaces
  import opened Vm

  datatype Step = Obtain(virt: nat, flags: Flags) | Release(virt: nat)

  /** The pages mapped after these steps in a new space. */
  function PagesAfter(steps: seq<Step>): set<seq<nat>> {
    if steps == [] then {}
    else
      var pages := PagesAfter(steps[..|steps| - 1]);
      match steps[|steps| - 1]
      case Obtain(v, _) => pages + {PageOf(v)}
      case Release(v) => pages - {PageOf(v)}
  }

  /** How many of the steps give a frame to a page that has one. */
  function Overwrites(steps: seq<Step>): nat {
    if steps == [] then 0
    else
      var s, before := steps[|steps| - 1], steps[..|steps| - 1];
      Overwrites(before) + if s.Obtain? && PageOf(s.virt) in PagesAfter(before) then 1 else 0
  }

  /**
   Space `root` came to others in `tabs0`, `loc0` and `free0` and went through the steps `done`; `lost` are the
   frames nobody will give back.
   */
  ghost predicate Ledger(tabs0: Tables, loc0: Locs, free0: set<int>, tabs: Tables, loc: Locs, free: set<int>,
                         total: nat, root: nat, done: seq<Step>, lost: set<nat>)
  {
    && IsRoot(loc, root) && root !in loc0
    && (forall t :: t in loc0 ==> t in loc && loc[t] == loc0[t])
    && (forall t :: t in loc && t !in loc0 ==> loc[t].root == root)
    && SameTranslations(tabs0, loc0, tabs)
    && (forall q: seq<nat> :: |q| == 4 && IsPath(q) ==> (Lookup(tabs, root, q).Some? <==> q in PagesAfter(done)))
    && (forall g: nat :: Held(tabs, loc, free, total, g) <==> Held(tabs0, loc0, free0, total, g) || g in lost)
    && (forall g :: g in lost ==> !Held(tabs0, loc0, free0, total, g))
    && |lost| == Overwrites(done)
  }

  lemma NewLedger(tabs0: Tables, loc0: Locs, free0: set<int>, tabs: Tables, loc: Locs, free: set<int>, total: nat,
                  root: nat)
    requires root !in loc0 && loc == loc0[root := Loc(root, [])] && SameTranslations(tabs0, loc0, tabs)
    requires forall q: seq<nat> :: |q| == 4 && IsPath(q) ==> Lookup(tabs, root, q) == None
    requires forall g: nat :: Held(tabs, loc, free, total, g) <==> Held(tabs0, loc0, free0, total, g)
    ensures Ledger(tabs0, loc0, free0, tabs, loc, free, total, root, [], {})
  {
  }

  /** The translations after one more step. */
  lemma StepPages(tabs0: Tables, loc0: Locs, free0: set<int>, tabs: Tables, loc: Locs, free: set<int>, total: nat,
                  root: nat, done: seq<Step>, lost: set<nat>, tabs': Tables, step: Step, e: Option<Entry>)
    requires Ledger(tabs0, loc0, free0, tabs, loc, free, total, root, done, lost)
    requires Mapped(tabs, loc, tabs', root, PageOf(step.virt), e) && (e.Some? <==> step.Obtain?)
    ensures SameTranslations(tabs0, loc0, tabs')
    ensures forall q: seq<nat> :: |q| == 4 && IsPath(q) ==>
      (Lookup(tabs', root, q).Some? <==> q in PagesAfter(done + [step]))
  {
    assert (done + [step])[..|done|] == done;
    forall r, q: seq<nat> | IsRoot(loc0, r) && |q| == 4 && IsPath(q)
      ensures Lookup(tabs', r, q) == Lookup(tabs0, r, q)
    {
      assert IsRoot(loc, r) && Lookup(tabs, r, q) == Lookup(tabs0, r, q);
    }
  }

  /** The frame of a page, which a new mapping of the page leaves without an owner. */
  ghost function FrameOf(e: Option<Entry>): set<nat> {
    if e.Some? then {e.value.frame} else {}
  }

  lemma ObtainLedger(tabs0: Tables, loc0: Locs, free0: set<int>, tabs: Tables, loc: Locs, free: set<int>, total: nat,
                     root: nat, done: seq<Step>, lost: set<nat>, tabs': Tables, loc': Locs, free': set<int>,
                     step: Step, f: nat, e: Entry)
    requires Ledger(tabs0, loc0, free0, tabs, loc, free, total, root, done, lost) && step.Obtain?
    requires Mapped(tabs, loc, tabs', root, PageOf(step.virt), Some(e)) && IsPath(PageOf(step.virt))
    requires SameRoots(loc, loc') && TablesAdded(loc, free - {f}, loc', free', root)
    requires forall g: nat :: MapsTo(tabs, root, PageOf(step.virt), g) ==> !Held(tabs, loc, free, total, g)
    requires forall g: nat :: Held(tabs', loc', free', total, g) <==>
      Held(tabs, loc, free, total, g) || MapsTo(tabs, root, PageOf(step.virt), g)
    ensures Ledger(tabs0, loc0, free0, tabs', loc', free', total, root, done + [step],
                   lost + FrameOf(Lookup(tabs, root, PageOf(step.virt))))
  {
    StepPages(tabs0, loc0, free0, tabs, loc, free, total, root, done, lost, tabs', step, Some(e));
    assert (done + [step])[..|done|] == done;
    var was := Lookup(tabs, root, PageOf(step.virt));
    if was.Some? {
      assert MapsTo(tabs, root, PageOf(step.virt), was.value.frame);
    }
  }

  lemma ReleaseLedger(tabs0: Tables, loc0: Locs, free0: set<int>, tabs: Tables, loc: Locs, free: set<int>, total: nat,
                      root: nat, done: seq<Step>, lost: set<nat>, tabs': Tables, free': set<int>, step: Step)
    requires Ledger(tabs0, loc0, free0, tabs, loc, free, total, root, done, lost) && step.Release?
    requires Mapped(tabs, loc, tabs', root, PageOf(step.virt), None)
    requires forall g: nat :: Held(tabs', loc, free', total, g) <==> Held(tabs, loc, free, total, g)
    ensures Ledger(tabs0, loc0, free0, tabs', loc, free', total, root, done + [step], lost)
  {
    StepPages(tabs0, loc0, free0, tabs, loc, free, total, root, done, lost, tabs', step, None);
    assert (done + [step])[..|done|] == done;
  }

  /** Without the space, the tables are those before it. */
  lemma KeptOthers(tabs0: Tables, loc0: Locs, loc: Locs, root: nat)
    requires Forest(tabs0, loc0) && root !in loc0
    requires forall t :: t in loc0 ==> t in loc && loc[t] == loc0[t]
    requires forall t :: t in loc && t !in loc0 ==> loc[t].root == root
    ensures KeptLoc(loc, root) == loc0
  {
    forall t | t in loc0 ensures loc0[t].root != root {
      var a := Ancestor(tabs0, loc0, t, 0);
      assert NodeAt(tabs0, loc0, a);
    }
  }

  /** Once the space is gone, exactly the lost frames are no longer free. */
  lemma LedgerClosed(tabs0: Tables, loc0: Locs, free0: set<int>, tabs: Tables, free: set<int>, total: nat,
                     lost: set<nat>)
    requires Forest(tabs0, loc0) && Forest(tabs, loc0) && SameTranslations(tabs0, loc0, tabs)
    requires Owned(tabs0, loc0, free0, total) && TablesTaken(loc0, free0, total)
    requires Owned(tabs, loc0, free, total) && TablesTaken(loc0, free, total)
    requires forall g :: g in free0 || g in free ==> 0 <= g < total
    requires forall g: nat :: Held(tabs, loc0, free, total, g) <==> Held(tabs0, loc0, free0, total, g) || g in lost
    requires forall g :: g in lost ==> !Held(tabs0, loc0, free0, total, g)
    ensures forall g: nat :: g in free <==> g in free0 && g !in lost
    ensures forall g :: g in lost ==> g in free0
  {
    SameLeafEntries(tabs0, tabs, loc0);
    forall g: nat ensures g in free <==> g in free0 && g !in lost {
      if 0 < g < total && Seen(g) {
        OneRole(tabs0, loc0, free0, total, g);
        OneRole(tabs, loc0, free, total, g);
      }
    }
  }

  /** Spaces with one role per frame and no counts, and addresses a leaf entry can hold. */
  ghost predicate Settled(v: AddressSpaces)
    reads v, v.pmm, v.pmm.bitmap, v.pmm.refs
  {
    v.Valid() && Owned(v.tabs, v.loc, v.pmm.free, v.pmm.total) && v.NoCounts() && v.pmm.total <= MAX_FRAMES
  }

  /** Space `root` of `v` after the steps `done`. */
  ghost predicate Lives(v: AddressSpaces, tabs0: Tables, loc0: Locs, free0: set<int>, root: nat, done: seq<Step>,
                        lost: set<nat>)
    reads v, v.pmm
  {
    Ledger(tabs0, loc0, free0, v.tabs, v.loc, v.pmm.free, v.pmm.total, root, done, lost)
  }

  method TakeObtain(v: AddressSpaces, root: nat, step: Step, ghost tabs0: Tables, ghost loc0: Locs,
                    ghost free0: set<int>, ghost done: seq<Step>, ghost lost: set<nat>)
    returns (ghost lost': set<nat>)
    requires Settled(v) && Lives(v, tabs0, loc0, free0, root, done, lost) && step.Obtain? && IsPath(PageOf(step.virt))
    requires Missing(v.tabs, root, PageOf(step.virt)[..3]) < |v.pmm.free|
    modifies v`tabs, v`loc, v.pmm`freeCount, v.pmm`free, v.pmm.bitmap
    ensures Settled(v) && Lives(v, tabs0, loc0, free0, root, done + [step], lost')
    ensures |v.pmm.free| >= |old(v.pmm.free)| - 4
  {
    ghost var tabs, loc, free, total := v.tabs, v.loc, v.pmm.free, v.pmm.total;
    v.NotHeld(root, PageOf(step.virt));
    lost' := lost + FrameOf(Lookup(tabs, root, PageOf(step.virt)));
    var ok := v.ObtainPage(root, step.virt, step.flags);
    ghost var f: nat :| f in free && TablesAdded(loc, free - {f}, v.loc, v.pmm.free, root)
      && Mapped(tabs, loc, v.tabs, root, PageOf(step.virt), Some(LeafFor(f * PAGE_SIZE, step.flags)));
    ObtainLedger(tabs0, loc0, free0, tabs, loc, free, total, root, done, lost, v.tabs, v.loc, v.pmm.free, step, f,
                 LeafFor(f * PAGE_SIZE, step.flags));
  }

  method TakeRelease(v: AddressSpaces, root: nat, step: Step, ghost tabs0: Tables, ghost loc0: Locs,
                     ghost free0: set<int>, ghost done: seq<Step>, ghost lost: set<nat>)
    requires Settled(v) && Lives(v, tabs0, loc0, free0, root, done, lost) && step.Release? && IsPath(PageOf(step.virt))
    modifies v`tabs, v.pmm`freeCount, v.pmm`free, v.pmm.bitmap
    ensures Settled(v) && Lives(v, tabs0, loc0, free0, root, done + [step], lost)
    ensures |v.pmm.free| >= |old(v.pmm.free)|
  {
    ghost var tabs, free := v.tabs, v.pmm.free;
    v.ReleasePage(root, step.virt);
    SubsetSize(free, v.pmm.free);
    ReleaseLedger(tabs0, loc0, free0, tabs, v.loc, free, v.pmm.total, root, done, lost, v.tabs, v.pmm.free, step);
  }

  /** Whether there is memory for a step: a frame, and one for each missing table. */
  ghost predicate Affordable(v: AddressSpaces, root: nat, step: Step)
    reads v, v.pmm
  {
    step.Obtain? ==> Missing(v.tabs, root, PageOf(step.virt)[..3]) < |v.pmm.free|
  }

  method TakeStep(v: AddressSpaces, root: nat, step: Step, ghost tabs0: Tables, ghost loc0: Locs,
                  ghost free0: set<int>, ghost done: seq<Step>, ghost lost: set<nat>)
    returns (ok: bool, ghost lost': set<nat>)
    requires Settled(v) && Lives(v, tabs0, loc0, free0, root, done, lost) && IsPath(PageOf(step.virt))
    modifies v`tabs, v`loc, v.pmm`freeCount, v.pmm`free, v.pmm.bitmap
    ensures Settled(v) && (ok <==> old(Affordable(v, root, step))) && |v.pmm.free| >= |old(v.pmm.free)| - 4
    ensures ok ==> Lives(v, tabs0, loc0, free0, root, done + [step], lost')
    ensures !ok ==> lost' == lost && Lives(v, tabs0, loc0, free0, root, done, lost) && !Affordable(v, root, step)
  {
    ok, lost' := true, lost;
    if step.Release? {
      TakeRelease(v, root, step, tabs0, loc0, free0, done, lost);
    } else if v.pmm.freeCount <= Missing(v.tabs, root, PageOf(step.virt)[..3]) {
      ok := false;
    } else {
      lost' := TakeObtain(v, root, step, tabs0, loc0, free0, done, lost);
    }
  }

  /** The steps, up to the first page there is not enough memory for. */
  method UseSpace(v: AddressSpaces, root: nat, steps: seq<Step>, ghost tabs0: Tables, ghost loc0: Locs,
                  ghost free0: set<int>)
    returns (n: nat, ghost lost: set<nat>)
    requires Settled(v) && Lives(v, tabs0, loc0, free0, root, [], {})
    requires forall i :: 0 <= i < |steps| ==> IsPath(PageOf(steps[i].virt))
    modifies v`tabs, v`loc, v.pmm`freeCount, v.pmm`free, v.pmm.bitmap
    ensures Settled(v) && n <= |steps| && Lives(v, tabs0, loc0, free0, root, steps[..n], lost)
    ensures n < |steps| ==> !Affordable(v, root, steps[n])
    ensures |old(v.pmm.free)| >= 4 * |steps| ==> n == |steps|
  {
    lost, n := {}, 0;
    var ok := true;
    while ok && n < |steps|
      invariant n <= |steps| && Settled(v) && Lives(v, tabs0, loc0, free0, root, steps[..n], lost)
      invariant ok || (n < |steps| && !Affordable(v, root, steps[n]))
      invariant |old(v.pmm.free)| >= 4 * |steps| ==> ok && |v.pmm.free| >= 4 * (|steps| - n)
      decreases |steps| - n, ok
    {
      assert steps[..n + 1] == steps[..n] + [steps[n]];
      ok, lost := TakeStep(v, root, steps[n], tabs0, loc0, free0, steps[..n], lost);
      n := if ok then n + 1 else n;
    }
  }

  /** The end of the space: what is not free again is what was lost. */
  method EndSpace(v: AddressSpaces, root: nat, ghost tabs0: Tables, ghost loc0: Locs, ghost free0: set<int>,
                  ghost done: seq<Step>, ghost lost: set<nat>)
    requires Settled(v) && Lives(v, tabs0, loc0, free0, root, done, lost) && Forest(tabs0, loc0)
    requires Owned(tabs0, loc0, free0, v.pmm.total) && TablesTaken(loc0, free0, v.pmm.total)
    requires forall g :: g in free0 ==> 0 <= g < v.pmm.total
    modifies v`loc, v.pmm`freeCount, v.pmm`free, v.pmm.bitmap, v.pmm.refs
    ensures Settled(v) && v.loc == loc0 && SameTranslations(tabs0, loc0, v.tabs)
    ensures (forall g :: g in lost ==> g in free0) && v.pmm.free == free0 - lost
    ensures forall g: nat :: Held(v.tabs, v.loc, v.pmm.free, v.pmm.total, g) <==>
      Held(tabs0, loc0, free0, v.pmm.total, g) || g in lost
  {
    KeptOthers(tabs0, loc0, v.loc, root);
    v.DestroySpace(root);
    LedgerClosed(tabs0, loc0, free0, v.tabs, v.pmm.free, v.pmm.total, lost);
  }

  /**
   Create, any pages given and taken as long as there is memory for them and their tables, destroy: four
   frames for each step and one for the root are always enough for all steps; no space
   and no translation of the others changes, their holders keep what they hold, and the free frames are
   those before except for one frame for each time a page was given a frame while it had one.
   */
  method Lifetime(v: AddressSpaces, steps: seq<Step>) returns (root: nat, n: nat, ghost lost: set<nat>)
    requires Settled(v) && forall i :: 0 <= i < |steps| ==> IsPath(PageOf(steps[i].virt))
    modifies v`tabs, v`loc, v.pmm`freeCount, v.pmm`free, v.pmm.bitmap, v.pmm.refs
    ensures Settled(v) && v.loc == old(v.loc) && SameTranslations(old(v.tabs), old(v.loc), v.tabs)
    ensures n <= |steps| && (forall g :: g in lost ==> g in old(v.pmm.free)) && |lost| == Overwrites(steps[..n])
    ensures |old(v.pmm.free)| > 4 * |steps| ==> root != 0 && n == |steps|
    ensures v.pmm.free == old(v.pmm.free) - lost
    ensures v.pmm.free == old(v.pmm.free) <==> Overwrites(steps[..n]) == 0
    ensures forall g: nat :: Held(v.tabs, v.loc, v.pmm.free, v.pmm.total, g) <==>
      old(Held(v.tabs, v.loc, v.pmm.free, v.pmm.total, g)) || g in lost
  {
    lost, n := {}, 0;
    root := v.CreateSpace();
    if root == 0 {
      return;
    }
    ghost var tabs0, loc0, free0 := old(v.tabs), old(v.loc), old(v.pmm.free);
    NewLedger(tabs0, loc0, free0, v.tabs, v.loc, v.pmm.free, v.pmm.total, root);
    n, lost := UseSpace(v, root, steps, tabs0, loc0, free0);
    EndSpace(v, root, tabs0, loc0, free0, steps[..n], lost);
    if lost != {} {
      ghost var g :| g in lost;
      assert g in free0 && g !in v.pmm.free;
    }
  }
}
