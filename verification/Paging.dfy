/**
 The kernel address space of paging.c: 4 KB and 2 MB mappings, the lookup, and the mapping loops of
 `paging_init`.
 */
module Paging {
  import opened KernelTables
  import opened Pmm
  import PageTables

  /** The 2 MB region at 0xFFFFFFFF80000000. */
  const KERNEL_BASE: nat := 0xFFFF_FFFF_8000_0000
  const KERNEL_REGION: nat := 0x7FF_FC00

  lemma KernelRegion()
    ensures Region(KERNEL_BASE) == KERNEL_REGION
  {
  }

  /** Bits 12 to 51 of a physical address, as a frame number. */
  function FrameBits(phys: nat): nat {
    phys / PAGE % 0x100_0000_0000
  }

  /** Physical addresses that an entry can hold. */
  const PHYS_LIMIT: nat := 0x10_0000_0000_0000

  /** Every address in the page of `virt` translates to the same place in the page of `phys`. */
  ghost predicate MapsPage(mem: Memory, root: nat, virt: nat, phys: nat, flags: nat) {
    forall w: nat :: PageTables.PageNumber(w) == PageTables.PageNumber(virt) ==>
      && Lookup(mem, root, w).Page? && Lookup(mem, root, w).flags == flags
      && Physical(Lookup(mem, root, w), w) == phys - phys % PAGE + w % PAGE
  }

  lemma FrameOfLow(phys: nat)
    ensures FrameBits(phys) * PAGE == phys % PHYS_LIMIT - phys % PHYS_LIMIT % PAGE
  {
    var q, r := phys / PHYS_LIMIT, phys % PHYS_LIMIT;
    assert phys / PAGE == q * 0x100_0000_0000 + r / PAGE;
    assert 0 <= r / PAGE < 0x100_0000_0000;
  }

  lemma WrittenMaps(mem: Memory, mem': Memory, root: nat, virt: nat, phys: nat, flags: nat)
    requires PageWritten(mem, mem', root, virt, FrameBits(phys), flags)
    ensures MapsPage(mem', root, virt, phys % PHYS_LIMIT, flags)
  {
    FrameOfLow(phys);
    forall w: nat | PageTables.PageNumber(w) == PageTables.PageNumber(virt)
      ensures !Lookup(mem', root, w).Nothing? && Lookup(mem', root, w).flags == flags
      ensures Physical(Lookup(mem', root, w), w) == phys % PHYS_LIMIT - phys % PHYS_LIMIT % PAGE + w % PAGE
    {
      assert Lookup(mem', root, w) == Page(FrameBits(phys), flags);
    }
  }

  /** The same for the 2 MB around `virt`. */
  ghost predicate MapsRegion(mem: Memory, root: nat, virt: nat, phys: nat, flags: nat) {
    forall w: nat :: Region(w) == Region(virt) ==>
      && Lookup(mem, root, w).Huge? && Lookup(mem, root, w).flags == flags
      && Physical(Lookup(mem, root, w), w) == phys - phys % HUGE_PAGE + w % HUGE_PAGE
  }

  lemma WrittenMapsRegion(mem: Memory, mem': Memory, root: nat, virt: nat, phys: nat, flags: nat)
    requires HugeWritten(mem, mem', root, virt, phys / PAGE, flags)
    ensures MapsRegion(mem', root, virt, phys, flags)
  {
    assert phys / PAGE / 512 == phys / HUGE_PAGE;
    forall w: nat | Region(w) == Region(virt)
      ensures !Lookup(mem', root, w).Nothing? && Lookup(mem', root, w).flags == flags
      ensures Physical(Lookup(mem', root, w), w) == phys - phys % HUGE_PAGE + w % HUGE_PAGE
    {
      assert Lookup(mem', root, w) == Huge(phys / PAGE, flags);
    }
  }

  lemma HugeFrame(f: nat)
    ensures f * PAGE / HUGE_PAGE == f / 512
  {
  }

  ghost predicate SameLookups(mem: Memory, mem': Memory, root: nat) {
    forall w :: Lookup(mem', root, w) == Lookup(mem, root, w)
  }

  /** The first `k` regions of 2 MB map to themselves, and nothing else is mapped. */
  ghost predicate IdentityUpTo(mem: Memory, root: nat, k: nat) {
    forall w :: Lookup(mem, root, w) == if Region(w) < k then Huge(Region(w) * 512, PAGE_WRITABLE) else Nothing
  }

  /** What `paging_init` sets out to map, and nothing else. */
  ghost predicate Booted(mem: Memory, root: nat) {
    forall w :: Lookup(mem, root, w) ==
      if Region(w) < 2048 then Huge(Region(w) * 512, PAGE_WRITABLE)
      else if Region(w) == KERNEL_REGION then Huge(0, PAGE_WRITABLE)
      else Nothing
  }

  /** What `paging_init` sets out to map is mapped, whatever else is. */
  ghost predicate HasBoot(mem: Memory, root: nat) {
    && (forall w :: Region(w) < 2048 ==> Lookup(mem, root, w) == Huge(Region(w) * 512, PAGE_WRITABLE))
    && (forall w :: Region(w) == KERNEL_REGION ==> Lookup(mem, root, w) == Huge(0, PAGE_WRITABLE))
  }

  lemma BootedHasBoot(mem: Memory, root: nat)
    requires Booted(mem, root)
    ensures HasBoot(mem, root)
  {
    KernelRegion();
  }

  /** With the boot mappings, the first 4 GB translate to themselves and the kernel window to the first 2 MB. */
  lemma BootAddresses(mem: Memory, root: nat, v: nat)
    requires HasBoot(mem, root)
    ensures v < 0x1_0000_0000 ==> Physical(Lookup(mem, root, v), v) == v
    ensures v < HUGE_PAGE ==> Physical(Lookup(mem, root, KERNEL_BASE + v), KERNEL_BASE + v) == v
  {
    if v < HUGE_PAGE {
      assert (KERNEL_BASE + v) / HUGE_PAGE == KERNEL_BASE / HUGE_PAGE;
      KernelRegion();
      assert Region(KERNEL_BASE + v) == KERNEL_REGION;
    }
    if v < 0x1_0000_0000 {
      assert Region(v) == v / HUGE_PAGE;
    }
  }

  /** A 4 KB page entered where no 2 MB page is leaves the boot mappings in place, however often that is done. */
  lemma BootStays(mem: Memory, mem': Memory, root: nat, virt: nat, frame: nat, flags: nat)
    requires HasBoot(mem, root) && !Lookup(mem, root, virt).Huge? && PageWritten(mem, mem', root, virt, frame, flags)
    ensures HasBoot(mem', root) && Physical(Lookup(mem', root, virt), virt) == frame * PAGE + virt % PAGE
  {
    forall w | Lookup(mem, root, w).Huge? && (Region(w) < 2048 || Region(w) == KERNEL_REGION)
      ensures Lookup(mem', root, w) == Lookup(mem, root, w)
    {
      if PageTables.PageNumber(w) == PageTables.PageNumber(virt) {
        PageTables.PageOfExact(w, virt);
        RegionExact(w, virt);
        assert false;
      }
    }
  }

  lemma RegionPath(k: nat)
    requires k < 2048
    ensures PageTables.PageOf(k * HUGE_PAGE)[..2] == [0, k / 512] && Region(k * HUGE_PAGE) == k
  {
    assert k * HUGE_PAGE / 0x4000_0000 == k / 512;
    assert k * HUGE_PAGE / 0x80_0000_0000 == 0;
    assert k * HUGE_PAGE / HUGE_PAGE == k;
    var p := PageTables.PageOf(k * HUGE_PAGE);
    assert p[..2] == [p[0], p[1]];
  }

  /** Which of the tables for region `k` are missing once region `k - 1` has its own. */
  lemma RegionMissing(mem: Memory, root: nat, k: nat)
    requires k > 0 ==> Walk(mem, root, 0, [0, (k - 1) / 512]).Some?
    ensures Missing(mem, root, 0, [0, k / 512]) <= if k == 0 then 2 else if k % 512 == 0 then 1 else 0
  {
    if k > 0 && k % 512 == 0 {
      assert [0, (k - 1) / 512][1..] == [(k - 1) / 512] && [0, k / 512][1..] == [k / 512];
    }
  }

  lemma IdentityStep(mem: Memory, mem': Memory, root: nat, k: nat)
    requires IdentityUpTo(mem, root, k) && k < 2048
    requires HugeWritten(mem, mem', root, k * HUGE_PAGE, k * 512, PAGE_WRITABLE)
    ensures IdentityUpTo(mem', root, k + 1)
  {
    RegionPath(k);
  }

  /** The kernel window on top of the identity mapping is all there is. */
  lemma BootComplete(mem: Memory, mem': Memory, root: nat)
    requires IdentityUpTo(mem, root, 2048) && HugeWritten(mem, mem', root, KERNEL_BASE, 0, PAGE_WRITABLE)
    ensures Booted(mem', root)
  {
    KernelRegion();
  }

  /** Eight tables carry the boot mappings, so no fewer frames will do. */
  lemma EightTables(mem: Memory, loc: map<nat, seq<nat>>, root: nat, frames: set<int>)
    requires Tree(mem, loc, root) && Booted(mem, root) && forall t :: t in loc ==> t in frames
    ensures |frames| >= 8
  {
    var a := TableFor(mem, loc, root, 0);
    var b := TableFor(mem, loc, root, 512);
    var c := TableFor(mem, loc, root, 1024);
    var d := TableFor(mem, loc, root, 1536);
    var e := TableFor(mem, loc, root, KERNEL_REGION);
    var f := TableAbove(mem, loc, root, a);
    var g := TableAbove(mem, loc, root, e);
    var paths := [[], [0], [0, 0], [0, 1], [0, 2], [0, 3], [511], [511, 510]];
    var ts: seq<nat> := [root, f, a, b, c, d, g, e];
    assert forall i :: 0 <= i < 8 ==> ts[i] in loc && loc[ts[i]] == paths[i];
    DistinctFit(ts, frames);
  }

  lemma TableFor(mem: Memory, loc: map<nat, seq<nat>>, root: nat, k: nat) returns (t: nat)
    requires Tree(mem, loc, root) && Booted(mem, root) && (k < 2048 || k == KERNEL_REGION)
    ensures t in loc && loc[t] == [k / 512 / 512, k / 512 % 512]
  {
    var v := k * HUGE_PAGE;
    assert v / HUGE_PAGE == k;
    assert v / 0x4000_0000 == k / 512 && v / 0x80_0000_0000 == k / 512 / 512;
    var p := PageTables.PageOf(v);
    assert p[..2] == [p[0], p[1]];
    assert Lookup(mem, root, v).Huge?;
    t := Walk(mem, root, 0, p[..2]).value;
    WalkExactly(mem, loc, root, p[..2], t);
  }

  lemma TableAbove(mem: Memory, loc: map<nat, seq<nat>>, root: nat, t: nat) returns (u: nat)
    requires Tree(mem, loc, root) && t in loc && |loc[t]| == 2
    ensures u in loc && loc[u] == [loc[t][0]]
  {
    assert ReachOk(mem, loc, root, t);
    WalkPrefix(mem, root, 0, loc[t], 1);
    u := Walk(mem, root, 0, loc[t][..1]).value;
    WalkExactly(mem, loc, root, loc[t][..1], u);
  }

  lemma {:induction false} DistinctFit(ts: seq<nat>, s: set<int>)
    requires forall i, j :: 0 <= i < j < |ts| ==> ts[i] != ts[j]
    requires forall i :: 0 <= i < |ts| ==> ts[i] in s
    ensures |ts| <= |s|
  {
    if ts != [] {
      DistinctFit(ts[1..], s - {ts[0]});
    }
  }

  class KernelSpace {
    const pmm: FrameAllocator
    var pml4: nat
    var mem: Memory
    ghost var loc: map<nat, seq<nat>>

    constructor (pmm: FrameAllocator)
      ensures this.pmm == pmm && pml4 == 0 && mem == map[]
    {
      this.pmm := pmm;
      pml4, mem, loc := 0, map[], map[];
    }

    ghost predicate Valid()
      reads this, pmm, pmm.bitmap
    {
      pmm.Valid() && 0 !in pmm.free && Tree(mem, loc, pml4) && forall t :: t in loc ==> t != 0 && t !in pmm.free
    }

    /** Tables in use were in use before or are made of frames that were free. */
    twostate predicate FreshTables()
      reads this, pmm
    {
      && pmm.free <= old(pmm.free)
      && forall t :: t in loc ==> t in old(loc) || t in old(pmm.free)
    }

    /**
     `get_or_create_table`: the table behind an entry, made if it is missing; 0 when no frame is free.
     It changes no lookup, and takes a frame exactly for a missing table.
     */
    method GetOrCreateTable(t: nat, x: nat, flags: nat, ghost rest: seq<nat>) returns (c: nat)
      requires Valid() && t in loc && |loc[t]| < 3 && x < ENTRIES && t in mem && x < |mem[t]|
      requires !(|loc[t]| == 2 && mem[t][x].huge)
      modifies this`mem, this`loc, pmm`freeCount, pmm`free, pmm.bitmap
      ensures Valid() && SameLookups(old(mem), mem, pml4) && FreshTables()
      ensures c == 0 ==> Missing(old(mem), t, |old(loc)[t]|, [x] + rest) > |old(pmm.free)|
      ensures c != 0 ==>
        && c in loc && loc[c] == old(loc)[t] + [x]
        && |pmm.free| - Missing(mem, c, |loc[c]|, rest) ==
             |old(pmm.free)| - Missing(old(mem), t, |old(loc)[t]|, [x] + rest)
    {
      assert NodeOk(mem, loc, t) && ChildOk(mem, loc, t, x);
      assert ([x] + rest)[1..] == rest;
      if mem[t][x].present {
        return mem[t][x].frame;
      }
      c := pmm.AllocFrame();
      if c == 0 {
        return;
      }
      forall w ensures Lookup(Grow(mem, t, x, c, flags), pml4, w) == Lookup(mem, pml4, w) {
        GrowLookup(mem, loc, pml4, t, x, c, flags, w);
      }
      GrowTree(mem, loc, pml4, t, x, c, flags);
      mem := mem[c := Blank()];
      mem := mem[t := mem[t][x := Pte(c, true, false, WithWritable(flags))]];
      loc := loc[c := loc[t] + [x]];
    }

    /** The frames for the missing tables are there. */
    ghost predicate Enough(path: seq<nat>)
      reads this, pmm
    {
      Missing(mem, pml4, 0, path) <= |pmm.free|
    }

    /** The walk of `paging_map` down to the table of the last level, which it makes if it can; 0 if not. */
    method LastTable(virt: nat, flags: nat) returns (pt: nat)
      requires Valid() && !Lookup(mem, pml4, virt).Huge?
      modifies this`mem, this`loc, pmm`freeCount, pmm`free, pmm.bitmap
      ensures Valid() && FreshTables() && SameLookups(old(mem), mem, pml4)
      ensures pt != 0 <==> old(Enough(PageTables.PageOf(virt)[..3]))
      ensures pt != 0 ==> pt in loc && loc[pt] == PageTables.PageOf(virt)[..3]
    {
      var p := PageTables.PageOf(virt);
      PageTables.PageDigits(virt);
      assert NodeOk(mem, loc, pml4);
      assert p[..3] == [p[0]] + [p[1], p[2]] && [p[1], p[2]] == [p[1]] + [p[2]] && [p[2]] == [p[2]] + [];
      var pdpt := GetOrCreateTable(pml4, p[0], flags, [p[1], p[2]]);
      if pdpt == 0 {
        return 0;
      }
      assert NodeOk(mem, loc, pdpt);
      var pd := GetOrCreateTable(pdpt, p[1], flags, [p[2]]);
      if pd == 0 {
        return 0;
      }
      assert NodeOk(mem, loc, pd) && loc[pd] == p[..2];
      LookupAt(mem, loc, pml4, virt, pd);
      pt := GetOrCreateTable(pd, p[2], flags, []);
      assert pt != 0 ==> loc[pt] == p[..3];
    }

    /**
     `paging_map` where no 2 MB page is in the way: one page changes its target, and no lookup does when
     the tables cannot be made.  The boot mappings stay.
     */
    method Map(virt: nat, phys: nat, flags: nat)
      requires Valid() && !Lookup(mem, pml4, virt).Huge?
      modifies this`mem, this`loc, pmm`freeCount, pmm`free, pmm.bitmap
      ensures Valid() && FreshTables()
      ensures old(HasBoot(mem, pml4)) ==> HasBoot(mem, pml4)
      ensures if old(Enough(PageTables.PageOf(virt)[..3]))
              then PageWritten(old(mem), mem, pml4, virt, FrameBits(phys), flags)
              else SameLookups(old(mem), mem, pml4)
      ensures old(Enough(PageTables.PageOf(virt)[..3])) ==> MapsPage(mem, pml4, virt, phys % PHYS_LIMIT, flags)
      ensures old(Enough(PageTables.PageOf(virt)[..3])) ==>
        (Allows(mem, pml4, 0, PageTables.PageOf(virt)) <==> Writable(flags))
    {
      var p := PageTables.PageOf(virt);
      var pt := LastTable(virt, flags);
      if pt == 0 {
        return;
      }
      WritePage(mem, loc, pml4, pt, virt, Pte(FrameBits(phys), true, false, flags));
      mem := mem[pt := mem[pt][p[3] := Pte(FrameBits(phys), true, false, flags)]];
      if old(HasBoot(mem, pml4)) {
        BootStays(old(mem), mem, pml4, virt, FrameBits(phys), flags);
      }
      WrittenMaps(old(mem), mem, pml4, virt, phys, flags);
      WriteAllowed(mem, loc, pml4, virt);
    }

    /** What `paging_map` maps, `paging_get_physical` finds, at any address of the page. */
    method MapThenFind(virt: nat, phys: nat, flags: nat, w: nat) returns (found: nat)
      requires Valid() && !Lookup(mem, pml4, virt).Huge? && Enough(PageTables.PageOf(virt)[..3]) && phys < PHYS_LIMIT
      requires PageTables.PageNumber(w) == PageTables.PageNumber(virt)
      modifies this`mem, this`loc, pmm`freeCount, pmm`free, pmm.bitmap
      ensures Valid() && found == phys - phys % PAGE + w % PAGE
    {
      Map(virt, phys, flags);
      found := GetPhysical(w);
    }

    /** `paging_map_huge`: one region of 2 MB changes its target, and no lookup does when the tables cannot be made. */
    method MapHuge(virt: nat, phys: nat, flags: nat)
      requires Valid()
      modifies this`mem, this`loc, pmm`freeCount, pmm`free, pmm.bitmap
      ensures Valid() && FreshTables()
      ensures if old(Enough(PageTables.PageOf(virt)[..2]))
              then HugeWritten(old(mem), mem, pml4, virt, phys / PAGE, flags)
                   && MapsRegion(mem, pml4, virt, phys, flags)
                   && Walk(mem, pml4, 0, PageTables.PageOf(virt)[..2]).Some?
                   && |pmm.free| == |old(pmm.free)| - Missing(old(mem), pml4, 0, PageTables.PageOf(virt)[..2])
              else SameLookups(old(mem), mem, pml4)
    {
      var p := PageTables.PageOf(virt);
      PageTables.PageDigits(virt);
      assert NodeOk(mem, loc, pml4);
      assert p[..2] == [p[0]] + [p[1]] && [p[1]] == [p[1]] + [];
      var pdpt := GetOrCreateTable(pml4, p[0], flags, [p[1]]);
      if pdpt == 0 {
        return;
      }
      assert NodeOk(mem, loc, pdpt);
      var pd := GetOrCreateTable(pdpt, p[1], flags, []);
      if pd == 0 {
        return;
      }
      assert loc[pd] == p[..2];
      WriteHuge(mem, loc, pml4, pd, virt, Pte(phys / PAGE, true, true, flags));
      mem := mem[pd := mem[pd][p[2] := Pte(phys / PAGE, true, true, flags)]];
      loc := Without(loc, loc[pd] + [p[2]]);
      WalkExactly(mem, loc, pml4, p[..2], pd);
      WrittenMapsRegion(old(mem), mem, pml4, virt, phys, flags);
    }

    /** `paging_get_physical`: 2 MB pages are recognised before presence is looked at. */
    method GetPhysical(virt: nat) returns (phys: nat)
      requires Valid()
      ensures phys == Physical(Lookup(mem, pml4, virt), virt)
    {
      var p := PageTables.PageOf(virt);
      PageTables.PageDigits(virt);
      assert p[..2] == [p[0], p[1]] && [p[0], p[1]][1..] == [p[1]] && [p[1]][1..] == [];
      assert NodeOk(mem, loc, pml4) && ChildOk(mem, loc, pml4, p[0]);
      if !mem[pml4][p[0]].present {
        return 0;
      }
      var pdpt := mem[pml4][p[0]].frame;
      assert NodeOk(mem, loc, pdpt) && ChildOk(mem, loc, pdpt, p[1]);
      assert Walk(mem, pml4, 0, p[..2]) == Walk(mem, pdpt, 1, [p[1]]) == Step(mem, pdpt, p[1], 1);
      if !mem[pdpt][p[1]].present {
        return 0;
      }
      var pd := mem[pdpt][p[1]].frame;
      assert NodeOk(mem, loc, pd) && ChildOk(mem, loc, pd, p[2]);
      if mem[pd][p[2]].huge {
        HugeFrame(mem[pd][p[2]].frame);
        return mem[pd][p[2]].frame * PAGE / HUGE_PAGE * HUGE_PAGE + virt % HUGE_PAGE;
      }
      if !mem[pd][p[2]].present {
        return 0;
      }
      var pt := mem[pd][p[2]].frame;
      assert NodeOk(mem, loc, pt);
      if !mem[pt][p[3]].present {
        return 0;
      }
      return mem[pt][p[3]].frame * PAGE + virt % PAGE;
    }

    /** The loop of `paging_init` over the first 4 GB. */
    method MapIdentity()
      requires Valid() && IdentityUpTo(mem, pml4, 0)
      modifies this`mem, this`loc, pmm`freeCount, pmm`free, pmm.bitmap
      ensures Valid() && FreshTables()
      ensures |old(pmm.free)| >= 7 ==> IdentityUpTo(mem, pml4, 2048) && |pmm.free| >= 2
    {
      var addr := 0;
      ghost var k := 0;
      while addr < 0x1_0000_0000
        invariant Valid() && FreshTables() && 0 <= k <= 2048 && addr == k * HUGE_PAGE
        invariant |old(pmm.free)| >= 7 ==>
          && IdentityUpTo(mem, pml4, k) && (k > 0 ==> Walk(mem, pml4, 0, [0, (k - 1) / 512]).Some?)
          && |pmm.free| >= (if k == 0 then 7 else 5 - (k - 1) / 512)
      {
        ghost var mem1 := mem;
        RegionPath(k);
        if |old(pmm.free)| >= 7 {
          RegionMissing(mem, pml4, k);
        }
        MapHuge(addr, addr, PAGE_WRITABLE);
        if |old(pmm.free)| >= 7 {
          IdentityStep(mem1, mem, pml4, k);
        }
        addr := addr + HUGE_PAGE;
        k := k + 1;
      }
    }

    /**
     The part of `paging_init` that builds the permanent tables: the boot mappings are in place
     afterwards exactly when eight frames were free.
     */
    method Init()
      requires pmm.Valid() && 0 !in pmm.free
      modifies this`pml4, this`mem, this`loc, pmm`freeCount, pmm`free, pmm.bitmap
      ensures pml4 == 0 <==> old(pmm.free) == {}
      ensures pml4 != 0 ==> Valid()
      ensures pml4 != 0 && Booted(mem, pml4) <==> |old(pmm.free)| >= 8
    {
      pml4 := pmm.AllocFrame();
      if pml4 == 0 {
        return;
      }
      mem := mem[pml4 := Blank()];
      loc := map[pml4 := []];
      BlankRoot(mem, pml4);
      ghost var loc1, free1 := loc, pmm.free;
      MapIdentity();
      ghost var mem2 := mem;
      MapHuge(KERNEL_BASE, 0, PAGE_WRITABLE);
      assert forall t :: t in loc ==> t in old(pmm.free);
      if |old(pmm.free)| >= 8 {
        BootComplete(mem2, mem, pml4);
      }
      if Booted(mem, pml4) {
        EightTables(mem, loc, pml4, old(pmm.free));
      }
    }
  }

  lemma BlankRoot(mem: Memory, root: nat)
    requires root in mem && mem[root] == Blank()
    ensures Tree(mem, map[root := []], root) && IdentityUpTo(mem, root, 0)
  {
    forall w ensures Lookup(mem, root, w) == Nothing {
      assert Step(mem, root, PageTables.PageOf(w)[..2][0], 0).None?;
    }
  }
}
