/**
 The kernel's own page tables as paging.c builds them: one tree of tables whose third level may hold
 2 MB pages instead of tables (Intel SDM volume 3A, section 4.5).
 */
module KernelTables {
  import opened Basics
  import PageTables

  const ENTRIES: nat := 512
  const PAGE: nat := 0x1000
  const HUGE_PAGE: nat := 0x20_0000

  /** Frame number (bits 12 to 51, of a 2 MB entry up to 63), PAGE_PRESENT, PAGE_HUGE, and the other low bits. */
  datatype Pte = Pte(frame: nat, present: bool, huge: bool, flags: nat)

  const VACANT: Pte := Pte(0, false, false, 0)

  type Memory = map<nat, seq<Pte>>

  /** What a virtual address is mapped to, and with which flags. */
  datatype Target = Nothing | Page(frame: nat, flags: nat) | Huge(frame: nat, flags: nat)

  const PAGE_WRITABLE: nat := 2

  predicate Writable(flags: nat) {
    flags / PAGE_WRITABLE % 2 == 1
  }

  /** The flags with PAGE_WRITABLE set. */
  function WithWritable(flags: nat): (r: nat)
    ensures Writable(r) && (Writable(flags) ==> r == flags)
  {
    if Writable(flags) then flags else flags + PAGE_WRITABLE
  }

  // ---------- lookups ----------

  /** The table behind entry `x` of table `t` at depth `d`, the root being at depth 0. */
  function Step(mem: Memory, t: nat, x: nat, d: nat): Option<nat> {
    if t in mem && x < |mem[t]| && mem[t][x].present && !(d == 2 && mem[t][x].huge) then Some(mem[t][x].frame) else None
  }

  function Walk(mem: Memory, t: nat, d: nat, path: seq<nat>): Option<nat>
    decreases |path|
  {
    if path == [] then Some(t)
    else match Step(mem, t, path[0], d)
      case None => None
      case Some(c) => Walk(mem, c, d + 1, path[1..])
  }

  function InTable(mem: Memory, t: nat, x: nat): Target {
    if t in mem && x < |mem[t]| && mem[t][x].present then Page(mem[t][x].frame, mem[t][x].flags) else Nothing
  }

  function InDirectory(mem: Memory, t: nat, x: nat, y: nat): Target {
    if t !in mem || x >= |mem[t]| then Nothing
    else if mem[t][x].huge then Huge(mem[t][x].frame, mem[t][x].flags)
    else if mem[t][x].present then InTable(mem, mem[t][x].frame, y)
    else Nothing
  }

  function Lookup(mem: Memory, root: nat, virt: nat): Target {
    var p := PageTables.PageOf(virt);
    match Walk(mem, root, 0, p[..2])
    case None => Nothing
    case Some(t) => InDirectory(mem, t, p[2], p[3])
  }

  /** The physical address for `virt` under a target; 0 when there is none. */
  function Physical(target: Target, virt: nat): nat {
    match target
    case Nothing => 0
    case Page(f, _) => f * PAGE + virt % PAGE
    case Huge(f, _) => f / 512 * HUGE_PAGE + virt % HUGE_PAGE
  }

  // ---------- the tree ----------

  ghost predicate NodeOk(mem: Memory, loc: map<nat, seq<nat>>, t: nat) {
    t in loc ==>
      && |loc[t]| <= 3 && t in mem && |mem[t]| == ENTRIES && (forall i :: 0 <= i < |loc[t]| ==> loc[t][i] < ENTRIES)
      && (|loc[t]| == 2 ==> forall x :: 0 <= x < ENTRIES && mem[t][x].huge ==> mem[t][x].present)
  }

  ghost predicate ChildOk(mem: Memory, loc: map<nat, seq<nat>>, t: nat, x: nat) {
    t in loc && |loc[t]| < 3 && Step(mem, t, x, |loc[t]|).Some? ==>
      var c := Step(mem, t, x, |loc[t]|).value;
      c in loc && loc[c] == loc[t] + [x] && Writable(mem[t][x].flags)
  }

  ghost predicate ReachOk(mem: Memory, loc: map<nat, seq<nat>>, root: nat, t: nat) {
    t in loc ==> Walk(mem, root, 0, loc[t]) == Some(t)
  }

  /** `loc` holds the tables in use, each with the one path of indices that leads to it. */
  ghost predicate Tree(mem: Memory, loc: map<nat, seq<nat>>, root: nat) {
    && root in loc && loc[root] == []
    && (forall t :: NodeOk(mem, loc, t))
    && (forall t, x :: ChildOk(mem, loc, t, x))
    && (forall t :: ReachOk(mem, loc, root, t))
  }

  lemma {:induction false} WalkStays(mem: Memory, loc: map<nat, seq<nat>>, root: nat, s: nat, path: seq<nat>)
    requires Tree(mem, loc, root) && s in loc && |loc[s]| + |path| <= 3 && Walk(mem, s, |loc[s]|, path).Some?
    ensures var u := Walk(mem, s, |loc[s]|, path).value; u in loc && loc[u] == loc[s] + path
    decreases |path|
  {
    if path == [] {
      assert loc[s] + path == loc[s];
    } else {
      assert ChildOk(mem, loc, s, path[0]);
      WalkStays(mem, loc, root, Step(mem, s, path[0], |loc[s]|).value, path[1..]);
      assert loc[s] + [path[0]] + path[1..] == loc[s] + path;
    }
  }

  /** A walk from the root finds exactly the table located at its path. */
  lemma WalkExactly(mem: Memory, loc: map<nat, seq<nat>>, root: nat, path: seq<nat>, u: nat)
    requires Tree(mem, loc, root) && |path| <= 3
    ensures Walk(mem, root, 0, path) == Some(u) <==> u in loc && loc[u] == path
  {
    if Walk(mem, root, 0, path) == Some(u) {
      WalkStays(mem, loc, root, root, path);
      assert [] + path == path;
    }
    assert ReachOk(mem, loc, root, u);
  }

  lemma {:induction false} WalkSnoc(mem: Memory, s: nat, d: nat, path: seq<nat>, x: nat)
    requires Walk(mem, s, d, path).Some?
    ensures Walk(mem, s, d, path + [x]) == Step(mem, Walk(mem, s, d, path).value, x, d + |path|)
    decreases |path|
  {
    if path == [] {
      assert path + [x] == [x];
      assert [x][1..] == [];
    } else {
      assert (path + [x])[1..] == path[1..] + [x];
      WalkSnoc(mem, Step(mem, s, path[0], d).value, d + 1, path[1..], x);
    }
  }

  /** Every step of the tree other than the one along `cut` is still there. */
  ghost predicate StepKept(mem: Memory, mem': Memory, loc: map<nat, seq<nat>>, cut: seq<nat>, u: nat, y: nat) {
    u in loc && |loc[u]| < 3 && loc[u] + [y] != cut && Step(mem, u, y, |loc[u]|).Some? ==>
      Step(mem', u, y, |loc[u]|) == Step(mem, u, y, |loc[u]|)
  }

  lemma {:induction false} WalkKept(mem: Memory, mem': Memory, loc: map<nat, seq<nat>>, root: nat, cut: seq<nat>,
                                    s: nat, path: seq<nat>)
    requires Tree(mem, loc, root) && s in loc && |loc[s]| + |path| <= 3 && |cut| >= 3 && loc[s] + path != cut
    requires forall u, y :: StepKept(mem, mem', loc, cut, u, y)
    requires Walk(mem, s, |loc[s]|, path).Some?
    ensures Walk(mem', s, |loc[s]|, path) == Walk(mem, s, |loc[s]|, path)
    decreases |path|
  {
    if path != [] {
      assert ChildOk(mem, loc, s, path[0]) && StepKept(mem, mem', loc, cut, s, path[0]);
      assert loc[s] + [path[0]] + path[1..] == loc[s] + path;
      WalkKept(mem, mem', loc, root, cut, Step(mem, s, path[0], |loc[s]|).value, path[1..]);
    }
  }

  lemma LookupAt(mem: Memory, loc: map<nat, seq<nat>>, root: nat, virt: nat, t: nat)
    requires Tree(mem, loc, root) && t in loc && loc[t] == PageTables.PageOf(virt)[..2]
    ensures var p := PageTables.PageOf(virt); Lookup(mem, root, virt) == InDirectory(mem, t, p[2], p[3])
  {
    WalkExactly(mem, loc, root, loc[t], t);
  }

  lemma LookupNowhere(mem: Memory, loc: map<nat, seq<nat>>, root: nat, virt: nat)
    requires Tree(mem, loc, root) && forall t :: t in loc ==> loc[t] != PageTables.PageOf(virt)[..2]
    ensures Lookup(mem, root, virt) == Nothing
  {
    var p := PageTables.PageOf(virt)[..2];
    if Walk(mem, root, 0, p).Some? {
      WalkExactly(mem, loc, root, p, Walk(mem, root, 0, p).value);
    }
  }

  // ---------- linking a new table ----------

  function Blank(): (s: seq<Pte>)
    ensures |s| == ENTRIES && forall i :: 0 <= i < ENTRIES ==> s[i] == VACANT
  {
    seq(ENTRIES, i => VACANT)
  }

  /** Frame `c` is cleared and linked behind entry `x` of table `t`. */
  function Grow(mem: Memory, t: nat, x: nat, c: nat, flags: nat): Memory
    requires t in mem && x < |mem[t]| && t != c
  {
    mem[c := Blank()][t := mem[t][x := Pte(c, true, false, WithWritable(flags))]]
  }

  ghost predicate CanGrow(mem: Memory, loc: map<nat, seq<nat>>, root: nat, t: nat, x: nat, c: nat) {
    && Tree(mem, loc, root) && t in loc && |loc[t]| < 3 && t in mem && x < ENTRIES && x < |mem[t]| && c !in loc
    && !mem[t][x].present
  }

  lemma GrowTree(mem: Memory, loc: map<nat, seq<nat>>, root: nat, t: nat, x: nat, c: nat, flags: nat)
    requires CanGrow(mem, loc, root, t, x, c)
    ensures Tree(Grow(mem, t, x, c, flags), loc[c := loc[t] + [x]], root)
  {
    var mem', loc' := Grow(mem, t, x, c, flags), loc[c := loc[t] + [x]];
    assert NodeOk(mem, loc, t);
    forall u ensures NodeOk(mem', loc', u) {
      assert NodeOk(mem, loc, u);
    }
    forall u, y ensures ChildOk(mem', loc', u, y) {
      assert ChildOk(mem, loc, u, y);
    }
    forall u, y ensures StepKept(mem, mem', loc, [0, 0, 0, 0], u, y) {
    }
    forall u ensures ReachOk(mem', loc', root, u) {
      assert NodeOk(mem, loc, u) && ReachOk(mem, loc, root, u) && ReachOk(mem, loc, root, t);
      if u in loc {
        WalkKept(mem, mem', loc, root, [0, 0, 0, 0], root, loc[u]);
      } else if u == c {
        WalkKept(mem, mem', loc, root, [0, 0, 0, 0], root, loc[t]);
        WalkSnoc(mem', root, 0, loc[t], x);
      }
    }
  }

  /** A new table maps nothing, so no lookup changes. */
  lemma GrowLookup(mem: Memory, loc: map<nat, seq<nat>>, root: nat, t: nat, x: nat, c: nat, flags: nat, virt: nat)
    requires CanGrow(mem, loc, root, t, x, c)
    ensures Lookup(Grow(mem, t, x, c, flags), root, virt) == Lookup(mem, root, virt)
  {
    GrowTree(mem, loc, root, t, x, c, flags);
    var mem', loc' := Grow(mem, t, x, c, flags), loc[c := loc[t] + [x]];
    var p := PageTables.PageOf(virt);
    PageTables.PageDigits(virt);
    if u :| u in loc && loc[u] == p[..2] {
      LookupAt(mem, loc, root, virt, u);
      LookupAt(mem', loc', root, virt, u);
      assert NodeOk(mem, loc, u) && ChildOk(mem, loc, u, p[2]);
    } else {
      LookupNowhere(mem, loc, root, virt);
      if loc'[c] == p[..2] {
        LookupAt(mem', loc', root, virt, c);
      } else {
        LookupNowhere(mem', loc', root, virt);
      }
    }
  }

  // ---------- writing a leaf ----------

  function WithPte(mem: Memory, t: nat, x: nat, e: Pte): Memory
    requires t in mem && x < |mem[t]|
  {
    mem[t := mem[t][x := e]]
  }

  /** A 4 KB page is entered in a table of the last level: the lookups in that page change, and no others. */
  lemma WritePage(mem: Memory, loc: map<nat, seq<nat>>, root: nat, t: nat, virt: nat, e: Pte)
    requires Tree(mem, loc, root) && t in loc && loc[t] == PageTables.PageOf(virt)[..3] && e.present
    ensures PageTables.PageOf(virt)[3] < ENTRIES && t in mem && |mem[t]| == ENTRIES
    ensures Tree(WithPte(mem, t, PageTables.PageOf(virt)[3], e), loc, root)
    ensures PageWritten(mem, WithPte(mem, t, PageTables.PageOf(virt)[3], e), root, virt, e.frame, e.flags)
  {
    PageTables.PageDigits(virt);
    assert NodeOk(mem, loc, t);
    var x := PageTables.PageOf(virt)[3];
    var mem' := WithPte(mem, t, x, e);
    WriteLastTree(mem, loc, root, t, x, e);
    forall w
      ensures Lookup(mem', root, w) ==
        if PageTables.PageNumber(w) == PageTables.PageNumber(virt) then Page(e.frame, e.flags) else Lookup(mem, root, w)
    {
      WriteLastLookup(mem, loc, root, t, virt, e, w);
    }
  }

  ghost predicate PageWritten(mem: Memory, mem': Memory, root: nat, virt: nat, frame: nat, flags: nat) {
    forall w :: Lookup(mem', root, w) ==
      if PageTables.PageNumber(w) == PageTables.PageNumber(virt) then Page(frame, flags) else Lookup(mem, root, w)
  }

  lemma WriteLastTree(mem: Memory, loc: map<nat, seq<nat>>, root: nat, t: nat, x: nat, e: Pte)
    requires Tree(mem, loc, root) && t in loc && |loc[t]| == 3 && t in mem && x < |mem[t]|
    ensures Tree(WithPte(mem, t, x, e), loc, root)
  {
    var mem' := WithPte(mem, t, x, e);
    forall u ensures NodeOk(mem', loc, u) {
      assert NodeOk(mem, loc, u);
    }
    forall u, y ensures ChildOk(mem', loc, u, y) {
      assert ChildOk(mem, loc, u, y);
    }
    forall u, y ensures StepKept(mem, mem', loc, [0, 0, 0, 0], u, y) {
    }
    forall u ensures ReachOk(mem', loc, root, u) {
      assert NodeOk(mem, loc, u) && ReachOk(mem, loc, root, u);
      if u in loc {
        WalkKept(mem, mem', loc, root, [0, 0, 0, 0], root, loc[u]);
      }
    }
  }

  lemma WriteLastLookup(mem: Memory, loc: map<nat, seq<nat>>, root: nat, t: nat, virt: nat, e: Pte, w: nat)
    requires Tree(mem, loc, root) && t in loc && loc[t] == PageTables.PageOf(virt)[..3] && e.present && t in mem
    requires PageTables.PageOf(virt)[3] < |mem[t]|
    requires Tree(WithPte(mem, t, PageTables.PageOf(virt)[3], e), loc, root)
    ensures Lookup(WithPte(mem, t, PageTables.PageOf(virt)[3], e), root, w) ==
      if PageTables.PageNumber(w) == PageTables.PageNumber(virt) then Page(e.frame, e.flags) else Lookup(mem, root, w)
  {
    var p, q := PageTables.PageOf(virt), PageTables.PageOf(w);
    var mem' := WithPte(mem, t, p[3], e);
    PageTables.PageOfExact(w, virt);
    PageTables.PageDigits(w);
    ParentOf(mem, loc, root, t);
    if u :| u in loc && loc[u] == q[..2] {
      LookupAt(mem, loc, root, w, u);
      LookupAt(mem', loc, root, w, u);
      assert NodeOk(mem, loc, u) && ChildOk(mem, loc, u, q[2]);
      if Step(mem, u, q[2], 2).Some? && Step(mem, u, q[2], 2).value == t {
        assert p[..3] == q[..3];
        assert p == p[..3] + [p[3]] && q == q[..3] + [q[3]];
      } else if p == q {
        assert p[..3] == q[..2] + [q[2]];
        WalkExactly(mem, loc, root, q[..2], u);
        WalkExactly(mem, loc, root, p[..3], t);
        WalkSnoc(mem, root, 0, q[..2], q[2]);
      }
    } else {
      LookupNowhere(mem, loc, root, w);
      LookupNowhere(mem', loc, root, w);
      assert p[..3][..2] == p[..2];
    }
  }

  /** A table of the last level hangs below a directory in use. */
  lemma ParentOf(mem: Memory, loc: map<nat, seq<nat>>, root: nat, t: nat)
    requires Tree(mem, loc, root) && t in loc && |loc[t]| == 3
    ensures exists u :: u in loc && loc[u] == loc[t][..2]
  {
    assert ReachOk(mem, loc, root, t);
    WalkPrefix(mem, root, 0, loc[t], 2);
    WalkStays(mem, loc, root, root, loc[t][..2]);
    assert [] + loc[t][..2] == loc[t][..2];
  }

  lemma {:induction false} WalkPrefix(mem: Memory, s: nat, d: nat, path: seq<nat>, n: nat)
    requires Walk(mem, s, d, path).Some? && n <= |path|
    ensures Walk(mem, s, d, path[..n]).Some?
    decreases n
  {
    if n > 0 {
      assert path[..n][1..] == path[1..][..n - 1];
      WalkPrefix(mem, Step(mem, s, path[0], d).value, d + 1, path[1..], n - 1);
    }
  }

  // ---------- writing a 2 MB page ----------

  /** The number of the 2 MB region an address lies in. */
  function Region(virt: nat): nat {
    virt / HUGE_PAGE % 0x800_0000
  }

  /** Regions are the 2 MB pieces of the 48-bit address space. */
  lemma LowRegion(v: nat)
    ensures Region(v) == v % 0x1_0000_0000_0000 / 0x20_0000
  {
    var a, b := v / 0x1_0000_0000_0000, v % 0x1_0000_0000_0000;
    assert v / 0x20_0000 == a * 0x800_0000 + b / 0x20_0000;
    assert 0 <= b / 0x20_0000 < 0x800_0000;
  }

  /** Addresses share the first three indices exactly when they share the region. */
  lemma RegionExact(v: nat, w: nat)
    ensures PageTables.PageOf(v)[..3] == PageTables.PageOf(w)[..3] <==> Region(v) == Region(w)
  {
    var p, q := PageTables.PageOf(v), PageTables.PageOf(w);
    RegionDigits(v);
    RegionDigits(w);
    if Region(v) == Region(w) {
      PageTables.SameDigits(p[0], p[1], p[2], 0, q[0], q[1], q[2], 0);
      assert p[..3] == [p[0], p[1], p[2]] && q[..3] == [q[0], q[1], q[2]];
    }
    assert p[..3][0] == p[0] && p[..3][1] == p[1] && p[..3][2] == p[2];
    assert q[..3][0] == q[0] && q[..3][1] == q[1] && q[..3][2] == q[2];
  }

  lemma RegionDigits(v: nat)
    ensures var p := PageTables.PageOf(v);
      Region(v) == (p[0] * 512 + p[1]) * 512 + p[2] && p[0] < 512 && p[1] < 512 && p[2] < 512
  {
    var q := v / HUGE_PAGE;
    assert v / 0x4000_0000 == q / 512;
    assert v / 0x80_0000_0000 == q / 512 / 512;
  }

  /** The tables left in use when the entry at `cut` stops leading to a table. */
  ghost function Without(loc: map<nat, seq<nat>>, cut: seq<nat>): map<nat, seq<nat>> {
    map t | t in loc && loc[t] != cut :: loc[t]
  }

  lemma WriteHugeTree(mem: Memory, loc: map<nat, seq<nat>>, root: nat, t: nat, x: nat, e: Pte)
    requires Tree(mem, loc, root) && t in loc && |loc[t]| == 2 && t in mem && x < |mem[t]| && e.present && e.huge
    requires x < ENTRIES
    ensures Tree(WithPte(mem, t, x, e), Without(loc, loc[t] + [x]), root)
  {
    var cut := loc[t] + [x];
    var mem', loc' := WithPte(mem, t, x, e), Without(loc, cut);
    forall u ensures NodeOk(mem', loc', u) {
      assert NodeOk(mem, loc, u);
    }
    forall u, y ensures StepKept(mem, mem', loc, cut, u, y) {
    }
    forall u, y ensures ChildOk(mem', loc', u, y) {
      assert ChildOk(mem, loc, u, y);
      assert ReachOk(mem, loc, root, u) && ReachOk(mem, loc, root, t);
      assert u in loc && loc[u] + [y] == cut ==> loc[u] == cut[..2] == loc[t] && y == cut[2] == x;
    }
    forall u ensures ReachOk(mem', loc', root, u) {
      assert NodeOk(mem, loc, u) && ReachOk(mem, loc, root, u);
      if u in loc' {
        WalkKept(mem, mem', loc, root, cut, root, loc[u]);
      }
    }
  }

  ghost predicate HugeWritten(mem: Memory, mem': Memory, root: nat, virt: nat, frame: nat, flags: nat) {
    forall w :: Lookup(mem', root, w) == if Region(w) == Region(virt) then Huge(frame, flags) else Lookup(mem, root, w)
  }

  /** A 2 MB page is entered in a directory: the lookups in that region change, and no others. */
  lemma WriteHuge(mem: Memory, loc: map<nat, seq<nat>>, root: nat, t: nat, virt: nat, e: Pte)
    requires Tree(mem, loc, root) && t in loc && loc[t] == PageTables.PageOf(virt)[..2] && e.present && e.huge
    ensures PageTables.PageOf(virt)[2] < ENTRIES && t in mem && |mem[t]| == ENTRIES
    ensures var x := PageTables.PageOf(virt)[2]; Tree(WithPte(mem, t, x, e), Without(loc, loc[t] + [x]), root)
    ensures HugeWritten(mem, WithPte(mem, t, PageTables.PageOf(virt)[2], e), root, virt, e.frame, e.flags)
  {
    PageTables.PageDigits(virt);
    assert NodeOk(mem, loc, t);
    var x := PageTables.PageOf(virt)[2];
    WriteHugeTree(mem, loc, root, t, x, e);
    forall w
      ensures Lookup(WithPte(mem, t, x, e), root, w) ==
        if Region(w) == Region(virt) then Huge(e.frame, e.flags) else Lookup(mem, root, w)
    {
      WriteHugeLookup(mem, loc, root, t, virt, e, w);
    }
  }

  lemma WriteHugeLookup(mem: Memory, loc: map<nat, seq<nat>>, root: nat, t: nat, virt: nat, e: Pte, w: nat)
    requires Tree(mem, loc, root) && t in loc && loc[t] == PageTables.PageOf(virt)[..2] && e.present && e.huge
    requires t in mem && PageTables.PageOf(virt)[2] < |mem[t]|
    requires var x := PageTables.PageOf(virt)[2]; Tree(WithPte(mem, t, x, e), Without(loc, loc[t] + [x]), root)
    ensures Lookup(WithPte(mem, t, PageTables.PageOf(virt)[2], e), root, w) ==
      if Region(w) == Region(virt) then Huge(e.frame, e.flags) else Lookup(mem, root, w)
  {
    var p, q := PageTables.PageOf(virt), PageTables.PageOf(w);
    var mem', loc' := WithPte(mem, t, p[2], e), Without(loc, loc[t] + [p[2]]);
    RegionExact(w, virt);
    PageTables.PageDigits(w);
    assert p[..3] == p[..2] + [p[2]] && q[..3] == q[..2] + [q[2]];
    if u :| u in loc && loc[u] == q[..2] {
      LookupAt(mem, loc, root, w, u);
      LookupAt(mem', loc', root, w, u);
      assert NodeOk(mem, loc, u) && ChildOk(mem, loc, u, q[2]);
      assert ReachOk(mem, loc, root, u) && ReachOk(mem, loc, root, t);
      assert u == t <==> q[..2] == p[..2];
      assert u == t && q[2] == p[2] <==> q[..3] == p[..3] by {
        assert q[..3][..2] == q[..2] && p[..3][..2] == p[..2] && q[..3][2] == q[2] && p[..3][2] == p[2];
      }
    } else {
      LookupNowhere(mem, loc, root, w);
      LookupNowhere(mem', loc', root, w);
    }
  }

  // ---------- what the processor allows ----------

  /** A write passes if the entries of all levels allow it (Intel SDM volume 3A, section 4.6). */
  predicate Allows(mem: Memory, t: nat, d: nat, path: seq<nat>)
    decreases |path|
  {
    path != [] ==>
      && t in mem && path[0] < |mem[t]| && mem[t][path[0]].present && Writable(mem[t][path[0]].flags)
      && ((d == 2 && mem[t][path[0]].huge) || Allows(mem, mem[t][path[0]].frame, d + 1, path[1..]))
  }

  /** The entries above the third level always do. */
  lemma {:induction false} WalkAllows(mem: Memory, loc: map<nat, seq<nat>>, root: nat, t: nat, path: seq<nat>,
                                      rest: seq<nat>)
    requires Tree(mem, loc, root) && t in loc && |loc[t]| + |path| == 2
    ensures var u := Walk(mem, t, |loc[t]|, path);
      Allows(mem, t, |loc[t]|, path + rest) <==> u.Some? && Allows(mem, u.value, 2, rest)
    decreases |path|
  {
    if path == [] {
      assert path + rest == rest;
    } else {
      assert (path + rest)[0] == path[0] && (path + rest)[1..] == path[1..] + rest;
      assert ChildOk(mem, loc, t, path[0]) && NodeOk(mem, loc, t);
      if Step(mem, t, path[0], |loc[t]|).Some? {
        WalkAllows(mem, loc, root, Step(mem, t, path[0], |loc[t]|).value, path[1..], rest);
      }
    }
  }

  /** The processor lets a mapped address be written exactly if the flags of its own entry say so. */
  lemma WriteAllowed(mem: Memory, loc: map<nat, seq<nat>>, root: nat, virt: nat)
    requires Tree(mem, loc, root) && !Lookup(mem, root, virt).Nothing?
    ensures Allows(mem, root, 0, PageTables.PageOf(virt)) <==> Writable(Lookup(mem, root, virt).flags)
  {
    var p := PageTables.PageOf(virt);
    PageTables.PageDigits(virt);
    var a, b := p[..2], [p[2], p[3]];
    assert p == a + b && b[1..] == [p[3]] && [p[3]][1..] == [];
    WalkAllows(mem, loc, root, root, a, b);
    var u := Walk(mem, root, 0, a).value;
    WalkExactly(mem, loc, root, a, u);
    assert NodeOk(mem, loc, u) && ChildOk(mem, loc, u, p[2]);
    var e := mem[u][p[2]];
    if !e.huge {
      assert Allows(mem, u, 2, b) <==> e.present && Writable(e.flags) && Allows(mem, e.frame, 3, [p[3]]);
      LastAllows(mem, e.frame, p[3]);
    }
  }

  lemma LastAllows(mem: Memory, t: nat, x: nat)
    ensures Allows(mem, t, 3, [x]) <==> t in mem && x < |mem[t]| && mem[t][x].present && Writable(mem[t][x].flags)
  {
    assert [x][1..] == [];
    if t in mem && x < |mem[t]| {
      assert Allows(mem, mem[t][x].frame, 4, []);
    }
  }

  // ---------- counting tables ----------

  /** How many tables are missing on the way from table `t` at depth `d` along `path`. */
  function Missing(mem: Memory, t: nat, d: nat, path: seq<nat>): (n: nat)
    ensures n <= |path|
    ensures n == 0 <==> Walk(mem, t, d, path).Some?
    decreases |path|
  {
    if path == [] then 0
    else match Step(mem, t, path[0], d)
      case None => |path|
      case Some(c) => Missing(mem, c, d + 1, path[1..])
  }
}
