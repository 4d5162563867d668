/**
 Four-level page tables (Intel SDM volume 3A, section 4.5) in physical memory, and the invariant that
 the user halves of all address spaces are unshared trees.  `tabs` gives the 512 entries a frame holds
 when it is read as a table; only the frames listed in `loc` are in use as tables.

 `loc` records for each table frame the address space it serves and the path of indices that leads to
 it.  As every frame has one location and every location one frame, no table is shared, within a
 space or between spaces; and what a walk from the root finds is what is located there.
 */
module PageTables {
  import opened Basics

  const ENTRIES: nat := 512
  const USER_HALF: nat := 256

  /** The bits of an entry: frame number (bits 12 to 51), the flags vm.c looks at, and the rest. */
  datatype Entry = Entry(frame: nat, present: bool, writable: bool, user: bool, cow: bool, other: nat)

  const EMPTY: Entry := Entry(0, false, false, false, false, 0)

  /** The entry vm.c writes for a table: present, writable and user. */
  function Link(table: nat): Entry {
    Entry(table, true, true, true, false, 0)
  }

  type Tables = map<nat, seq<Entry>>

  datatype Loc = Loc(root: nat, path: seq<nat>)

  type Locs = map<nat, Loc>

  /** Indices from the root: the first one selects within the user half. */
  ghost predicate IsPath(path: seq<nat>) {
    |path| <= 4 && forall i :: 0 <= i < |path| ==> path[i] < (if i == 0 then USER_HALF else ENTRIES)
  }

  // ---------- walking the tables, as the processor and get_pte do ----------

  /** The table reached from table `t` along `path`. */
  function Walk(tabs: Tables, t: nat, path: seq<nat>): Option<nat>
    decreases |path|
  {
    if path == [] then Some(t)
    else if t in tabs && path[0] < |tabs[t]| && tabs[t][path[0]].present then
      Walk(tabs, tabs[t][path[0]].frame, path[1..])
    else None
  }

  /** The translation of a page: its present leaf entry. */
  function Lookup(tabs: Tables, root: nat, page: seq<nat>): Option<Entry>
    requires |page| == 4
  {
    match Walk(tabs, root, page[..3])
    case None => None
    case Some(t) => LeafEntry(tabs, t, page[3])
  }

  function LeafEntry(tabs: Tables, t: nat, l: nat): Option<Entry> {
    if t in tabs && l < |tabs[t]| && tabs[t][l].present then Some(tabs[t][l]) else None
  }

  /** Entry `x` of table `t` is present. */
  predicate Present(tabs: Tables, t: nat, x: nat) {
    t in tabs && x < |tabs[t]| && tabs[t][x].present
  }

  // ---------- the forest invariant ----------

  ghost predicate NodeAt(tabs: Tables, loc: Locs, t: nat) {
    t in loc ==>
      && t in tabs && |tabs[t]| == ENTRIES && |loc[t].path| <= 3 && IsPath(loc[t].path)
      && (loc[t].path == [] ==> loc[t].root == t)
  }

  /** A present entry of a directory points at the table located there, and lets user mode read and write. */
  ghost predicate ChildAt(tabs: Tables, loc: Locs, t: nat, x: nat) {
    t in loc && t in tabs && x < |tabs[t]| && |loc[t].path| < 3 && IsPath(loc[t].path + [x]) && tabs[t][x].present ==>
      && tabs[t][x].frame in loc && loc[tabs[t][x].frame] == Loc(loc[t].root, loc[t].path + [x])
      && tabs[t][x] == Link(tabs[t][x].frame)
  }

  /** Entry `x` of table `p` is present and points at `t`. */
  ghost predicate Points(tabs: Tables, p: nat, x: nat, t: nat) {
    p in tabs && x < |tabs[p]| && tabs[p][x].present && tabs[p][x].frame == t
  }

  /** A table other than a root is linked from the table one step above it. */
  ghost predicate ParentAt(tabs: Tables, loc: Locs, t: nat) {
    t in loc && loc[t].path != [] ==>
      var n := |loc[t].path| - 1;
      exists p :: p in loc && loc[p] == Loc(loc[t].root, loc[t].path[..n]) && Points(tabs, p, loc[t].path[n], t)
  }

  ghost predicate Injective(loc: Locs) {
    forall t, u :: t in loc && u in loc && loc[t] == loc[u] ==> t == u
  }

  /** The user-half tables of all spaces form disjoint, unshared trees. */
  ghost predicate Forest(tabs: Tables, loc: Locs) {
    && (forall t :: NodeAt(tabs, loc, t))
    && (forall t, x :: ChildAt(tabs, loc, t, x))
    && (forall t :: ParentAt(tabs, loc, t))
    && Injective(loc)
  }

  ghost predicate IsRoot(loc: Locs, r: nat) {
    r in loc && loc[r] == Loc(r, [])
  }

  // ---------- walks and locations ----------

  /** A walk ends at the table located at its path. */
  lemma {:induction false} WalkIsLoc(tabs: Tables, loc: Locs, t: nat, path: seq<nat>)
    requires Forest(tabs, loc) && t in loc && |loc[t].path + path| <= 3 && IsPath(loc[t].path + path)
    requires Walk(tabs, t, path).Some?
    ensures var u := Walk(tabs, t, path).value; u in loc && loc[u] == Loc(loc[t].root, loc[t].path + path)
    decreases |path|
  {
    if path == [] {
      assert loc[t].path + path == loc[t].path;
    } else {
      var x := path[0];
      assert NodeAt(tabs, loc, t) && ChildAt(tabs, loc, t, x);
      var whole := loc[t].path + path;
      assert loc[t].path + [x] == whole[..|loc[t].path| + 1];
      var u := tabs[t][x].frame;
      assert loc[u].path + path[1..] == whole;
      WalkIsLoc(tabs, loc, u, path[1..]);
    }
  }

  /** Every located table has an ancestor at each prefix of its path, from which a walk leads to it. */
  lemma {:induction false} Ancestor(tabs: Tables, loc: Locs, t: nat, n: nat) returns (a: nat)
    requires Forest(tabs, loc) && t in loc && n <= |loc[t].path|
    ensures a in loc && loc[a] == Loc(loc[t].root, loc[t].path[..n]) && Walk(tabs, a, loc[t].path[n..]) == Some(t)
    decreases |loc[t].path| - n
  {
    var path := loc[t].path;
    if n == |path| {
      assert path[..n] == path && path[n..] == [];
      return t;
    }
    var b := Ancestor(tabs, loc, t, n + 1);
    assert ParentAt(tabs, loc, b);
    assert loc[b].path[..n] == path[..n] && loc[b].path[n] == path[n];
    a :| a in loc && loc[a] == Loc(loc[t].root, path[..n]) && Points(tabs, a, path[n], b);
    assert path[n..][1..] == path[n + 1..];
  }

  /** From a root, a walk finds a table exactly if one is located at the end of the path. */
  lemma WalkExactly(tabs: Tables, loc: Locs, r: nat, path: seq<nat>, t: nat)
    requires Forest(tabs, loc) && IsRoot(loc, r) && |path| <= 3 && IsPath(path)
    ensures Walk(tabs, r, path) == Some(t) <==> t in loc && loc[t] == Loc(r, path)
  {
    assert [] + path == path;
    if Walk(tabs, r, path).Some? {
      WalkIsLoc(tabs, loc, r, path);
    }
    if t in loc && loc[t] == Loc(r, path) {
      var a := Ancestor(tabs, loc, t, 0);
      assert path[..0] == [] && path[0..] == path;
      assert NodeAt(tabs, loc, a);
    }
  }

  /** The translation of a page is the entry of the leaf table located above it. */
  lemma LookupAt(tabs: Tables, loc: Locs, r: nat, page: seq<nat>, t: nat)
    requires Forest(tabs, loc) && IsRoot(loc, r) && |page| == 4 && IsPath(page)
    requires t in loc && loc[t] == Loc(r, page[..3])
    ensures Lookup(tabs, r, page) == LeafEntry(tabs, t, page[3])
  {
    WalkExactly(tabs, loc, r, page[..3], t);
  }

  /** Where no leaf table is located, nothing is mapped. */
  lemma LookupNowhere(tabs: Tables, loc: Locs, r: nat, page: seq<nat>)
    requires Forest(tabs, loc) && IsRoot(loc, r) && |page| == 4 && IsPath(page)
    requires forall t :: t in loc ==> loc[t] != Loc(r, page[..3])
    ensures Lookup(tabs, r, page) == None
  {
    var w := Walk(tabs, r, page[..3]);
    if w.Some? {
      WalkExactly(tabs, loc, r, page[..3], w.value);
    }
  }

  /** Two forests with the same locations translate alike where their leaf tables agree. */
  lemma SameLookup(tabs: Tables, tabs': Tables, loc: Locs, r: nat, page: seq<nat>)
    requires Forest(tabs, loc) && Forest(tabs', loc) && IsRoot(loc, r) && |page| == 4 && IsPath(page)
    requires forall t :: t in loc && loc[t] == Loc(r, page[..3]) ==>
      LeafEntry(tabs, t, page[3]) == LeafEntry(tabs', t, page[3])
    ensures Lookup(tabs, r, page) == Lookup(tabs', r, page)
  {
    if t :| t in loc && loc[t] == Loc(r, page[..3]) {
      LookupAt(tabs, loc, r, page, t);
      LookupAt(tabs', loc, r, page, t);
    } else {
      LookupNowhere(tabs, loc, r, page);
      LookupNowhere(tabs', loc, r, page);
    }
  }

  // ---------- changes ----------

  function WithEntry(tabs: Tables, t: nat, x: nat, e: Entry): Tables
    requires t in tabs && x < |tabs[t]|
  {
    tabs[t := tabs[t][x := e]]
  }

  /** Writing an entry of a leaf table keeps the forest. */
  lemma WriteLeafForest(tabs: Tables, loc: Locs, t: nat, l: nat, e: Entry)
    requires Forest(tabs, loc) && t in loc && |loc[t].path| == 3 && l < ENTRIES
    ensures t in tabs && |tabs[t]| == ENTRIES && Forest(WithEntry(tabs, t, l, e), loc)
  {
    assert NodeAt(tabs, loc, t);
    var r := WithEntry(tabs, t, l, e);
    forall u ensures NodeAt(r, loc, u) {
      assert NodeAt(tabs, loc, u);
    }
    forall u, x ensures ChildAt(r, loc, u, x) {
      assert ChildAt(tabs, loc, u, x);
    }
    forall u ensures ParentAt(r, loc, u) {
      assert ParentAt(tabs, loc, u);
      if u in loc && loc[u].path != [] {
        var n := |loc[u].path| - 1;
        var p :| p in loc && loc[p] == Loc(loc[u].root, loc[u].path[..n]) && Points(tabs, p, loc[u].path[n], u);
        assert NodeAt(tabs, loc, u) && p != t;
        assert Points(r, p, loc[u].path[n], u);
      }
    }
  }

  /** Writing a leaf entry changes the translation of one page of one space and no other. */
  lemma WriteLeafLookup(tabs: Tables, loc: Locs, t: nat, l: nat, e: Entry, r: nat, page: seq<nat>)
    requires Forest(tabs, loc) && t in loc && |loc[t].path| == 3 && l < ENTRIES
    requires IsRoot(loc, r) && |page| == 4 && IsPath(page)
    ensures t in tabs && |tabs[t]| == ENTRIES
    ensures Lookup(WithEntry(tabs, t, l, e), r, page) ==
      if Loc(r, page) == Loc(loc[t].root, loc[t].path + [l]) then (if e.present then Some(e) else None)
      else Lookup(tabs, r, page)
  {
    WriteLeafForest(tabs, loc, t, l, e);
    var tabs' := WithEntry(tabs, t, l, e);
    assert page == page[..3] + [page[3]];
    if Loc(r, page) == Loc(loc[t].root, loc[t].path + [l]) {
      assert page[..3] == loc[t].path;
      LookupAt(tabs', loc, r, page, t);
    } else {
      SameLookup(tabs, tabs', loc, r, page);
    }
  }

  /** A new empty table linked at an absent directory entry. */
  function Grow(tabs: Tables, t: nat, x: nat, c: nat): Tables
    requires t in tabs && x < |tabs[t]| && c != t
  {
    WithEntry(tabs[c := seq(ENTRIES, i => EMPTY)], t, x, Link(c))
  }

  function GrowLoc(loc: Locs, t: nat, x: nat, c: nat): Locs
    requires t in loc
  {
    loc[c := Loc(loc[t].root, loc[t].path + [x])]
  }

  ghost predicate CanGrow(tabs: Tables, loc: Locs, t: nat, x: nat, c: nat) {
    && Forest(tabs, loc) && t in loc && t in tabs && x < |tabs[t]| && |loc[t].path| < 3 && IsPath(loc[t].path + [x])
    && !tabs[t][x].present && c !in loc
  }

  lemma GrowForest(tabs: Tables, loc: Locs, t: nat, x: nat, c: nat)
    requires CanGrow(tabs, loc, t, x, c)
    ensures Forest(Grow(tabs, t, x, c), GrowLoc(loc, t, x, c))
  {
    var r, l := Grow(tabs, t, x, c), GrowLoc(loc, t, x, c);
    forall u ensures NodeAt(r, l, u) {
      assert NodeAt(tabs, loc, u);
    }
    forall u, y ensures ChildAt(r, l, u, y) {
      assert ChildAt(tabs, loc, u, y) && NodeAt(tabs, loc, u);
    }
    forall u ensures ParentAt(r, l, u) {
      GrowParent(tabs, loc, t, x, c, u);
    }
    AbsentIsEmpty(tabs, loc, t, x);
    assert Injective(l);
  }

  /** Below an absent directory entry no table is located. */
  lemma AbsentIsEmpty(tabs: Tables, loc: Locs, t: nat, x: nat)
    requires Forest(tabs, loc) && t in loc && t in tabs && x < |tabs[t]| && !tabs[t][x].present
    ensures forall w :: w in loc ==> loc[w] != Loc(loc[t].root, loc[t].path + [x])
  {
    forall w | w in loc ensures loc[w] != Loc(loc[t].root, loc[t].path + [x]) {
      assert ParentAt(tabs, loc, w);
      assert (loc[t].path + [x])[..|loc[t].path|] == loc[t].path;
    }
  }

  lemma GrowParent(tabs: Tables, loc: Locs, t: nat, x: nat, c: nat, u: nat)
    requires CanGrow(tabs, loc, t, x, c)
    ensures ParentAt(Grow(tabs, t, x, c), GrowLoc(loc, t, x, c), u)
  {
    var r, l := Grow(tabs, t, x, c), GrowLoc(loc, t, x, c);
    if u == c {
      assert Points(r, t, x, c);
      assert (loc[t].path + [x])[..|loc[t].path|] == loc[t].path;
      assert t in l && l[t] == loc[t];
    } else if u in loc && loc[u].path != [] {
      assert ParentAt(tabs, loc, u);
      var n := |loc[u].path| - 1;
      var p :| p in loc && loc[p] == Loc(loc[u].root, loc[u].path[..n]) && Points(tabs, p, loc[u].path[n], u);
      assert Points(r, p, loc[u].path[n], u) && p in l && l[p] == loc[p];
    }
  }

  /** Linking a new empty table changes no translation. */
  lemma GrowLookup(tabs: Tables, loc: Locs, t: nat, x: nat, c: nat, r: nat, page: seq<nat>)
    requires CanGrow(tabs, loc, t, x, c)
    requires IsRoot(loc, r) && |page| == 4 && IsPath(page)
    ensures Lookup(Grow(tabs, t, x, c), r, page) == Lookup(tabs, r, page)
  {
    GrowForest(tabs, loc, t, x, c);
    var tabs', loc' := Grow(tabs, t, x, c), GrowLoc(loc, t, x, c);
    if u :| u in loc && loc[u] == Loc(r, page[..3]) {
      LookupAt(tabs, loc, r, page, u);
      LookupAt(tabs', loc', r, page, u);
      assert NodeAt(tabs, loc, u);
    } else {
      LookupNowhere(tabs, loc, r, page);
      if loc'[c] == Loc(r, page[..3]) {
        LookupAt(tabs', loc', r, page, c);
      } else {
        LookupNowhere(tabs', loc', r, page);
      }
    }
  }

  // ---------- what the processor allows ----------

  /** An entry lets a user-mode read or, if `write`, a user-mode write pass. */
  predicate Lets(e: Entry, write: bool) {
    e.present && e.user && (write ==> e.writable)
  }

  /** The processor allows the access if the entries of all levels do (Intel SDM volume 3A, section 4.6). */
  predicate Allowed(tabs: Tables, t: nat, path: seq<nat>, write: bool)
    decreases |path|
  {
    path != [] ==>
      && t in tabs && path[0] < |tabs[t]| && Lets(tabs[t][path[0]], write)
      && Allowed(tabs, tabs[t][path[0]].frame, path[1..], write)
  }

  /** In a forest the leaf decides. */
  lemma {:induction false} LeafDecides(tabs: Tables, loc: Locs, t: nat, path: seq<nat>, write: bool)
    requires Forest(tabs, loc) && t in loc && path != [] && |loc[t].path + path| == 4 && IsPath(loc[t].path + path)
    ensures var w, n := Walk(tabs, t, path[..|path| - 1]), |path| - 1;
      Allowed(tabs, t, path, write) <==>
        w.Some? && LeafEntry(tabs, w.value, path[n]).Some? && Lets(LeafEntry(tabs, w.value, path[n]).value, write)
    decreases |path|
  {
    assert NodeAt(tabs, loc, t);
    assert (loc[t].path + path)[|loc[t].path|] == path[0];
    if |path| == 1 {
      assert path[1..] == [] && path[..0] == [];
    } else if tabs[t][path[0]].present {
      var e := tabs[t][path[0]];
      assert ChildAt(tabs, loc, t, path[0]) by {
        assert (loc[t].path + path)[..|loc[t].path| + 1] == loc[t].path + [path[0]];
      }
      assert loc[t].path + [path[0]] + path[1..] == loc[t].path + path;
      LeafDecides(tabs, loc, e.frame, path[1..], write);
      assert path[..|path| - 1][1..] == path[1..][..|path| - 2];
    }
  }

  /** User mode may read or write a page exactly if its leaf entry says so. */
  lemma AccessExactly(tabs: Tables, loc: Locs, r: nat, page: seq<nat>, write: bool)
    requires Forest(tabs, loc) && IsRoot(loc, r) && |page| == 4 && IsPath(page)
    ensures Allowed(tabs, r, page, write) <==>
      Lookup(tabs, r, page).Some? && Lets(Lookup(tabs, r, page).value, write)
  {
    assert [] + page == page;
    LeafDecides(tabs, loc, r, page, write);
  }

  // ---------- addresses ----------

  /** The four table indices of a 64-bit virtual address. */
  function PageOf(virt: nat): (page: seq<nat>)
    ensures |page| == 4
  {
    [virt / 0x80_0000_0000 % 512, virt / 0x4000_0000 % 512, virt / 0x20_0000 % 512, virt / 0x1000 % 512]
  }

  function PageNumber(virt: nat): nat {
    virt / 0x1000 % 0x10_0000_0000
  }

  /** The indices are the digits, in base 512, of the low 36 bits of the page number. */
  lemma PageDigits(virt: nat)
    ensures var p, n := PageOf(virt), PageNumber(virt);
      n == ((p[0] * 512 + p[1]) * 512 + p[2]) * 512 + p[3] && forall i :: 0 <= i < 4 ==> p[i] < 512
  {
    var q := virt / 0x1000;
    assert virt / 0x20_0000 == q / 512;
    assert virt / 0x4000_0000 == q / 512 / 512;
    assert virt / 0x80_0000_0000 == q / 512 / 512 / 512;
    Digits(q);
  }

  lemma Digits(q: nat)
    ensures q % 0x10_0000_0000 ==
      ((q / 512 / 512 / 512 % 512 * 512 + q / 512 / 512 % 512) * 512 + q / 512 % 512) * 512 + q % 512
  {
    var a, b, c, d := q / 512 / 512 / 512, q / 512 / 512 % 512, q / 512 % 512, q % 512;
    assert q == ((a * 512 + b) * 512 + c) * 512 + d;
    assert a == a / 512 * 512 + a % 512;
  }

  lemma SameDigits(a: nat, b: nat, c: nat, d: nat, a': nat, b': nat, c': nat, d': nat)
    requires a < 512 && b < 512 && c < 512 && d < 512 && a' < 512 && b' < 512 && c' < 512 && d' < 512
    requires ((a * 512 + b) * 512 + c) * 512 + d == ((a' * 512 + b') * 512 + c') * 512 + d'
    ensures a == a' && b == b' && c == c' && d == d'
  {
  }

  /** Pages are the 4 KB pieces of the 48-bit address space. */
  lemma LowPage(v: nat)
    ensures PageNumber(v) == v % 0x1_0000_0000_0000 / 0x1000
  {
    var a, b := v / 0x1_0000_0000_0000, v % 0x1_0000_0000_0000;
    assert v / 0x1000 == a * 0x10_0000_0000 + b / 0x1000;
    assert 0 <= b / 0x1000 < 0x10_0000_0000;
  }

  /** Two addresses select the same leaf entry exactly when they lie in the same page of the 48-bit space. */
  lemma PageOfExact(v: nat, w: nat)
    ensures PageOf(v) == PageOf(w) <==> PageNumber(v) == PageNumber(w)
  {
    var p, q := PageOf(v), PageOf(w);
    PageDigits(v);
    PageDigits(w);
    if PageNumber(v) == PageNumber(w) {
      SameDigits(p[0], p[1], p[2], p[3], q[0], q[1], q[2], q[3]);
      assert p == q;
    }
  }

  /** The user half is the lower half of the 48-bit address space. */
  lemma UserHalf(v: nat)
    ensures IsPath(PageOf(v)) <==> v % 0x1_0000_0000_0000 < 0x8000_0000_0000
  {
    TopIndex(v);
    var p := PageOf(v);
    PageDigits(v);
    if p[0] < USER_HALF {
      assert forall i :: 0 <= i < |p| ==> p[i] < (if i == 0 then USER_HALF else ENTRIES);
    }
  }

  lemma TopIndex(v: nat)
    ensures PageOf(v)[0] < USER_HALF <==> v % 0x1_0000_0000_0000 < 0x8000_0000_0000
  {
    var a, b := v / 0x1_0000_0000_0000, v % 0x1_0000_0000_0000;
    assert v / 0x80_0000_0000 == a * 512 + b / 0x80_0000_0000;
    assert 0 <= b / 0x80_0000_0000 < 512;
  }

  /** How many tables are missing on the way from `t` along `path`. */
  function Missing(tabs: Tables, t: nat, path: seq<nat>): (n: nat)
    ensures n <= |path|
    decreases |path|
  {
    if path == [] then 0
    else if t in tabs && path[0] < |tabs[t]| && tabs[t][path[0]].present then
      Missing(tabs, tabs[t][path[0]].frame, path[1..])
    else |path|
  }
}
