/**
 What `vm_clone_space` builds: a mirror image of the tables of one space, with every user-writable
 page turned into a copy-on-write page on both sides.

 While the image is being built, `m` maps each table copied so far to its copy and `w` maps back.
 */
module Cloning {
  import opened Basics
  import opened PageTables
  import opened Pmm
  import opened Sizes
  import opened Spaces

  /** What becomes of a present leaf entry: user-writable pages lose the write flag and gain the copy-on-write flag. */
  function Cow(e: Entry): (r: Entry)
    ensures r.frame == e.frame && r.present == e.present && r.user == e.user && r.other == e.other
    ensures !(r.present && r.user && r.writable)
    ensures r.cow <==> e.cow || (e.present && e.user && e.writable)
    ensures !(e.present && e.user && e.writable) ==> r == e
  {
    if e.present && e.writable && e.user then e.(writable := false, cow := true) else e
  }

  /** Which table is a copy of which, in one direction or the other. */
  type Copies = map<nat, nat>

  // ---------- reference counts ----------

  /** The count of a frame after `vm_clone_space` met it in one user-writable entry. */
  function CloneCount(c: int): (r: int)
    requires 0 <= c < REF_LIMIT
    ensures 0 <= r < REF_LIMIT
  {
    if c == 1 then Inc(Inc(c)) else Inc(c)
  }

  /** The count after `n` such entries. */
  function Shares(c: int, n: nat): (r: int)
    requires 0 <= c < REF_LIMIT
    ensures 0 <= r < REF_LIMIT
  {
    if n == 0 then c else CloneCount(Shares(c, n - 1))
  }

  lemma {:induction false} SharesAdd(c: int, a: nat, b: nat)
    requires 0 <= c < REF_LIMIT
    ensures Shares(Shares(c, a), b) == Shares(c, a + b)
    decreases b
  {
    if b > 0 {
      SharesAdd(c, a, b - 1);
    }
  }

  /** The place of a count in the cycle 0, 1, 3, 4, ... of sharing, which passes over 2. */
  function Place(c: int): int {
    if c <= 1 then c else c - 1
  }

  /** The count at a place. */
  function CountAt(p: int): int {
    if p <= 1 then p else p + 1
  }

  /** The count after `n` user-writable entries, without counting through them. */
  function Closed(c: int, n: nat): int {
    if n == 0 then c else CountAt((Place(c) + n) % (REF_LIMIT - 1))
  }

  lemma {:induction false} SharesExactly(c: int, n: nat)
    requires 0 <= c < REF_LIMIT
    ensures Shares(c, n) == Closed(c, n)
  {
    if n > 0 {
      var a, m := Place(c) + n - 1, REF_LIMIT - 1;
      SharesExactly(c, n - 1);
      NextPlace(a, m);
      if n == 1 {
        Remainder(a, 0, a, m);
        NextCount(c);
      } else {
        NextCount(CountAt(a % m));
      }
    }
  }

  /** Sharing moves a count on by one place. */
  lemma NextCount(v: int)
    requires 0 <= v < REF_LIMIT
    ensures CloneCount(v) == CountAt(if Place(v) == REF_LIMIT - 2 then 0 else Place(v) + 1)
  {
  }

  lemma NextPlace(a: int, m: int)
    requires 0 <= a && m > 1
    ensures (a + 1) % m == if a % m == m - 1 then 0 else a % m + 1
  {
    var q, r := a / m, a % m;
    assert a == q * m + r;
    if r == m - 1 {
      assert a + 1 == (q + 1) * m;
      Remainder(a + 1, q + 1, 0, m);
    } else {
      Remainder(a + 1, q, r + 1, m);
    }
  }

  lemma Remainder(a: int, q: int, r: int, m: int)
    requires m > 0 && a == q * m + r && 0 <= r < m
    ensures a % m == r
  {
    var d := a / m - q;
    assert d > 0 ==> d * m >= m;
    assert d < 0 ==> d * m <= -m;
    assert d * m == r - a % m;
  }

  /** While the count does not wrap, each entry adds one, and one more is added where the count was 1. */
  lemma ClosedSmall(c: int, n: nat)
    requires 0 <= c && c + n + 1 < REF_LIMIT
    ensures Closed(c, n) == c + n + if (c == 1 && n >= 1) || (c == 0 && n >= 2) then 1 else 0
  {
    Remainder(Place(c) + n, 0, Place(c) + n, REF_LIMIT - 1);
  }

  /** A user-writable entry for frame `f`. */
  predicate SharesFrame(e: Entry, f: nat) {
    e.present && e.writable && e.user && e.frame == f
  }

  /** The user-writable entries for frame `f` in the tables `ts`. */
  ghost function ShareSlots(tabs: Tables, ts: set<nat>, f: nat): set<(nat, nat)> {
    set t: nat, l: nat | t in ts && l < ENTRIES && t in tabs && l < |tabs[t]| && SharesFrame(tabs[t][l], f) :: (t, l)
  }

  /** The same in the first `n` entries of one table. */
  ghost function PartShares(es: seq<Entry>, t: nat, n: nat, f: nat): set<(nat, nat)> {
    set l: nat | l < n && l < |es| && SharesFrame(es[l], f) :: (t, l)
  }

  lemma PartSharesStep(es: seq<Entry>, t: nat, n: nat, f: nat)
    requires n < |es|
    ensures |PartShares(es, t, n + 1, f)| == |PartShares(es, t, n, f)| + if SharesFrame(es[n], f) then 1 else 0
  {
    var a, b := PartShares(es, t, n, f), PartShares(es, t, n + 1, f);
    var c := if SharesFrame(es[n], f) then {(t, n)} else {};
    forall p ensures p in b <==> p in a + c {
      PartSharesAt(es, t, n, f, p);
      PartSharesAt(es, t, n + 1, f, p);
      assert p == (t, n) <==> p.0 == t && p.1 == n;
    }
    PartSharesAt(es, t, n, f, (t, n));
    UnionSize(a, c, b);
  }

  lemma PartSharesAt(es: seq<Entry>, t: nat, n: nat, f: nat, p: (nat, nat))
    ensures p in PartShares(es, t, n, f) <==> p.0 == t && p.1 < n && p.1 < |es| && SharesFrame(es[p.1], f)
  {
  }

  /** The counts after the user-writable pages of the leaf tables `ts`, as they were in `tabs`, were shared. */
  ghost predicate Counted(tabs: Tables, ts: set<nat>, c: seq<Count>, c': seq<Count>) {
    |c'| == |c| && forall p :: 0 <= p < |c| ==> c'[p] == Shares(c[p], |ShareSlots(tabs, ts, p)|)
  }

  lemma CountedNone(tabs: Tables, c: seq<Count>)
    ensures Counted(tabs, {}, c, c)
  {
    forall p: nat | p < |c| ensures c[p] == Shares(c[p], |ShareSlots(tabs, {}, p)|) {
      assert ShareSlots(tabs, {}, p) == {};
    }
  }

  lemma CountedOne(tabs: Tables, t: nat, c: seq<Count>, c': seq<Count>)
    requires t in tabs && |tabs[t]| == ENTRIES && |c'| == |c|
    requires forall p: nat :: p < |c| ==> c'[p] == Shares(c[p], |PartShares(tabs[t], t, ENTRIES, p)|)
    ensures Counted(tabs, {t}, c, c')
  {
    forall p: nat | p < |c| ensures c'[p] == Shares(c[p], |ShareSlots(tabs, {t}, p)|) {
      assert ShareSlots(tabs, {t}, p) == PartShares(tabs[t], t, ENTRIES, p);
    }
  }

  /** Sharing the pages of further tables, which the first ones left alone. */
  lemma CountedMore(tabs: Tables, tabs1: Tables, t1: set<nat>, t2: set<nat>, c: seq<Count>, c1: seq<Count>,
                    c2: seq<Count>)
    requires Counted(tabs, t1, c, c1) && Counted(tabs1, t2, c1, c2) && t1 !! t2
    requires forall g :: g in t2 ==> g in tabs && g in tabs1 && tabs1[g] == tabs[g]
    ensures Counted(tabs, t1 + t2, c, c2)
  {
    forall p: nat | p < |c| ensures c2[p] == Shares(c[p], |ShareSlots(tabs, t1 + t2, p)|) {
      var a, b := ShareSlots(tabs, t1, p), ShareSlots(tabs, t2, p);
      assert ShareSlots(tabs1, t2, p) == b;
      UnionSize(a, b, ShareSlots(tabs, t1 + t2, p));
      SharesAdd(c[p], |a|, |b|);
    }
  }

  /** What was in other frames does not matter. */
  lemma CountedBase(tabs: Tables, tabs1: Tables, ts: set<nat>, c: seq<Count>, c': seq<Count>)
    requires Counted(tabs1, ts, c, c') && forall g :: g in ts ==> g in tabs && g in tabs1 && tabs1[g] == tabs[g]
    ensures Counted(tabs, ts, c, c')
  {
    forall p: nat | p < |c| ensures c'[p] == Shares(c[p], |ShareSlots(tabs, ts, p)|) {
      assert ShareSlots(tabs1, ts, p) == ShareSlots(tabs, ts, p);
    }
  }

  // ---------- counting tables ----------

  /** The tables of space `r` at or below `path`, and those through an entry with an index below `x`. */
  ghost function SubTables(loc: Locs, r: nat, path: seq<nat>): set<nat> {
    set g | g in loc && SubTable(loc, g, r, path)
  }

  ghost function PartTables(loc: Locs, r: nat, path: seq<nat>, x: nat): set<nat> {
    set g | g in loc && PartTable(loc, g, r, path, x)
  }

  lemma PartTablesStep(tabs: Tables, loc: Locs, r: nat, path: seq<nat>, x: nat)
    ensures |PartTables(loc, r, path, x + 1)| == |PartTables(loc, r, path, x)| + |SubTables(loc, r, path + [x])|
  {
    forall g: nat | g in loc
      ensures PartTable(loc, g, r, path, x + 1) <==> PartTable(loc, g, r, path, x) || SubTable(loc, g, r, path + [x])
      ensures !(PartTable(loc, g, r, path, x) && SubTable(loc, g, r, path + [x]))
    {
      PartStep(tabs, loc, g, r, path, x);
      ThroughOnce(path, x, loc[g].path);
    }
    UnionSize(PartTables(loc, r, path, x), SubTables(loc, r, path + [x]), PartTables(loc, r, path, x + 1));
  }

  lemma PartTablesGrow(loc: Locs, r: nat, path: seq<nat>, x: nat, y: nat)
    requires x <= y
    ensures |PartTables(loc, r, path, x)| <= |PartTables(loc, r, path, y)|
  {
    SubsetSize(PartTables(loc, r, path, x), PartTables(loc, r, path, y));
  }

  lemma NoTablesBelow(tabs: Tables, loc: Locs, t: nat, x: nat)
    requires Forest(tabs, loc) && t in loc && |loc[t].path| < 3 && t in tabs && x < |tabs[t]| && !tabs[t][x].present
    ensures SubTables(loc, loc[t].root, loc[t].path + [x]) == {}
  {
    forall f: nat ensures !SubTable(loc, f, loc[t].root, loc[t].path + [x]) {
      NothingBelow(tabs, loc, t, x, f);
    }
  }

  lemma SubTablesWhole(tabs: Tables, loc: Locs, t: nat)
    requires Forest(tabs, loc) && t in loc
    ensures |SubTables(loc, loc[t].root, loc[t].path)| ==
      1 + |PartTables(loc, loc[t].root, loc[t].path, Limit(loc[t].path))|
    ensures |loc[t].path| == 3 ==> |SubTables(loc, loc[t].root, loc[t].path)| == 1
  {
    var r, path, limit := loc[t].root, loc[t].path, Limit(loc[t].path);
    forall f: nat ensures SubTable(loc, f, r, path) <==> f == t || PartTable(loc, f, r, path, limit) {
      PartWhole(tabs, loc, t, f, limit);
    }
    UnionSize({t}, PartTables(loc, r, path, limit), SubTables(loc, r, path));
    if |path| == 3 {
      LeafSub(tabs, loc, t);
      assert SubTables(loc, r, path) == {t};
    }
  }

  function Limit(path: seq<nat>): nat {
    if path == [] then USER_HALF else ENTRIES
  }

  /** `e'` is the copy of entry `e`, with the tables below it copied as `m` says. */
  ghost predicate EntryCopied(e: Entry, e': Entry, m: Copies, leaf: bool) {
    if !e.present then e' == EMPTY
    else if leaf then e' == Cow(e)
    else e.frame in m && e' == Link(m[e.frame])
  }

  /** Table `m[s]` is the copy of table `s` as it was in `tabs`. */
  ghost predicate CopyAt(tabs: Tables, tabs': Tables, loc: Locs, m: Copies, s: nat) {
    s in m ==>
      && s in loc && s in tabs && |tabs[s]| == ENTRIES && m[s] in tabs' && |tabs'[m[s]]| == ENTRIES
      && forall y :: 0 <= y < Limit(loc[s].path) ==> EntryCopied(tabs[s][y], tabs'[m[s]][y], m, |loc[s].path| == 3)
  }

  ghost predicate Paired(m: Copies, w: Copies) {
    && (forall s :: s in m ==> m[s] in w && w[m[s]] == s)
    && (forall d :: d in w ==> w[d] in m && m[w[d]] == d)
  }

  ghost predicate Copied(tabs: Tables, tabs': Tables, loc: Locs, m: Copies, w: Copies) {
    && Paired(m, w)
    && (forall s :: CopyAt(tabs, tabs', loc, m, s))
  }

  /** The copies are frames that were free and no longer are. */
  ghost predicate Fresh(w: Copies, free: set<int>, free': set<int>) {
    free' <= free && forall d :: d in w ==> d in free && d !in free'
  }

  /** The leaf tables of space `r` at or below `path`, and those through an entry with an index below `x`. */
  ghost function LeafTables(loc: Locs, r: nat, path: seq<nat>): set<nat> {
    set g | g in loc && |loc[g].path| == 3 && SubTable(loc, g, r, path)
  }

  ghost function PartLeafTables(loc: Locs, r: nat, path: seq<nat>, x: nat): set<nat> {
    set g | g in loc && |loc[g].path| == 3 && PartTable(loc, g, r, path, x)
  }

  lemma PartLeafTablesStep(loc: Locs, r: nat, path: seq<nat>, x: nat)
    ensures PartLeafTables(loc, r, path, x + 1) == PartLeafTables(loc, r, path, x) + LeafTables(loc, r, path + [x])
    ensures PartLeafTables(loc, r, path, x) <= LeafTables(loc, r, path)
    ensures LeafTables(loc, r, path + [x]) <= LeafTables(loc, r, path)
  {
    forall g | g in loc
      ensures Through(path, x + 1, loc[g].path) <==> Through(path, x, loc[g].path) || path + [x] <= loc[g].path
    {
      ThroughStep(path, x, loc[g].path);
    }
    forall g | g in loc && path + [x] <= loc[g].path ensures path <= loc[g].path {
      assert path == (path + [x])[..|path|];
    }
  }

  // ---------- how far the free frames go ----------

  /**
   The frames it takes to get from the table at `path` to a copy of the leaf table at `q`: one for each table
   on the way, and those of everything that comes before it.
   */
  ghost function Cost(loc: Locs, r: nat, path: seq<nat>, q: seq<nat>): nat
    requires path <= q && |q| == 3
    decreases 3 - |path|
  {
    if |path| == 3 then 1
    else 1 + |PartTables(loc, r, path, q[|path|])| + Cost(loc, r, q[..|path| + 1], q)
  }

  /** `done` are the leaf tables at or below `path` that can be reached with `n` frames. */
  ghost predicate Reached(loc: Locs, r: nat, path: seq<nat>, n: nat, done: set<nat>) {
    forall g :: g in done <==> g in LeafTables(loc, r, path) && Cost(loc, r, path, loc[g].path) <= n
  }

  /** Frames for all tables are enough. */
  lemma {:induction false} CostBounded(tabs: Tables, loc: Locs, t: nat, g: nat)
    requires Forest(tabs, loc) && t in loc && g in LeafTables(loc, loc[t].root, loc[t].path)
    ensures |loc[t].path| <= 3 && Cost(loc, loc[t].root, loc[t].path, loc[g].path) <=
      |SubTables(loc, loc[t].root, loc[t].path)|
    decreases 3 - |loc[t].path|
  {
    var r, path, q := loc[t].root, loc[t].path, loc[g].path;
    assert NodeAt(tabs, loc, t) && NodeAt(tabs, loc, g);
    SubTablesWhole(tabs, loc, t);
    if |path| < 3 {
      var y := q[|path|];
      assert q[..|path| + 1] == path + [y];
      var c := Ancestor(tabs, loc, g, |path| + 1);
      assert loc[c] == Loc(r, path + [y]);
      CostBounded(tabs, loc, c, g);
      PartTablesStep(tabs, loc, r, path, y);
      PartTablesGrow(loc, r, path, y + 1, Limit(path));
    }
  }

  /** Stopping below entry `x`, for which `n` frames were left. */
  lemma ReachedStop(tabs: Tables, loc: Locs, t: nat, x: nat, n: nat, below: set<nat>)
    requires Forest(tabs, loc) && t in loc && |loc[t].path| < 3 && x < Limit(loc[t].path)
    requires Reached(loc, loc[t].root, loc[t].path + [x], n, below)
    requires n < |SubTables(loc, loc[t].root, loc[t].path + [x])|
    ensures Reached(loc, loc[t].root, loc[t].path, 1 + |PartTables(loc, loc[t].root, loc[t].path, x)| + n,
                    PartLeafTables(loc, loc[t].root, loc[t].path, x) + below)
  {
    var r, path := loc[t].root, loc[t].path;
    var done := PartLeafTables(loc, r, path, x) + below;
    PartLeafTablesStep(loc, r, path, x);
    PartTablesStep(tabs, loc, r, path, x);
    forall g | g in LeafTables(loc, r, path)
      ensures g in done <==> Cost(loc, r, path, loc[g].path) <= 1 + |PartTables(loc, r, path, x)| + n
    {
      ReachedStopAt(tabs, loc, t, x, n, below, g);
    }
  }

  lemma ReachedStopAt(tabs: Tables, loc: Locs, t: nat, x: nat, n: nat, below: set<nat>, g: nat)
    requires Forest(tabs, loc) && t in loc && |loc[t].path| < 3 && x < Limit(loc[t].path)
    requires Reached(loc, loc[t].root, loc[t].path + [x], n, below)
    requires n < |SubTables(loc, loc[t].root, loc[t].path + [x])|
    requires g in LeafTables(loc, loc[t].root, loc[t].path)
    ensures var r, path := loc[t].root, loc[t].path;
      g in PartLeafTables(loc, r, path, x) + below <==>
        Cost(loc, r, path, loc[g].path) <= 1 + |PartTables(loc, r, path, x)| + n
  {
    var r, path, q := loc[t].root, loc[t].path, loc[g].path;
    var y := q[|path|];
    var next := path + [y];
    assert q[..|path| + 1] == next && next <= q;
    var c := Ancestor(tabs, loc, g, |path| + 1);
    PartTablesStep(tabs, loc, r, path, y);
    PartTablesStep(tabs, loc, r, path, x);
    assert g in below ==> path + [x] <= q;
    assert path + [x] <= q ==> y == (path + [x])[|path|];
    if y < x {
      CostBounded(tabs, loc, c, g);
      PartTablesGrow(loc, r, path, y + 1, x);
    } else if y > x {
      PartTablesGrow(loc, r, path, x + 1, y);
    }
  }

  /** A table whose present user-writable entries have all become copy-on-write. */
  ghost predicate WhollyCowed(tabs: Tables, tabs': Tables, g: nat) {
    && g in tabs && g in tabs' && |tabs'[g]| == |tabs[g]|
    && forall y :: 0 <= y < |tabs[g]| ==> tabs'[g][y] == Cow(tabs[g][y])
  }

  /**
   Of the frames that were taken, other than `but`, exactly the tables in `done` became copy-on-write, and no
   other changed.
   */
  ghost predicate OnlyCowed(tabs: Tables, tabs': Tables, free: set<int>, done: set<nat>, but: set<nat>) {
    forall g: nat :: g in tabs && g !in free && g !in but ==>
      if g in done then WhollyCowed(tabs, tabs', g) else g in tabs' && tabs'[g] == tabs[g]
  }

  lemma OnlyCowedTrans(tabs0: Tables, tabs1: Tables, tabs2: Tables, free0: set<int>, free1: set<int>,
                       t1: set<nat>, t2: set<nat>, but1: set<nat>, but2: set<nat>)
    requires OnlyCowed(tabs0, tabs1, free0, t1, but1) && OnlyCowed(tabs1, tabs2, free1, t2, but2) && free1 <= free0
    ensures OnlyCowed(tabs0, tabs2, free0, t1 + t2, but1 + but2)
  {
    forall g: nat | g in tabs0 && g !in free0 && g !in but1 + but2
      ensures if g in t1 + t2 then WhollyCowed(tabs0, tabs2, g) else g in tabs2 && tabs2[g] == tabs0[g]
    {
    }
  }

  /** Rewriting leaf tables, and frames outside the forest, keeps the forest. */
  lemma ForestFrame(tabs: Tables, tabs': Tables, loc: Locs)
    requires Forest(tabs, loc)
    requires forall u :: u in loc ==>
      u in tabs && u in tabs' && |tabs'[u]| == ENTRIES && (|loc[u].path| < 3 ==> tabs'[u] == tabs[u])
    ensures Forest(tabs', loc)
  {
    forall u ensures NodeAt(tabs', loc, u) {
      assert NodeAt(tabs, loc, u);
    }
    forall u, x ensures ChildAt(tabs', loc, u, x) {
      assert ChildAt(tabs, loc, u, x) && NodeAt(tabs, loc, u);
    }
    forall u ensures ParentAt(tabs', loc, u) {
      assert ParentAt(tabs, loc, u) && NodeAt(tabs, loc, u);
      if u in loc && loc[u].path != [] {
        var n := |loc[u].path| - 1;
        var p :| p in loc && loc[p] == Loc(loc[u].root, loc[u].path[..n]) && Points(tabs, p, loc[u].path[n], u);
        assert Points(tabs', p, loc[u].path[n], u);
      }
    }
  }

  lemma OnlyCowedForest(tabs: Tables, tabs': Tables, loc: Locs, free: set<int>, total: nat, touched: set<nat>,
                        but: set<nat>)
    requires Forest(tabs, loc) && TablesTaken(loc, free, total) && OnlyCowed(tabs, tabs', free, touched, but)
    requires forall g :: g in touched ==> g in loc && |loc[g].path| == 3
    requires forall g :: g in but ==> g !in loc
    ensures Forest(tabs', loc)
  {
    forall u | u in loc
      ensures u in tabs && u in tabs' && |tabs'[u]| == ENTRIES && (|loc[u].path| < 3 ==> tabs'[u] == tabs[u])
    {
      assert NodeAt(tabs, loc, u);
    }
    ForestFrame(tabs, tabs', loc);
  }

  // ---------- putting copies together ----------

  /** The copies made for the entries of a directory so far and those made below its next entry. */
  lemma CopiedJoin(tabs: Tables, tabs1: Tables, tabs2: Tables, loc: Locs, free: set<int>, free1: set<int>,
                   free2: set<int>,
                   m1: Copies, w1: Copies, m2: Copies, w2: Copies, t1: set<nat>, t2: set<nat>, but: set<nat>,
                   total: nat)
    requires Copied(tabs, tabs1, loc, m1, w1) && Copied(tabs1, tabs2, loc, m2, w2)
    requires Fresh(w1, free, free1) && Fresh(w2, free1, free2) && TablesTaken(loc, free, total)
    requires OnlyCowed(tabs, tabs1, free, t1, but) && OnlyCowed(tabs1, tabs2, free1, t2, {})
    requires forall s :: s in m1 ==> s !in m2
    requires forall g :: g in t1 <==> g in m1 && g in loc && |loc[g].path| == 3
    requires forall g :: g in t2 <==> g in m2 && g in loc && |loc[g].path| == 3
    requires forall g :: g in but ==> g !in loc && g !in w1
    requires forall g :: g in loc ==> g in tabs
    ensures Copied(tabs, tabs2, loc, m1 + m2, w1 + w2) && Fresh(w1 + w2, free, free2)
  {
    var m, w := m1 + m2, w1 + w2;
    assert forall d :: d in w1 ==> d !in w2;
    forall s ensures CopyAt(tabs, tabs2, loc, m, s) {
      if s in m2 {
        assert CopyAt(tabs1, tabs2, loc, m2, s);
        assert tabs1[s] == tabs[s];
      } else if s in m1 {
        assert CopyAt(tabs, tabs1, loc, m1, s);
        assert m1[s] !in loc;
        assert m1[s] in w1 && m1[s] !in free1 && m1[s] !in t2;
        assert tabs2[m1[s]] == tabs1[m1[s]];
      }
    }
  }

  /** The copy of a directory, once all its entries are done. */
  lemma CopiedTop(tabs: Tables, tabs': Tables, loc: Locs, m: Copies, w: Copies, t: nat, d: nat)
    requires Forest(tabs, loc) && t in loc && |loc[t].path| < 3 && Copied(tabs, tabs', loc, m, w) && t !in m && d !in w
    requires d in tabs' && |tabs'[d]| == ENTRIES
    requires forall y :: 0 <= y < Limit(loc[t].path) ==>
      t in tabs && y < |tabs[t]| && EntryCopied(tabs[t][y], tabs'[d][y], m, false)
    ensures Copied(tabs, tabs', loc, m[t := d], w[d := t])
  {
    assert NodeAt(tabs, loc, t);
    var m' := m[t := d];
    forall s ensures CopyAt(tabs, tabs', loc, m', s) {
      assert CopyAt(tabs, tabs', loc, m, s);
    }
  }

  /** Copies outside the frame `d` do not depend on what is written to it. */
  lemma CopiedWrite(tabs: Tables, tabs': Tables, loc: Locs, m: Copies, w: Copies, d: nat, es: seq<Entry>)
    requires Copied(tabs, tabs', loc, m, w) && d !in w && d !in loc
    ensures Copied(tabs, tabs'[d := es], loc, m, w)
  {
    var tabs2 := tabs'[d := es];
    forall s ensures CopyAt(tabs, tabs2, loc, m, s) {
      assert CopyAt(tabs, tabs', loc, m, s);
    }
  }

  /** Copies made so far survive a later change that touches neither them nor the tables they were made from. */
  lemma CopiedKeep(tabs: Tables, tabs1: Tables, tabs2: Tables, loc: Locs, free: set<int>, free1: set<int>,
                   m: Copies, w: Copies, touched: set<nat>, total: nat)
    requires Copied(tabs, tabs1, loc, m, w) && Fresh(w, free, free1) && TablesTaken(loc, free, total)
    requires OnlyCowed(tabs1, tabs2, free1, touched, {})
    requires forall g :: g in touched ==> g in loc && g !in m
    ensures Copied(tabs, tabs2, loc, m, w)
  {
    forall s ensures CopyAt(tabs, tabs2, loc, m, s) {
      assert CopyAt(tabs, tabs1, loc, m, s);
      if s in m {
        assert m[s] in w && m[s] !in loc && m[s] !in free1;
      }
    }
  }

  ghost predicate DirCopied(tabs0: Tables, tabs: Tables, t: nat, d: nat, x: nat, m: Copies) {
    && t in tabs0 && d in tabs0 && d in tabs && |tabs0[t]| == |tabs0[d]| == |tabs[d]| == ENTRIES
    && forall y :: 0 <= y < ENTRIES ==>
      if y < x then EntryCopied(tabs0[t][y], tabs[d][y], m, false) else tabs[d][y] == tabs0[d][y]
  }

  /** The state of the loop over directory `t`: entries below `x` are copied into `d`, the rest of it is as it was. */
  ghost predicate DirState(tabs0: Tables, tabs: Tables, loc: Locs, free0: set<int>, free: set<int>, t: nat, d: nat,
                           x: nat, m: Copies, w: Copies) {
    && t in loc && |loc[t].path| < 3 && x <= Limit(loc[t].path)
    && Fresh(w, free0, free) && Copied(tabs0, tabs, loc, m, w)
    && (forall s :: s in m <==> PartTable(loc, s, loc[t].root, loc[t].path, x))
    && OnlyCowed(tabs0, tabs, free0, PartLeafTables(loc, loc[t].root, loc[t].path, x), {d})
    && DirCopied(tabs0, tabs, t, d, x, m)
  }

  /** What stays true of the loop when the copy of the next entry fails; `done` are the leaf tables it reached. */
  ghost predicate DirStopped(tabs0: Tables, tabs: Tables, loc: Locs, free0: set<int>, free: set<int>, t: nat, d: nat,
                             x: nat,
                             m: Copies, w: Copies, done: set<nat>) {
    && t in loc && |loc[t].path| < 3 && x <= Limit(loc[t].path)
    && Fresh(w, free0, free) && Copied(tabs0, tabs, loc, m, w)
    && (forall s :: s in m <==> PartTable(loc, s, loc[t].root, loc[t].path, x))
    && PartLeafTables(loc, loc[t].root, loc[t].path, x) <= done <= LeafTables(loc, loc[t].root, loc[t].path)
    && OnlyCowed(tabs0, tabs, free0, done, {d})
    && DirCopied(tabs0, tabs, t, d, x, m)
  }

  lemma DirStart(tabs: Tables, loc: Locs, free: set<int>, t: nat, d: nat)
    requires Forest(tabs, loc) && t in loc && |loc[t].path| < 3 && d in tabs && |tabs[d]| == ENTRIES
    ensures DirState(tabs, tabs, loc, free, free, t, d, 0, map[], map[])
  {
    assert NodeAt(tabs, loc, t);
  }

  /** An absent entry needs no copy. */
  lemma DirSkip(tabs0: Tables, tabs: Tables, loc: Locs, free0: set<int>, free: set<int>, t: nat, d: nat, x: nat,
                m: Copies, w: Copies)
    requires DirState(tabs0, tabs, loc, free0, free, t, d, x, m, w) && Forest(tabs0, loc) && x < Limit(loc[t].path)
    requires !tabs0[t][x].present && tabs0[d][x] == EMPTY
    ensures DirState(tabs0, tabs, loc, free0, free, t, d, x + 1, m, w)
  {
    var r, path := loc[t].root, loc[t].path;
    forall f: nat ensures PartTable(loc, f, r, path, x + 1) <==> PartTable(loc, f, r, path, x) {
      PartStep(tabs0, loc, f, r, path, x);
      NothingBelow(tabs0, loc, t, x, f);
    }
    assert PartLeafTables(loc, r, path, x + 1) == PartLeafTables(loc, r, path, x);
  }

  /** A failed copy below entry `x` leaves the copies of the entries before it as they were. */
  lemma DirFail(tabs0: Tables, tabs1: Tables, tabs2: Tables, loc: Locs, free0: set<int>, free1: set<int>,
                free2: set<int>,
                t: nat, d: nat, x: nat, m: Copies, w: Copies, total: nat, below: set<nat>)
    requires DirState(tabs0, tabs1, loc, free0, free1, t, d, x, m, w) && x < Limit(loc[t].path)
    requires TablesTaken(loc, free0, total)
    requires below <= LeafTables(loc, loc[t].root, loc[t].path + [x])
    requires OnlyCowed(tabs1, tabs2, free1, below, {}) && free2 <= free1
    requires d !in loc && d !in free0
    ensures DirStopped(tabs0, tabs2, loc, free0, free2, t, d, x, m, w,
                       PartLeafTables(loc, loc[t].root, loc[t].path, x) + below)
  {
    var r, path := loc[t].root, loc[t].path;
    var part := PartLeafTables(loc, r, path, x);
    NotPartBelow(loc, r, path, x, m);
    CopiedKeep(tabs0, tabs1, tabs2, loc, free0, free1, m, w, below, total);
    PartLeafTablesStep(loc, r, path, x);
    OnlyCowedTrans(tabs0, tabs1, tabs2, free0, free1, part, below, {d}, {});
    assert {d} + {} == {d};
    assert tabs2[d] == tabs1[d];
  }

  /** What is below entry `x` is not reached through smaller entries. */
  lemma NotPartBelow(loc: Locs, r: nat, path: seq<nat>, x: nat, m: Copies)
    requires forall s :: s in m <==> PartTable(loc, s, r, path, x)
    ensures forall s :: SubTable(loc, s, r, path + [x]) ==> s !in m
    ensures forall s :: s in LeafTables(loc, r, path + [x]) ==> s in loc && s !in m
  {
    forall s | SubTable(loc, s, r, path + [x]) ensures s !in m {
      assert (path + [x])[|path|] == x == loc[s].path[|path|];
    }
  }

  /** The copy of the table below entry `x` is linked in. */
  lemma DirTake(tabs0: Tables, tabs1: Tables, tabs2: Tables, loc: Locs, free0: set<int>, free1: set<int>,
                free2: set<int>,
                t: nat, d: nat, x: nat, c: nat, m: Copies, w: Copies, mc: Copies, wc: Copies, total: nat)
    requires DirState(tabs0, tabs1, loc, free0, free1, t, d, x, m, w) && x < Limit(loc[t].path)
    requires TablesTaken(loc, free0, total)
    requires Forest(tabs0, loc) && d !in loc && d !in free0
    requires OnlyCowed(tabs1, tabs2, free1, LeafTables(loc, loc[t].root, loc[t].path + [x]), {})
    requires Copied(tabs1, tabs2, loc, mc, wc) && Fresh(wc, free1, free2) && c in mc
    requires forall s :: s in mc <==> SubTable(loc, s, loc[t].root, loc[t].path + [x])
    requires tabs0[t][x].present && tabs0[t][x].frame == c
    ensures d in tabs2 && |tabs2[d]| == ENTRIES
    ensures DirState(tabs0, tabs2[d := tabs2[d][x := Link(mc[c])]], loc, free0, free2, t, d, x + 1, m + mc, w + wc)
  {
    var r, path := loc[t].root, loc[t].path;
    NotPartBelow(loc, r, path, x, m);
    assert tabs2[d] == tabs1[d];
    DirTakeCopied(tabs0, tabs1, tabs2, loc, free0, free1, free2, t, d, x, m, w, mc, wc, total);
    DirTakeFrame(tabs0, tabs1, tabs2, loc, free0, free1, t, d, x, tabs2[d][x := Link(mc[c])]);
    DirLink(tabs0, tabs1, tabs2, t, d, x, c, m, mc);
    CopiedWrite(tabs0, tabs2, loc, m + mc, w + wc, d, tabs2[d][x := Link(mc[c])]);
    forall s ensures s in m + mc <==> PartTable(loc, s, r, path, x + 1) {
      PartStep(tabs0, loc, s, r, path, x);
    }
  }

  lemma DirTakeCopied(tabs0: Tables, tabs1: Tables, tabs2: Tables, loc: Locs, free0: set<int>, free1: set<int>,
                      free2: set<int>,
                      t: nat, d: nat, x: nat, m: Copies, w: Copies, mc: Copies, wc: Copies, total: nat)
    requires DirState(tabs0, tabs1, loc, free0, free1, t, d, x, m, w) && TablesTaken(loc, free0, total)
    requires Forest(tabs0, loc) && d !in loc && d !in free0
    requires OnlyCowed(tabs1, tabs2, free1, LeafTables(loc, loc[t].root, loc[t].path + [x]), {})
    requires Copied(tabs1, tabs2, loc, mc, wc) && Fresh(wc, free1, free2)
    requires forall s :: s in mc <==> SubTable(loc, s, loc[t].root, loc[t].path + [x])
    ensures Copied(tabs0, tabs2, loc, m + mc, w + wc) && Fresh(w + wc, free0, free2) && d !in w + wc
  {
    var r, path := loc[t].root, loc[t].path;
    NotPartBelow(loc, r, path, x, m);
    forall g | g in loc ensures g in tabs0 {
      assert NodeAt(tabs0, loc, g);
    }
    CopiedJoin(tabs0, tabs1, tabs2, loc, free0, free1, free2, m, w, mc, wc, PartLeafTables(loc, r, path, x),
               LeafTables(loc, r, path + [x]), {d}, total);
  }

  lemma DirTakeFrame(tabs0: Tables, tabs1: Tables, tabs2: Tables, loc: Locs, free0: set<int>, free1: set<int>, t: nat,
                     d: nat, x: nat, es: seq<Entry>)
    requires t in loc && free1 <= free0
    requires OnlyCowed(tabs0, tabs1, free0, PartLeafTables(loc, loc[t].root, loc[t].path, x), {d})
    requires OnlyCowed(tabs1, tabs2, free1, LeafTables(loc, loc[t].root, loc[t].path + [x]), {})
    ensures OnlyCowed(tabs0, tabs2[d := es], free0, PartLeafTables(loc, loc[t].root, loc[t].path, x + 1), {d})
  {
    var r, path := loc[t].root, loc[t].path;
    PartLeafTablesStep(loc, r, path, x);
    OnlyCowedTrans(tabs0, tabs1, tabs2, free0, free1, PartLeafTables(loc, r, path, x), LeafTables(loc, r, path + [x]),
                   {d}, {});
    assert {d} + {} == {d};
  }

  lemma DirLink(tabs0: Tables, tabs1: Tables, tabs2: Tables, t: nat, d: nat, x: nat, c: nat, m: Copies,
                mc: Copies)
    requires DirCopied(tabs0, tabs1, t, d, x, m) && d in tabs2 && tabs2[d] == tabs1[d] && x < ENTRIES && c in mc
    requires tabs0[t][x].present && tabs0[t][x].frame == c && (forall s :: s in m ==> s !in mc)
    ensures DirCopied(tabs0, tabs2[d := tabs2[d][x := Link(mc[c])]], t, d, x + 1, m + mc)
  {
    var tabs3 := tabs2[d := tabs2[d][x := Link(mc[c])]];
    forall y | 0 <= y < ENTRIES
      ensures if y < x + 1 then EntryCopied(tabs0[t][y], tabs3[d][y], m + mc, false) else tabs3[d][y] == tabs0[d][y]
    {
      if y < x {
        assert EntryCopied(tabs0[t][y], tabs1[d][y], m, false);
      }
    }
  }

  lemma DirDone(tabs0: Tables, tabs: Tables, loc: Locs, free0: set<int>, free: set<int>, t: nat, d: nat, x: nat,
                m: Copies, w: Copies)
    requires DirState(tabs0, tabs, loc, free0, free, t, d, x, m, w)
    ensures DirStopped(tabs0, tabs, loc, free0, free, t, d, x, m, w, PartLeafTables(loc, loc[t].root, loc[t].path, x))
  {
    PartLeafTablesStep(loc, loc[t].root, loc[t].path, x);
  }

  /** Through all entries of a directory all leaf tables below it are reached. */
  lemma AllLeafTables(tabs: Tables, loc: Locs, t: nat)
    requires Forest(tabs, loc) && t in loc && |loc[t].path| < 3
    ensures PartLeafTables(loc, loc[t].root, loc[t].path, Limit(loc[t].path)) ==
      LeafTables(loc, loc[t].root, loc[t].path)
  {
    forall f: nat ensures SubTable(loc, f, loc[t].root, loc[t].path) <==>
                          f == t || PartTable(loc, f, loc[t].root, loc[t].path, Limit(loc[t].path)) {
      PartWhole(tabs, loc, t, f, Limit(loc[t].path));
    }
  }

  /** At a leaf table there is nothing but the table itself. */
  lemma LeafSub(tabs: Tables, loc: Locs, t: nat)
    requires Forest(tabs, loc) && t in loc && |loc[t].path| == 3
    ensures forall s :: SubTable(loc, s, loc[t].root, loc[t].path) <==> s == t
    ensures LeafTables(loc, loc[t].root, loc[t].path) == {t}
  {
    forall s | SubTable(loc, s, loc[t].root, loc[t].path) ensures s == t {
      assert NodeAt(tabs, loc, s);
    }
  }

  /**
   The copy of a directory into a frame that was free: nothing else was disturbed, and on success all below
   it is copied.
   */
  lemma CloneTableDone(tabs0: Tables, tabs1: Tables, tabs2: Tables, loc: Locs, free0: set<int>, free1: set<int>,
                       free2: set<int>,
                       t: nat, d: nat, x: nat, m: Copies, w: Copies, total: nat, done: set<nat>, ok: bool)
    requires Forest(tabs0, loc) && TablesTaken(loc, free0, total) && d in free0 && free1 == free0 - {d}
    requires tabs1 == tabs0[d := seq(ENTRIES, i => EMPTY)] && t in loc && loc[t].path != []
    requires DirStopped(tabs1, tabs2, loc, free1, free2, t, d, x, m, w, done) && (ok ==> x == Limit(loc[t].path))
    ensures OnlyCowed(tabs0, tabs2, free0, done, {})
    ensures ok ==>
      && Copied(tabs0, tabs2, loc, m[t := d], w[d := t]) && Fresh(w[d := t], free0, free2)
      && forall s :: s in m[t := d] <==> SubTable(loc, s, loc[t].root, loc[t].path)
  {
    forall g: nat | g in tabs0 && g !in free0
      ensures if g in done then WhollyCowed(tabs0, tabs2, g) else g in tabs2 && tabs2[g] == tabs0[g]
    {
      assert g != d && tabs1[g] == tabs0[g];
    }
    if ok {
      assert NodeAt(tabs0, loc, t);
      CopiedBase(tabs0, tabs1, tabs2, loc, m, w, d);
      forall s ensures s in m[t := d] <==> SubTable(loc, s, loc[t].root, loc[t].path) {
        PartWhole(tabs0, loc, t, s, x);
      }
      CopiedTop(tabs0, tabs2, loc, m, w, t, d);
    }
  }

  /** What frame `d`, outside the forest, held before does not matter to copies. */
  lemma CopiedBase(tabs0: Tables, tabs1: Tables, tabs2: Tables, loc: Locs, m: Copies, w: Copies, d: nat)
    requires Copied(tabs1, tabs2, loc, m, w) && d !in loc && forall g :: g in tabs1 && g != d ==>
      g in tabs0 && tabs0[g] == tabs1[g]
    ensures Copied(tabs0, tabs2, loc, m, w)
  {
    forall s ensures CopyAt(tabs0, tabs2, loc, m, s) {
      assert CopyAt(tabs1, tabs2, loc, m, s);
    }
  }

  /** The table behind a present directory entry. */
  lemma ChildOf(tabs: Tables, loc: Locs, t: nat, x: nat)
    requires Forest(tabs, loc) && t in loc && |loc[t].path| < 3 && x < Limit(loc[t].path) && Present(tabs, t, x)
    ensures tabs[t][x].frame in loc && loc[tabs[t][x].frame] == Loc(loc[t].root, loc[t].path + [x])
  {
    assert NodeAt(tabs, loc, t) && ChildAt(tabs, loc, t, x);
  }

  // ---------- the finished clone ----------

  /** The forest with the copies as tables of space `dst`. */
  ghost function CloneLoc(loc: Locs, w: Copies, dst: nat): Locs
    requires forall d :: d in w ==> w[d] in loc
  {
    loc[dst := Loc(dst, [])] + map d | d in w :: Loc(dst, loc[w[d]].path)
  }

  /** A copy of the first `x` entries of the root of space `src`, hung below `dst`. */
  ghost predicate Image(tabs1: Tables, tabs: Tables, loc: Locs, src: nat, dst: nat, x: nat, m: Copies,
                        w: Copies) {
    && Forest(tabs1, loc) && Forest(tabs, loc) && IsRoot(loc, src) && dst !in loc && dst !in w && x <= USER_HALF
    && Copied(tabs1, tabs, loc, m, w) && (forall d :: d in w ==> d !in loc)
    && (forall s :: s in m <==> PartTable(loc, s, src, [], x))
    && DirCopied(tabs1, tabs, src, dst, x, m)
    && (forall y :: x <= y < USER_HALF ==> !tabs1[dst][y].present)
  }

  lemma ImageNode(tabs1: Tables, tabs: Tables, loc: Locs, src: nat, dst: nat, x: nat, m: Copies,
                  w: Copies, d: nat)
    requires Image(tabs1, tabs, loc, src, dst, x, m, w) && d in w
    ensures var s := w[d];
      && s in m && m[s] == d && s in loc && loc[s].root == src
      && 0 < |loc[s].path| <= 3 && IsPath(loc[s].path) && loc[s].path[0] < x
    ensures d in tabs && |tabs[d]| == ENTRIES
  {
    var s := w[d];
    assert CopyAt(tabs1, tabs, loc, m, s) && NodeAt(tabs1, loc, s);
  }

  lemma ImageChild(tabs1: Tables, tabs: Tables, loc: Locs, src: nat, dst: nat, x: nat, m: Copies,
                   w: Copies, u: nat, y: nat)
    requires Image(tabs1, tabs, loc, src, dst, x, m, w) && (forall d :: d in w ==> w[d] in loc)
    ensures ChildAt(tabs, CloneLoc(loc, w, dst), u, y)
  {
    var l := CloneLoc(loc, w, dst);
    if u in w {
      ImageNode(tabs1, tabs, loc, src, dst, x, m, w, u);
      var s := w[u];
      assert CopyAt(tabs1, tabs, loc, m, s) && ChildAt(tabs1, loc, s, y) && NodeAt(tabs1, loc, s);
      if y < ENTRIES && |loc[s].path| < 3 && tabs[u][y].present {
        assert EntryCopied(tabs1[s][y], tabs[u][y], m, false);
      }
    } else if u == dst {
      assert ChildAt(tabs1, loc, src, y) && NodeAt(tabs1, loc, src);
      assert ([] + [y])[0] == y;
      if y < x && tabs[dst][y].present {
        assert EntryCopied(tabs1[src][y], tabs[dst][y], m, false);
      }
    } else {
      assert ChildAt(tabs, loc, u, y);
    }
  }

  lemma ImageParent(tabs1: Tables, tabs: Tables, loc: Locs, src: nat, dst: nat, x: nat, m: Copies,
                    w: Copies, u: nat)
    requires Image(tabs1, tabs, loc, src, dst, x, m, w) && (forall d :: d in w ==> w[d] in loc)
    ensures ParentAt(tabs, CloneLoc(loc, w, dst), u)
  {
    var l := CloneLoc(loc, w, dst);
    if u in w {
      ImageCopyParent(tabs1, tabs, loc, src, dst, x, m, w, u);
    } else if u in loc {
      assert ParentAt(tabs, loc, u);
      if loc[u].path != [] {
        var n := |loc[u].path| - 1;
        var p :| p in loc && loc[p] == Loc(loc[u].root, loc[u].path[..n]) && Points(tabs, p, loc[u].path[n], u);
        assert p in l && l[p] == loc[p];
      }
    }
  }

  /** The copy of a table's parent is the parent of its copy. */
  lemma ImageCopyParent(tabs1: Tables, tabs: Tables, loc: Locs, src: nat, dst: nat, x: nat, m: Copies,
                        w: Copies, u: nat)
    requires Image(tabs1, tabs, loc, src, dst, x, m, w) && (forall d :: d in w ==> w[d] in loc) && u in w
    ensures ParentAt(tabs, CloneLoc(loc, w, dst), u)
  {
    ImageNode(tabs1, tabs, loc, src, dst, x, m, w, u);
    var s := w[u];
    var n := |loc[s].path| - 1;
    assert ParentAt(tabs1, loc, s);
    var p :| p in loc && loc[p] == Loc(src, loc[s].path[..n]) && Points(tabs1, p, loc[s].path[n], s);
    var q := ImageLink(tabs1, tabs, loc, src, dst, x, m, w, s, p, n);
    var l := CloneLoc(loc, w, dst);
    assert q in l && l[q] == Loc(dst, loc[s].path[..n]) && Points(tabs, q, loc[s].path[n], u);
  }

  lemma ImageLink(tabs1: Tables, tabs: Tables, loc: Locs, src: nat, dst: nat, x: nat, m: Copies,
                  w: Copies,
                  s: nat, p: nat, n: nat) returns (q: nat)
    requires Image(tabs1, tabs, loc, src, dst, x, m, w) && (forall d :: d in w ==> w[d] in loc) && s in m && s in loc
    requires n == |loc[s].path| - 1 && n < 3 && loc[s].root == src && IsPath(loc[s].path) && loc[s].path[0] < x
    requires p in loc && loc[p] == Loc(src, loc[s].path[..n]) && Points(tabs1, p, loc[s].path[n], s)
    ensures var l := CloneLoc(loc, w, dst); q in l && l[q] == Loc(dst, loc[s].path[..n])
    ensures Points(tabs, q, loc[s].path[n], m[s])
  {
    var y := loc[s].path[n];
    if n == 0 {
      q := dst;
      assert p == src && EntryCopied(tabs1[src][y], tabs[dst][y], m, false);
    } else {
      assert NodeAt(tabs1, loc, p) && PartTable(loc, p, src, [], x) && CopyAt(tabs1, tabs, loc, m, p);
      q := m[p];
      assert EntryCopied(tabs1[p][y], tabs[q][y], m, false);
    }
  }

  lemma ImageInjective(tabs1: Tables, tabs: Tables, loc: Locs, src: nat, dst: nat, x: nat, m: Copies,
                       w: Copies)
    requires Image(tabs1, tabs, loc, src, dst, x, m, w) && (forall d :: d in w ==> w[d] in loc)
    ensures Injective(CloneLoc(loc, w, dst))
  {
    var l := CloneLoc(loc, w, dst);
    forall t | t in loc ensures loc[t].root != dst {
      RootLocated(tabs, loc, t);
    }
    forall d | d in w ensures loc[w[d]].root == src && loc[w[d]].path != [] {
      ImageNode(tabs1, tabs, loc, src, dst, x, m, w, d);
    }
    forall t, u | t in l && u in l && l[t] == l[u] ensures t == u {
      if t in w && u in w {
        assert loc[w[t]] == loc[w[u]];
      }
    }
  }

  lemma RootLocated(tabs: Tables, loc: Locs, t: nat)
    requires Forest(tabs, loc) && t in loc
    ensures IsRoot(loc, loc[t].root)
  {
    var a := Ancestor(tabs, loc, t, 0);
    assert NodeAt(tabs, loc, a) && loc[t].path[..0] == [];
  }

  /** Source and image together form a forest. */
  lemma ImageForest(tabs1: Tables, tabs: Tables, loc: Locs, src: nat, dst: nat, x: nat, m: Copies,
                    w: Copies)
    requires Image(tabs1, tabs, loc, src, dst, x, m, w)
    ensures (forall d :: d in w ==> w[d] in loc) && Forest(tabs, CloneLoc(loc, w, dst))
  {
    forall d | d in w ensures w[d] in loc {
      ImageNode(tabs1, tabs, loc, src, dst, x, m, w, d);
    }
    var l := CloneLoc(loc, w, dst);
    forall u ensures NodeAt(tabs, l, u) {
      assert NodeAt(tabs, loc, u);
      if u in w {
        ImageNode(tabs1, tabs, loc, src, dst, x, m, w, u);
      }
    }
    forall u, y ensures ChildAt(tabs, l, u, y) {
      ImageChild(tabs1, tabs, loc, src, dst, x, m, w, u, y);
    }
    forall u ensures ParentAt(tabs, l, u) {
      ImageParent(tabs1, tabs, loc, src, dst, x, m, w, u);
    }
    ImageInjective(tabs1, tabs, loc, src, dst, x, m, w);
  }

  function CowPage(o: Option<Entry>): Option<Entry> {
    match o
    case None => None
    case Some(e) => Some(Cow(e))
  }

  /**
   The new space translates every page to the frame the source did; on both sides the user-writable
   pages, and only they, have become copy-on-write; all other spaces translate as before.
   */
  ghost predicate Cloned(tabs: Tables, loc: Locs, tabs': Tables, src: nat, dst: nat) {
    && (forall r, page: seq<nat> :: IsRoot(loc, r) && |page| == 4 && IsPath(page) ==>
          Lookup(tabs', r, page) == if r == src then CowPage(Lookup(tabs, r, page)) else Lookup(tabs, r, page))
    && (forall page: seq<nat> :: |page| == 4 && IsPath(page) ==>
          Lookup(tabs', dst, page) == CowPage(Lookup(tabs, src, page)))
  }

  /**
   What a clone means page by page: parent and child agree, on the frame the parent had before; neither
   can write it from user mode; pages that could be written are marked, and other entries are unchanged.
   */
  lemma ClonedPage(tabs: Tables, loc: Locs, tabs': Tables, src: nat, dst: nat, page: seq<nat>)
    requires Cloned(tabs, loc, tabs', src, dst) && IsRoot(loc, src) && |page| == 4 && IsPath(page)
    ensures Lookup(tabs', dst, page) == Lookup(tabs', src, page)
    ensures Lookup(tabs, src, page).None? ==> Lookup(tabs', src, page).None?
    ensures Lookup(tabs, src, page).Some? ==> Lookup(tabs', src, page).Some?
    ensures Lookup(tabs, src, page).Some? ==>
      var e, p := Lookup(tabs, src, page).value, Lookup(tabs', src, page).value;
      && p.frame == e.frame && !(p.user && p.writable)
      && (if e.user && e.writable then p.cow else p == e)
  {
  }

  /**
   What the processor allows after a clone: either side may read exactly what the parent could, and neither may
   write anything; every other space may do what it could.
   */
  lemma ClonedAccess(tabs: Tables, loc: Locs, tabs': Tables, loc': Locs, src: nat, dst: nat, r: nat, page: seq<nat>,
                     write: bool)
    requires Cloned(tabs, loc, tabs', src, dst) && Forest(tabs, loc) && Forest(tabs', loc') && IsRoot(loc, src)
    requires IsRoot(loc', r) && (r == dst || IsRoot(loc, r)) && |page| == 4 && IsPath(page)
    ensures Allowed(tabs', r, page, write) <==>
      if r == src || r == dst then !write && Allowed(tabs, src, page, false) else Allowed(tabs, r, page, write)
  {
    AccessExactly(tabs', loc', r, page, write);
    AccessExactly(tabs, loc, src, page, false);
    if r != dst {
      AccessExactly(tabs, loc, r, page, write);
    }
  }

  /** Every page of every space translates to the same frame as before, at most its entry has become copy-on-write. */
  ghost predicate SameFrames(tabs: Tables, loc: Locs, tabs': Tables) {
    forall r, page: seq<nat> :: IsRoot(loc, r) && |page| == 4 && IsPath(page) ==>
      Lookup(tabs', r, page) == Lookup(tabs, r, page) || Lookup(tabs', r, page) == CowPage(Lookup(tabs, r, page))
  }

  lemma SourceLookup(tabs1: Tables, tabs: Tables, loc: Locs, free: set<int>, total: nat, src: nat, dst: nat,
                     m: Copies, w: Copies, r: nat, page: seq<nat>)
    requires Image(tabs1, tabs, loc, src, dst, USER_HALF, m, w)
    requires OnlyCowed(tabs1, tabs, free, LeafTables(loc, src, []), {dst})
    requires TablesTaken(loc, free, total) && IsRoot(loc, r) && |page| == 4 && IsPath(page)
    ensures Lookup(tabs, r, page) == if r == src then CowPage(Lookup(tabs1, r, page)) else Lookup(tabs1, r, page)
  {
    if t :| t in loc && loc[t] == Loc(r, page[..3]) {
      LookupAt(tabs1, loc, r, page, t);
      LookupAt(tabs, loc, r, page, t);
      assert NodeAt(tabs1, loc, t);
      if r == src {
        assert t in LeafTables(loc, src, []) && WhollyCowed(tabs1, tabs, t);
      }
    } else {
      LookupNowhere(tabs1, loc, r, page);
      LookupNowhere(tabs, loc, r, page);
    }
  }

  lemma ImageLookup(tabs1: Tables, tabs: Tables, loc: Locs, src: nat, dst: nat, m: Copies, w: Copies,
                    page: seq<nat>)
    requires Image(tabs1, tabs, loc, src, dst, USER_HALF, m, w) && |page| == 4 && IsPath(page)
    ensures Lookup(tabs, dst, page) == CowPage(Lookup(tabs1, src, page))
  {
    ImageForest(tabs1, tabs, loc, src, dst, USER_HALF, m, w);
    var l := CloneLoc(loc, w, dst);
    if s :| s in loc && loc[s] == Loc(src, page[..3]) {
      assert PartTable(loc, s, src, [], USER_HALF);
      LookupAt(tabs1, loc, src, page, s);
      assert CopyAt(tabs1, tabs, loc, m, s);
      var d := m[s];
      assert l[d] == Loc(dst, page[..3]);
      LookupAt(tabs, l, dst, page, d);
      assert EntryCopied(tabs1[s][page[3]], tabs[d][page[3]], m, true);
    } else {
      LookupNowhere(tabs1, loc, src, page);
      forall u | u in l ensures l[u] != Loc(dst, page[..3]) {
        if u in w {
          ImageNode(tabs1, tabs, loc, src, dst, USER_HALF, m, w, u);
        } else if u in loc {
          RootLocated(tabs, loc, u);
        }
      }
      LookupNowhere(tabs, l, dst, page);
    }
  }

  lemma StoppedLookup(tabs1: Tables, tabs: Tables, loc: Locs, free: set<int>, total: nat, done: set<nat>, dst: nat,
                      r: nat, page: seq<nat>)
    requires Forest(tabs1, loc) && Forest(tabs, loc) && OnlyCowed(tabs1, tabs, free, done, {dst}) && dst !in loc
    requires TablesTaken(loc, free, total) && IsRoot(loc, r) && |page| == 4 && IsPath(page)
    ensures Lookup(tabs, r, page) == Lookup(tabs1, r, page) || Lookup(tabs, r, page) == CowPage(Lookup(tabs1, r, page))
  {
    if t :| t in loc && loc[t] == Loc(r, page[..3]) {
      LookupAt(tabs1, loc, r, page, t);
      LookupAt(tabs, loc, r, page, t);
      assert NodeAt(tabs1, loc, t);
    } else {
      LookupNowhere(tabs1, loc, r, page);
      LookupNowhere(tabs, loc, r, page);
    }
  }

  lemma CloneTranslations(tabs0: Tables, tabs1: Tables, tabs: Tables, loc: Locs, free: set<int>, total: nat, src: nat,
                          dst: nat, m: Copies, w: Copies)
    requires Image(tabs1, tabs, loc, src, dst, USER_HALF, m, w)
    requires OnlyCowed(tabs1, tabs, free, LeafTables(loc, src, []), {dst})
    requires TablesTaken(loc, free, total) && SameTranslations(tabs0, loc, tabs1)
    ensures Cloned(tabs0, loc, tabs, src, dst)
  {
    forall r, page: seq<nat> | IsRoot(loc, r) && |page| == 4 && IsPath(page)
      ensures Lookup(tabs, r, page) == if r == src then CowPage(Lookup(tabs0, r, page)) else Lookup(tabs0, r, page)
    {
      SourceLookup(tabs1, tabs, loc, free, total, src, dst, m, w, r, page);
    }
    forall page: seq<nat> | |page| == 4 && IsPath(page)
      ensures Lookup(tabs, dst, page) == CowPage(Lookup(tabs0, src, page))
    {
      ImageLookup(tabs1, tabs, loc, src, dst, m, w, page);
    }
  }

  lemma StoppedTranslations(tabs0: Tables, tabs1: Tables, tabs: Tables, loc: Locs, free: set<int>, total: nat,
                            done: set<nat>, dst: nat)
    requires Forest(tabs1, loc) && Forest(tabs, loc) && OnlyCowed(tabs1, tabs, free, done, {dst}) && dst !in loc
    requires TablesTaken(loc, free, total) && SameTranslations(tabs0, loc, tabs1)
    ensures SameFrames(tabs0, loc, tabs)
  {
    forall r, page: seq<nat> | IsRoot(loc, r) && |page| == 4 && IsPath(page)
      ensures Lookup(tabs, r, page) == Lookup(tabs0, r, page) || Lookup(tabs, r, page) ==
        CowPage(Lookup(tabs0, r, page))
    {
      StoppedLookup(tabs1, tabs, loc, free, total, done, dst, r, page);
    }
  }

  /** The mapped frames of source and image are those the source had, so they are neither the new tables nor free. */
  lemma ImageBacked(tabs1: Tables, tabs: Tables, loc: Locs, free: set<int>, src: nat, dst: nat, x: nat,
                    m: Copies, w: Copies, done: set<nat>)
    requires Image(tabs1, tabs, loc, src, dst, x, m, w) && OnlyCowed(tabs1, tabs, free, done, {dst})
    requires Backed(tabs1, loc, free + {dst})
    requires forall d :: d in w ==> d in free && w[d] in loc
    requires forall t :: t in loc ==> t !in free
    ensures Backed(tabs, CloneLoc(loc, w, dst), free)
  {
    var k := CloneLoc(loc, w, dst);
    forall t: nat, l: nat, f: nat | IsLeaf(tabs, k, t, l, f) ensures f !in k && f != 0 && f !in free {
      if t in w {
        ImageNode(tabs1, tabs, loc, src, dst, x, m, w, t);
        var s := w[t];
        assert CopyAt(tabs1, tabs, loc, m, s);
        assert EntryCopied(tabs1[s][l], tabs[t][l], m, true);
        assert IsLeaf(tabs1, loc, s, l, f);
      } else {
        assert t in loc && NodeAt(tabs1, loc, t);
        assert IsLeaf(tabs1, loc, t, l, f);
      }
    }
  }

  /** The image maps each frame in as many entries as the part of the source it is an image of. */
  lemma ImageSlots(tabs1: Tables, tabs: Tables, loc: Locs, src: nat, dst: nat, x: nat, m: Copies,
                   w: Copies, f: nat)
    requires Image(tabs1, tabs, loc, src, dst, x, m, w) && (forall d :: d in w ==> w[d] in loc)
    ensures |SubSlots(tabs, CloneLoc(loc, w, dst), f, dst, [])| == |PartSlots(tabs1, loc, f, src, [], x)|
  {
    var k := CloneLoc(loc, w, dst);
    var a, b := PartSlots(tabs1, loc, f, src, [], x), SubSlots(tabs, k, f, dst, []);
    forall p | p in a ensures p.0 in m && (m[p.0], p.1) in b && m[p.0] in w && w[m[p.0]] == p.0 {
      ImageSlotThere(tabs1, tabs, loc, src, dst, x, m, w, f, p.0, p.1);
    }
    forall q | q in b ensures q.0 in w && (w[q.0], q.1) in a && w[q.0] in m && m[w[q.0]] == q.0 {
      ImageSlotBack(tabs1, tabs, loc, src, dst, x, m, w, f, q.0, q.1);
    }
    SameSize(a, b, map p | p in a :: (m[p.0], p.1), map q | q in b :: (w[q.0], q.1));
  }

  lemma ImageSlotThere(tabs1: Tables, tabs: Tables, loc: Locs, src: nat, dst: nat, x: nat, m: Copies,
                       w: Copies,
                       f: nat, s: nat, l: nat)
    requires Image(tabs1, tabs, loc, src, dst, x, m, w) && (forall d :: d in w ==> w[d] in loc)
    requires (s, l) in PartSlots(tabs1, loc, f, src, [], x)
    ensures s in m && m[s] in w && w[m[s]] == s && (m[s], l) in SubSlots(tabs, CloneLoc(loc, w, dst), f, dst, [])
  {
    assert NodeAt(tabs1, loc, s);
    assert (loc[s].path + [l])[0] == loc[s].path[0];
    assert PartTable(loc, s, src, [], x) && CopyAt(tabs1, tabs, loc, m, s);
    assert EntryCopied(tabs1[s][l], tabs[m[s]][l], m, true);
    assert IsLeaf(tabs, CloneLoc(loc, w, dst), m[s], l, f);
  }

  lemma ImageSlotBack(tabs1: Tables, tabs: Tables, loc: Locs, src: nat, dst: nat, x: nat, m: Copies,
                      w: Copies,
                      f: nat, d: nat, l: nat)
    requires Image(tabs1, tabs, loc, src, dst, x, m, w) && (forall d :: d in w ==> w[d] in loc)
    requires (d, l) in SubSlots(tabs, CloneLoc(loc, w, dst), f, dst, [])
    ensures d in w && w[d] in m && m[w[d]] == d && (w[d], l) in PartSlots(tabs1, loc, f, src, [], x)
  {
    if d in loc {
      RootLocated(tabs, loc, d);
    }
    ImageNode(tabs1, tabs, loc, src, dst, x, m, w, d);
    var s := w[d];
    assert CopyAt(tabs1, tabs, loc, m, s) && NodeAt(tabs1, loc, s);
    assert EntryCopied(tabs1[s][l], tabs[d][l], m, true);
    assert (loc[s].path + [l])[0] == loc[s].path[0];
    assert IsLeaf(tabs1, loc, s, l, f) && Through([], x, loc[s].path + [l]);
  }

  /** Becoming copy-on-write moves no page to another frame. */
  lemma SameLeaf(tabs1: Tables, tabs: Tables, loc: Locs, free: set<int>, total: nat, dst: nat, done: set<nat>, u: nat,
                 l: nat, f: nat)
    requires Forest(tabs1, loc) && OnlyCowed(tabs1, tabs, free, done, {dst}) && TablesTaken(loc, free, total)
    requires dst !in loc
    ensures IsLeaf(tabs, loc, u, l, f) <==> IsLeaf(tabs1, loc, u, l, f)
  {
    if u in loc {
      assert NodeAt(tabs1, loc, u);
    }
  }

  /** So a space of before maps each frame in the entries it did. */
  lemma SourceSlots(tabs1: Tables, tabs: Tables, loc: Locs, free: set<int>, total: nat, dst: nat, w: Copies,
                    done: set<nat>,
                    r: nat, f: nat)
    requires Forest(tabs1, loc) && OnlyCowed(tabs1, tabs, free, done, {dst}) && TablesTaken(loc, free, total)
    requires dst !in loc && r != dst && (forall d :: d in w ==> w[d] in loc && d !in loc)
    ensures SubSlots(tabs, CloneLoc(loc, w, dst), f, r, []) == SubSlots(tabs1, loc, f, r, [])
  {
    var k := CloneLoc(loc, w, dst);
    var a, b := SubSlots(tabs, k, f, r, []), SubSlots(tabs1, loc, f, r, []);
    forall u: nat, l: nat ensures (u, l) in a <==> (u, l) in b {
      SameLeaf(tabs1, tabs, loc, free, total, dst, done, u, l, f);
      if u in loc {
        assert k[u] == loc[u];
      }
    }
  }

  /** The other spaces form a forest also when a new root is not counted. */
  lemma NewRootOutside(tabs0: Tables, tabs1: Tables, loc: Locs, dst: nat)
    requires Forest(tabs0, loc) && dst !in loc && dst in tabs1 && tabs1 == tabs0[dst := tabs1[dst]]
    ensures Forest(tabs1, loc)
  {
    forall u | u in loc
      ensures u in tabs0 && u in tabs1 && |tabs1[u]| == ENTRIES && (|loc[u].path| < 3 ==> tabs1[u] == tabs0[u])
    {
      assert NodeAt(tabs0, loc, u);
    }
    ForestFrame(tabs0, tabs1, loc);
  }

  lemma NewRootLeaves(tabs0: Tables, tabs1: Tables, loc: Locs, free: set<int>, dst: nat)
    requires dst !in loc && dst in tabs1 && tabs1 == tabs0[dst := tabs1[dst]]
    ensures Backed(tabs0, loc, free) ==> Backed(tabs1, loc, free)
    ensures forall f: nat, r: nat, path: seq<nat> {:trigger SubSlots(tabs1, loc, f, r, path)} ::
      SubSlots(tabs1, loc, f, r, path) == SubSlots(tabs0, loc, f, r, path)
    ensures forall f: nat, r: nat, path: seq<nat>, x: nat {:trigger PartSlots(tabs1, loc, f, r, path, x)} ::
      PartSlots(tabs1, loc, f, r, path, x) == PartSlots(tabs0, loc, f, r, path, x)
  {
    forall t: nat, l: nat, f: nat ensures IsLeaf(tabs1, loc, t, l, f) <==> IsLeaf(tabs0, loc, t, l, f) {
    }
  }

  /** Taking the image away again leaves the locations of before. */
  lemma ImageRemoved(tabs: Tables, loc: Locs, w: Copies, dst: nat)
    requires Forest(tabs, loc) && dst !in loc && forall d :: d in w ==> w[d] in loc && d !in loc
    ensures KeptLoc(CloneLoc(loc, w, dst), dst) == loc
  {
    forall t | t in loc ensures loc[t].root != dst {
      RootLocated(tabs, loc, t);
    }
  }

  /**
   Whether or not the loop over the source's root ran to its end, source and image form a forest and every
   page keeps its frame.
   */
  lemma StoppedImage(tabs0: Tables, tabs1: Tables, tabs: Tables, loc: Locs, free1: set<int>, free: set<int>, total: nat,
                     src: nat, dst: nat, x: nat, m: Copies, w: Copies, done: set<nat>)
    requires Forest(tabs1, loc) && IsRoot(loc, src) && TablesTaken(loc, free1, total)
    requires dst !in loc && dst !in free1 && 0 < dst < total && Seen(dst)
    requires DirStopped(tabs1, tabs, loc, free1, free, src, dst, x, m, w, done)
    requires (forall f :: f in free1 ==> f < total)
    requires forall y :: 0 <= y < USER_HALF ==> dst in tabs1 && y < |tabs1[dst]| && !tabs1[dst][y].present
    requires SameTranslations(tabs0, loc, tabs1)
    ensures Image(tabs1, tabs, loc, src, dst, x, m, w)
    ensures (forall d :: d in w ==> w[d] in loc) && Forest(tabs, CloneLoc(loc, w, dst))
    ensures IsRoot(CloneLoc(loc, w, dst), dst)
    ensures TablesTaken(CloneLoc(loc, w, dst), free, total)
    ensures SameFrames(tabs0, loc, tabs)
  {
    OnlyCowedForest(tabs1, tabs, loc, free1, total, done, {dst});
    ImageForest(tabs1, tabs, loc, src, dst, x, m, w);
    StoppedTranslations(tabs0, tabs1, tabs, loc, free1, total, done, dst);
  }

  /** Old tables keep their place; the tables of the new space, its root among them, are frames that were free. */
  ghost predicate NewSpace(loc: Locs, loc': Locs, free: set<int>, free': set<int>, dst: nat) {
    && IsRoot(loc', dst) && dst !in loc
    && (forall t :: t in loc ==> t in loc' && loc'[t] == loc[t])
    && (forall t :: t in loc' && t !in loc ==> loc'[t].root == dst && t in free && t !in free')
  }

  lemma ImageIsNew(loc: Locs, w: Copies, free0: set<int>, free: set<int>, dst: nat)
    requires (forall d :: d in w ==> w[d] in loc && d !in loc && d in free0 && d !in free && d != dst)
    requires dst !in loc && dst in free0 && dst !in free
    ensures NewSpace(loc, CloneLoc(loc, w, dst), free0, free, dst)
  {
  }

  // ---------- the outcome ----------

  /** A finished clone: translations, new tables, counts, and in how many entries either side maps a frame. */
  ghost predicate CloneDone(tabs: Tables, loc: Locs, free: set<int>, c: seq<Count>,
                            tabs': Tables, loc': Locs, free': set<int>, c': seq<Count>, src: nat, dst: nat) {
    && Cloned(tabs, loc, tabs', src, dst) && NewSpace(loc, loc', free, free', dst) && free' <= free
    && Counted(tabs, LeafTables(loc, src, []), c, c')
    && (forall f: nat, r: nat {:trigger SubSlots(tabs', loc', f, r, [])} :: IsRoot(loc, r) ==>
          SubSlots(tabs', loc', f, r, []) == SubSlots(tabs, loc, f, r, []))
    && (forall f: nat {:trigger SubSlots(tabs', loc', f, dst, [])} ::
          |SubSlots(tabs', loc', f, dst, [])| == |SubSlots(tabs, loc, f, src, [])|)
  }

  /** The count of frame `f` after the user-writable pages of the leaf tables `done` were shared. */
  ghost function CountAfter(tabs: Tables, done: set<nat>, c: seq<Count>, f: nat): int
    requires f < |c|
  {
    Shares(c[f], |ShareSlots(tabs, done, f)|)
  }

  /**
   A clone that stops in top-level entry `x`, having reached the leaf tables `done`, frees frame `f` of the
   source.
   */
  ghost predicate LostBy(tabs: Tables, loc: Locs, c: seq<Count>, src: nat, x: nat, done: set<nat>, f: nat) {
    f < |c| && Seen(f) && Frees(CountAfter(tabs, done, c, f), |PartSlots(tabs, loc, f, src, [], x)|)
  }

  /**
   A clone that ran out of frames in top-level entry `x`: the first entry for which, with the root, the
   tables do not fit into the free frames.  The leaf tables it reached, which are those the free frames were
   enough for in the order of the copying, are copy-on-write.  Of the frames that were not free, exactly the
   lost ones are; of those that were, as many as the entries before `x` took.
   */
  ghost predicate CloneFailed(tabs: Tables, loc: Locs, free: set<int>, c: seq<Count>,
                              tabs': Tables, free': set<int>, c': seq<Count>, src: nat, x: nat, done: set<nat>) {
    && x < USER_HALF && |PartTables(loc, src, [], x)| < |free| <= |PartTables(loc, src, [], x + 1)|
    && Reached(loc, src, [], |free|, done)
    && PartLeafTables(loc, src, [], x) <= done <= LeafTables(loc, src, [])
    && OnlyCowed(tabs, tabs', free, done, {})
    && (forall f: nat :: f !in free ==> (f in free' <==> LostBy(tabs, loc, c, src, x, done, f)))
    && |free' * free| == 1 + |PartTables(loc, src, [], x)|
    && |c'| == |c|
    && forall f: nat :: f < |c| ==>
         c'[f] == Dropped(CountAfter(tabs, done, c, f), |PartSlots(tabs, loc, f, src, [], x)|)
  }

  /** After a failed clone the source still owns the frames of its pages exactly if none of them is lost. */
  lemma FailedBacked(tabs: Tables, loc: Locs, free: set<int>, c: seq<Count>, tabs': Tables, free': set<int>,
                     c': seq<Count>,
                     src: nat, x: nat, done: set<nat>)
    requires CloneFailed(tabs, loc, free, c, tabs', free', c', src, x, done)
    requires Forest(tabs, loc) && Backed(tabs, loc, free) && TablesTaken(loc, free, |c|)
    ensures Backed(tabs', loc, free') <==> forall f: nat :: !LostBy(tabs, loc, c, src, x, done, f)
  {
    forall t: nat, l: nat, f: nat ensures IsLeaf(tabs', loc, t, l, f) <==> IsLeaf(tabs, loc, t, l, f) {
      if t in loc {
        assert NodeAt(tabs, loc, t);
      }
    }
    forall f: nat | LostBy(tabs, loc, c, src, x, done, f) ensures !Backed(tabs', loc, free') {
      var p :| p in PartSlots(tabs, loc, f, src, [], x);
      assert IsLeaf(tabs, loc, p.0, p.1, f) && IsLeaf(tabs', loc, p.0, p.1, f);
    }
  }

  /** With one role per frame and no counts, exactly the frames mapped below completed entries are lost. */
  lemma FailedLoses(tabs: Tables, loc: Locs, free: set<int>, c: seq<Count>, src: nat, x: nat, done: set<nat>, f: nat)
    requires Forest(tabs, loc) && Owned(tabs, loc, free, |c|) && (forall p :: 0 <= p < |c| ==> c[p] == 0)
    requires done <= LeafTables(loc, src, [])
    ensures LostBy(tabs, loc, c, src, x, done, f) <==> PartSlots(tabs, loc, f, src, [], x) != {}
  {
    var n := PartSlots(tabs, loc, f, src, [], x);
    if n != {} {
      var p :| p in n;
      assert IsLeaf(tabs, loc, p.0, p.1, f);
      assert forall q :: q in ShareSlots(tabs, done, f) ==> IsLeaf(tabs, loc, q.0, q.1, f);
      assert ShareSlots(tabs, done, f) <= {p};
      SubsetSize(ShareSlots(tabs, done, f), {p});
      SharesSmall(|ShareSlots(tabs, done, f)|);
    }
  }

  lemma SharesSmall(n: nat)
    requires n <= 1
    ensures Shares(0, n) == n
  {
  }

  /** In particular a page below a completed entry loses its frame. */
  lemma FailedLosesPage(tabs: Tables, loc: Locs, free: set<int>, c: seq<Count>, src: nat, x: nat, done: set<nat>,
                        page: seq<nat>)
    requires Forest(tabs, loc) && Owned(tabs, loc, free, |c|) && (forall p :: 0 <= p < |c| ==> c[p] == 0)
    requires done <= LeafTables(loc, src, []) && IsRoot(loc, src) && |page| == 4 && IsPath(page) && page[0] < x
    requires Lookup(tabs, src, page).Some?
    ensures LostBy(tabs, loc, c, src, x, done, Lookup(tabs, src, page).value.frame)
  {
    var f := Lookup(tabs, src, page).value.frame;
    var u := Walk(tabs, src, page[..3]).value;
    WalkExactly(tabs, loc, src, page[..3], u);
    assert loc[u].path + [page[3]] == page;
    assert (u, page[3]) in PartSlots(tabs, loc, f, src, [], x);
    FailedLoses(tabs, loc, free, c, src, x, done, f);
  }

  /** Putting the facts about a finished clone together. */
  lemma CloneFinish(tabs0: Tables, tabs1: Tables, tabs: Tables, loc: Locs, free0: set<int>, free1: set<int>,
                    free: set<int>,
                    c0: seq<Count>, c: seq<Count>, src: nat, dst: nat, m: Copies, w: Copies)
    requires Forest(tabs0, loc) && IsRoot(loc, src) && TablesTaken(loc, free0, |c0|) && Backed(tabs0, loc, free0)
    requires dst in free0 && dst !in loc && free1 == free0 - {dst} && dst in tabs1 && tabs1 == tabs0[dst := tabs1[dst]]
    requires Image(tabs1, tabs, loc, src, dst, USER_HALF, m, w) && Fresh(w, free1, free)
    requires (forall d :: d in w ==> w[d] in loc)
    requires OnlyCowed(tabs1, tabs, free1, LeafTables(loc, src, []), {dst}) && SameTranslations(tabs0, loc, tabs1)
    requires Counted(tabs1, LeafTables(loc, src, []), c0, c)
    ensures CloneDone(tabs0, loc, free0, c0, tabs, CloneLoc(loc, w, dst), free, c, src, dst)
    ensures Backed(tabs, CloneLoc(loc, w, dst), free)
  {
    var all := LeafTables(loc, src, []);
    var k := CloneLoc(loc, w, dst);
    CloneTranslations(tabs0, tabs1, tabs, loc, free1, |c0|, src, dst, m, w);
    ImageIsNew(loc, w, free0, free, dst);
    NewRootLeaves(tabs0, tabs1, loc, free0, dst);
    assert free1 + {dst} == free0;
    ImageBacked(tabs1, tabs, loc, free1, src, dst, USER_HALF, m, w, all);
    LocTables(tabs0, loc);
    CountedBase(tabs0, tabs1, all, c0, c);
    forall f: nat, r: nat | IsRoot(loc, r) ensures SubSlots(tabs, k, f, r, []) == SubSlots(tabs0, loc, f, r, []) {
      SourceSlots(tabs1, tabs, loc, free1, |c0|, dst, w, all, r, f);
    }
    forall f: nat ensures |SubSlots(tabs, k, f, dst, [])| == |SubSlots(tabs0, loc, f, src, [])| {
      ImageSlots(tabs1, tabs, loc, src, dst, USER_HALF, m, w, f);
      PartWhole(tabs1, loc, src, f, USER_HALF);
    }
  }

  lemma LocTables(tabs: Tables, loc: Locs)
    requires Forest(tabs, loc)
    ensures forall g :: g in loc ==> g in tabs
  {
    forall g | g in loc ensures g in tabs {
      assert NodeAt(tabs, loc, g);
    }
  }

  /** Putting the facts about an abandoned clone together. */
  lemma FailFinish(tabs0: Tables, tabs1: Tables, tabs: Tables, loc: Locs, free0: set<int>, free1: set<int>,
                   free: set<int>,
                   c0: seq<Count>, c1: seq<Count>, c: seq<Count>, src: nat, dst: nat, x: nat, m: Copies, w: Copies,
                   done: set<nat>)
    requires Forest(tabs0, loc) && IsRoot(loc, src) && TablesTaken(loc, free0, |c0|) && Backed(tabs0, loc, free0)
    requires dst in free0 && dst !in loc && free1 == free0 - {dst} && dst in tabs1 && tabs1 == tabs0[dst := tabs1[dst]]
    requires Image(tabs1, tabs, loc, src, dst, x, m, w) && Fresh(w, free1, {}) && (forall d :: d in w ==> w[d] in loc)
    requires OnlyCowed(tabs1, tabs, free1, done, {dst}) && Counted(tabs1, done, c0, c1)
    requires PartLeafTables(loc, src, [], x) <= done <= LeafTables(loc, src, [])
    requires Reached(loc, src, [], |free1| + 1, done)
    requires x < USER_HALF && |PartTables(loc, src, [], x)| <= |free1| < |PartTables(loc, src, [], x + 1)|
    requires AllGivenBack(tabs, CloneLoc(loc, w, dst), {}, c1, free, c, dst, []) && (forall f :: f in free ==> f >= 0)
    ensures CloneFailed(tabs0, loc, free0, c0, tabs, free, c, src, x, done)
  {
    LocTables(tabs0, loc);
    CountedBase(tabs0, tabs1, done, c0, c1);
    NewRootLeaves(tabs0, tabs1, loc, free0, dst);
    forall f: nat ensures BackAt({}, c1, free, c, f, f == dst || f in w, |PartSlots(tabs0, loc, f, src, [], x)|) {
      FailedAt(tabs1, tabs, loc, free, c1, c, src, dst, x, m, w, f);
    }
    FailedFrames(tabs0, loc, free0, free, c0, c1, c, src, dst, x, w, done);
    FailedTables(tabs0, loc, free0, free, c1, c, src, dst, x, m, w);
    OnlyCowedRoot(tabs0, tabs1, tabs, free0, dst, done);
  }

  lemma OnlyCowedRoot(tabs0: Tables, tabs1: Tables, tabs: Tables, free0: set<int>, dst: nat, done: set<nat>)
    requires dst in free0 && dst in tabs1 && tabs1 == tabs0[dst := tabs1[dst]]
    requires OnlyCowed(tabs1, tabs, free0 - {dst}, done, {dst})
    ensures OnlyCowed(tabs0, tabs, free0, done, {})
  {
    forall g: nat | g in tabs0 && g !in free0
      ensures if g in done then WhollyCowed(tabs0, tabs, g) else g in tabs && tabs[g] == tabs0[g]
    {
      assert g in tabs1 && tabs1[g] == tabs0[g];
    }
  }

  lemma FailedFrames(tabs0: Tables, loc: Locs, free0: set<int>, free: set<int>, c0: seq<Count>, c1: seq<Count>,
                     c: seq<Count>,
                     src: nat, dst: nat, x: nat, w: Copies, done: set<nat>)
    requires |c1| == |c0| && |c| == |c0| && Counted(tabs0, done, c0, c1) && dst in free0
    requires (forall d :: d in w ==> d in free0)
    requires forall f: nat :: BackAt({}, c1, free, c, f, f == dst || f in w, |PartSlots(tabs0, loc, f, src, [], x)|)
    ensures forall f: nat :: f !in free0 ==> (f in free <==> LostBy(tabs0, loc, c0, src, x, done, f))
    ensures forall f: nat :: f < |c0| ==>
      c[f] == Dropped(CountAfter(tabs0, done, c0, f), |PartSlots(tabs0, loc, f, src, [], x)|)
  {
    forall f: nat
      ensures f !in free0 ==> (f in free <==> LostBy(tabs0, loc, c0, src, x, done, f))
      ensures f < |c0| ==> c[f] == Dropped(CountAfter(tabs0, done, c0, f), |PartSlots(tabs0, loc, f, src, [], x)|)
    {
      assert BackAt({}, c1, free, c, f, f == dst || f in w, |PartSlots(tabs0, loc, f, src, [], x)|);
    }
  }

  lemma FailedAt(tabs1: Tables, tabs: Tables, loc: Locs, free: set<int>, c1: seq<Count>, c: seq<Count>, src: nat,
                 dst: nat, x: nat,
                 m: Copies, w: Copies, f: nat)
    requires Image(tabs1, tabs, loc, src, dst, x, m, w) && (forall d :: d in w ==> w[d] in loc)
    requires AllGivenBack(tabs, CloneLoc(loc, w, dst), {}, c1, free, c, dst, [])
    ensures BackAt({}, c1, free, c, f, f == dst || f in w, |PartSlots(tabs1, loc, f, src, [], x)|)
  {
    var k := CloneLoc(loc, w, dst);
    ImageSlots(tabs1, tabs, loc, src, dst, x, m, w, f);
    if f in loc {
      RootLocated(tabs, loc, f);
    }
    assert SubTable(k, f, dst, []) <==> f == dst || f in w;
    assert BackAt({}, c1, free, c, f, SubTable(k, f, dst, []), |SubSlots(tabs, k, f, dst, [])|);
  }

  /** Of the frames taken for the clone, those linked below its root come back. */
  lemma FailedTables(tabs0: Tables, loc: Locs, free0: set<int>, free: set<int>, c1: seq<Count>, c: seq<Count>,
                     src: nat, dst: nat, x: nat, m: Copies, w: Copies)
    requires Backed(tabs0, loc, free0) && Paired(m, w) && dst in free0 && dst !in w
    requires (forall d :: d in w ==> d in free0)
    requires forall s :: s in m <==> PartTable(loc, s, src, [], x)
    requires forall f: nat :: BackAt({}, c1, free, c, f, f == dst || f in w, |PartSlots(tabs0, loc, f, src, [], x)|)
    requires forall f :: f in free ==> f >= 0
    ensures |free * free0| == 1 + |PartTables(loc, src, [], x)|
  {
    var ws: set<int> := set d | d in w;
    forall f: nat | f in free * free0 ensures f == dst || f in w {
      assert BackAt({}, c1, free, c, f, f == dst || f in w, |PartSlots(tabs0, loc, f, src, [], x)|);
      NotMapped(tabs0, loc, free0, f, src, x);
    }
    forall d: nat | d == dst || d in w ensures d in free {
      assert BackAt({}, c1, free, c, d, d == dst || d in w, |PartSlots(tabs0, loc, d, src, [], x)|);
    }
    UnionSize({dst as int}, ws, free * free0);
    PairedSize(m, w, ws, PartTables(loc, src, [], x));
  }

  lemma NotMapped(tabs: Tables, loc: Locs, free: set<int>, f: nat, src: nat, x: nat)
    requires Backed(tabs, loc, free) && f in free
    ensures PartSlots(tabs, loc, f, src, [], x) == {}
  {
    forall u, l ensures !IsLeaf(tabs, loc, u, l, f) {
    }
  }

  lemma PairedSize(m: Copies, w: Copies, ws: set<int>, ms: set<nat>)
    requires Paired(m, w) && ws == (set d | d in w) && (forall s :: s in ms <==> s in m)
    ensures |ws| == |ms|
  {
    SameSize(ms, ws, m, map d: int | d in ws :: w[d]);
  }

  /** The state of the loop over directory `t` with counts and the number of frames taken. */
  ghost predicate Copying(tabs0: Tables, free0: set<int>, c0: seq<Count>, tabs: Tables, free: set<int>, c: seq<Count>,
                          loc: Locs, t: nat, d: nat, x: nat, m: Copies, w: Copies) {
    && DirState(tabs0, tabs, loc, free0, free, t, d, x, m, w)
    && Counted(tabs0, PartLeafTables(loc, loc[t].root, loc[t].path, x), c0, c)
    && |free| == |free0| - |PartTables(loc, loc[t].root, loc[t].path, x)|
  }

  /** Where the loop stops: behind the last entry, or at one whose tables do not fit. */
  ghost predicate CopyEnded(tabs0: Tables, free0: set<int>, c0: seq<Count>, tabs: Tables, free: set<int>, c: seq<Count>,
                            loc: Locs, t: nat, d: nat, x: nat, m: Copies, w: Copies, done: set<nat>, ok: bool) {
    && DirStopped(tabs0, tabs, loc, free0, free, t, d, x, m, w, done) && Counted(tabs0, done, c0, c)
    && var r, path := loc[t].root, loc[t].path;
       if ok then
         && x == Limit(path) && done == PartLeafTables(loc, r, path, x)
         && |free| == |free0| - |PartTables(loc, r, path, x)|
       else
         && x < Limit(path) && free == {} && Reached(loc, r, path, |free0| + 1, done)
         && |PartTables(loc, r, path, x)| <= |free0| < |PartTables(loc, r, path, x + 1)|
  }

  lemma CopyingStart(tabs: Tables, free: set<int>, c: seq<Count>, loc: Locs, t: nat, d: nat)
    requires Forest(tabs, loc) && t in loc && |loc[t].path| < 3 && d in tabs && |tabs[d]| == ENTRIES
    ensures Copying(tabs, free, c, tabs, free, c, loc, t, d, 0, map[], map[])
  {
    DirStart(tabs, loc, free, t, d);
    CountedNone(tabs, c);
    assert PartTables(loc, loc[t].root, loc[t].path, 0) == {};
    assert PartLeafTables(loc, loc[t].root, loc[t].path, 0) == {};
  }

  lemma CopyingDone(tabs0: Tables, free0: set<int>, c0: seq<Count>, tabs: Tables, free: set<int>, c: seq<Count>,
                    loc: Locs, t: nat, d: nat, x: nat, m: Copies, w: Copies)
    requires Copying(tabs0, free0, c0, tabs, free, c, loc, t, d, x, m, w) && x == Limit(loc[t].path)
    ensures CopyEnded(tabs0, free0, c0, tabs, free, c, loc, t, d, x, m, w,
                      PartLeafTables(loc, loc[t].root, loc[t].path, x), true)
  {
    DirDone(tabs0, tabs, loc, free0, free, t, d, x, m, w);
  }

  /** The counts after the tables below entry `x` were copied as well. */
  lemma ChildCounted(tabs0: Tables, tabs1: Tables, loc: Locs, free0: set<int>, t: nat, d: nat, x: nat, m: Copies,
                     below: set<nat>, c0: seq<Count>, c1: seq<Count>, c2: seq<Count>, total: nat)
    requires Forest(tabs0, loc) && TablesTaken(loc, free0, total) && t in loc && d !in loc
    requires forall s :: s in m <==> PartTable(loc, s, loc[t].root, loc[t].path, x)
    requires OnlyCowed(tabs0, tabs1, free0, PartLeafTables(loc, loc[t].root, loc[t].path, x), {d})
    requires below <= LeafTables(loc, loc[t].root, loc[t].path + [x])
    requires Counted(tabs0, PartLeafTables(loc, loc[t].root, loc[t].path, x), c0, c1) && Counted(tabs1, below, c1, c2)
    ensures Counted(tabs0, PartLeafTables(loc, loc[t].root, loc[t].path, x) + below, c0, c2)
  {
    NotPartBelow(loc, loc[t].root, loc[t].path, x, m);
    LocTables(tabs0, loc);
    CountedMore(tabs0, tabs1, PartLeafTables(loc, loc[t].root, loc[t].path, x), below, c0, c1, c2);
  }

  /** The state between the creation of the root `dst` and the copying: `tabs0` and `free0` are from before both. */
  ghost predicate Rooted(tabs0: Tables, free0: set<int>, tabs1: Tables, free1: set<int>, loc: Locs, src: nat, dst: nat,
                         total: nat) {
    && Forest(tabs0, loc) && Forest(tabs1, loc) && IsRoot(loc, src) && TablesTaken(loc, free0, total)
    && Backed(tabs0, loc, free0)
    && dst in free0 && dst !in loc && 0 < dst < total && free1 == free0 - {dst}
    && (forall f :: f in free1 ==> f < total)
    && dst in tabs1 && |tabs1[dst]| == ENTRIES && tabs1 == tabs0[dst := tabs1[dst]]
    && SameTranslations(tabs0, loc, tabs1)
    && (forall y :: 0 <= y < USER_HALF ==> tabs1[dst][y] == EMPTY)
  }

  /** A loop over the source's root that ran to its end makes a finished clone. */
  lemma CloneCompleted(tabs0: Tables, tabs1: Tables, tabs: Tables, loc: Locs, free0: set<int>, free1: set<int>,
                       free: set<int>,
                       c0: seq<Count>, c: seq<Count>, src: nat, dst: nat, x: nat, m: Copies, w: Copies, done: set<nat>)
    requires Rooted(tabs0, free0, tabs1, free1, loc, src, dst, |c0|)
    requires CopyEnded(tabs1, free1, c0, tabs, free, c, loc, src, dst, x, m, w, done, true)
    ensures (forall d :: d in w ==> w[d] in loc) && Forest(tabs, CloneLoc(loc, w, dst))
    ensures TablesTaken(CloneLoc(loc, w, dst), free, |c0|) && Backed(tabs, CloneLoc(loc, w, dst), free)
    ensures CloneDone(tabs0, loc, free0, c0, tabs, CloneLoc(loc, w, dst), free, c, src, dst)
  {
    StoppedImage(tabs0, tabs1, tabs, loc, free1, free, |c0|, src, dst, x, m, w, done);
    AllLeafTables(tabs, loc, src);
    CloneFinish(tabs0, tabs1, tabs, loc, free0, free1, free, c0, c, src, dst, m, w);
  }

  /** Whether the loop over the source's root runs to its end is a matter of numbers. */
  lemma RootEnds(tabs0: Tables, tabs1: Tables, tabs: Tables, loc: Locs, free0: set<int>, free1: set<int>,
                 free: set<int>,
                 c0: seq<Count>, c: seq<Count>, src: nat, dst: nat, x: nat, m: Copies, w: Copies, done: set<nat>,
                 ok: bool)
    requires Rooted(tabs0, free0, tabs1, free1, loc, src, dst, |c0|)
    requires CopyEnded(tabs1, free1, c0, tabs, free, c, loc, src, dst, x, m, w, done, ok)
    ensures ok <==> |SubTables(loc, src, [])| <= |free0|
    ensures ok ==> |free| == |free0| - |SubTables(loc, src, [])|
  {
    SubTablesWhole(tabs0, loc, src);
    if !ok {
      PartTablesGrow(loc, src, [], x + 1, USER_HALF);
    }
  }

  lemma StoppedBacked(tabs0: Tables, tabs1: Tables, tabs: Tables, loc: Locs, free0: set<int>, free1: set<int>,
                      src: nat, dst: nat, x: nat, m: Copies, w: Copies, done: set<nat>)
    requires dst in free0 && free1 == free0 - {dst} && dst in tabs1 && tabs1 == tabs0[dst := tabs1[dst]]
    requires Backed(tabs0, loc, free0)
    requires Image(tabs1, tabs, loc, src, dst, x, m, w) && OnlyCowed(tabs1, tabs, free1, done, {dst})
    requires (forall d :: d in w ==> d in free1 && w[d] in loc) && (forall t :: t in loc ==> t !in free0)
    ensures LeavesApart(tabs, CloneLoc(loc, w, dst)) && KeptLoc(CloneLoc(loc, w, dst), dst) == loc
  {
    NewRootLeaves(tabs0, tabs1, loc, free0, dst);
    assert free1 + {dst} == free0;
    ImageBacked(tabs1, tabs, loc, free1, src, dst, x, m, w, done);
    ImageRemoved(tabs, loc, w, dst);
  }

  // ---------- one table ----------

  /**
   Table `t` and all below it copied, with `d` the copy of `t`: everything if there were frames enough, and
   nothing but some leaf tables turned copy-on-write otherwise.
   */
  ghost predicate TableCloned(tabs0: Tables, free0: set<int>, c0: seq<Count>, tabs: Tables, free: set<int>,
                              c: seq<Count>,
                              loc: Locs, t: nat, d: nat, m: Copies, w: Copies, done: set<nat>, ok: bool) {
    && t in loc && free <= free0 && done <= LeafTables(loc, loc[t].root, loc[t].path)
    && OnlyCowed(tabs0, tabs, free0, done, {}) && Counted(tabs0, done, c0, c)
    && var n := |SubTables(loc, loc[t].root, loc[t].path)|;
       if ok then
         && |free| == |free0| - n && Copied(tabs0, tabs, loc, m, w) && Fresh(w, free0, free) && t in m && m[t] == d
         && (forall s :: s in m <==> SubTable(loc, s, loc[t].root, loc[t].path))
         && done == LeafTables(loc, loc[t].root, loc[t].path)
       else |free0| < n && free == {} && Reached(loc, loc[t].root, loc[t].path, |free0|, done)
  }

  /** When the table `c` below entry `x` does not fit, the loop over the directory `t` stops there. */
  lemma ChildStopped(tabs0: Tables, tabs1: Tables, tabs2: Tables, loc: Locs, free0: set<int>, free1: set<int>,
                     t: nat, c: nat, d: nat, x: nat, m: Copies, w: Copies, dc: nat, mc: Copies, wc: Copies,
                     below: set<nat>, c0: seq<Count>, c1: seq<Count>, c2: seq<Count>, total: nat)
    requires Forest(tabs0, loc) && Forest(tabs1, loc) && TablesTaken(loc, free0, total) && d !in loc && d !in free0
    requires DirState(tabs0, tabs1, loc, free0, free1, t, d, x, m, w) && x < Limit(loc[t].path)
    requires c in loc && loc[c] == Loc(loc[t].root, loc[t].path + [x])
    requires Counted(tabs0, PartLeafTables(loc, loc[t].root, loc[t].path, x), c0, c1)
    requires TableCloned(tabs1, free1, c1, tabs2, {}, c2, loc, c, dc, mc, wc, below, false)
    requires |free1| == |free0| - |PartTables(loc, loc[t].root, loc[t].path, x)|
    ensures var done := PartLeafTables(loc, loc[t].root, loc[t].path, x) + below;
      && DirStopped(tabs0, tabs2, loc, free0, {}, t, d, x, m, w, done) && Counted(tabs0, done, c0, c2)
      && Reached(loc, loc[t].root, loc[t].path, |free0| + 1, done)
  {
    ChildCounted(tabs0, tabs1, loc, free0, t, d, x, m, below, c0, c1, c2, total);
    ReachedStop(tabs1, loc, t, x, |free1|, below);
    DirFail(tabs0, tabs1, tabs2, loc, free0, free1, {}, t, d, x, m, w, total, below);
  }

  lemma NoneCloned(tabs: Tables, c: seq<Count>, loc: Locs, t: nat)
    requires Forest(tabs, loc) && t in loc
    ensures TableCloned(tabs, {}, c, tabs, {}, c, loc, t, 0, map[], map[], {}, false)
  {
    SubTablesWhole(tabs, loc, t);
    CountedNone(tabs, c);
  }

  lemma LeafCloned(tabs0: Tables, free0: set<int>, c0: seq<Count>, tabs: Tables, free: set<int>, c: seq<Count>,
                   loc: Locs, t: nat, d: nat)
    requires Forest(tabs0, loc) && t in loc && |loc[t].path| == 3 && d in free0 && free == free0 - {d} && t !in free0
    requires t in tabs && d in tabs && |tabs[t]| == ENTRIES && |tabs[d]| == ENTRIES
    requires tabs == tabs0[t := tabs[t]][d := tabs[d]] && Counted(tabs0, {t}, c0, c)
    requires t in tabs0 && |tabs0[t]| == ENTRIES && forall y :: 0 <= y < ENTRIES ==> tabs[t][y] == Cow(tabs0[t][y])
    requires forall y :: 0 <= y < ENTRIES ==> tabs[d][y] == if tabs0[t][y].present then Cow(tabs0[t][y]) else EMPTY
    ensures TableCloned(tabs0, free0, c0, tabs, free, c, loc, t, d, map[t := d], map[d := t], {t}, true)
  {
    SubTablesWhole(tabs0, loc, t);
    LeafSub(tabs0, loc, t);
  }

  lemma DirectorySize(tabs: Tables, loc: Locs, t: nat, x: nat)
    requires Forest(tabs, loc) && t in loc
    ensures |SubTables(loc, loc[t].root, loc[t].path)| ==
      1 + |PartTables(loc, loc[t].root, loc[t].path, Limit(loc[t].path))|
    ensures x < Limit(loc[t].path) ==>
      && |PartTables(loc, loc[t].root, loc[t].path, x + 1)| <=
           |PartTables(loc, loc[t].root, loc[t].path, Limit(loc[t].path))|
  {
    SubTablesWhole(tabs, loc, t);
    if x < Limit(loc[t].path) {
      PartTablesGrow(loc, loc[t].root, loc[t].path, x + 1, Limit(loc[t].path));
    }
  }

  lemma DirectoryCloned(tabs0: Tables, tabs1: Tables, tabs: Tables, loc: Locs, free0: set<int>, free1: set<int>,
                        free: set<int>,
                        c0: seq<Count>, c: seq<Count>, t: nat, d: nat, x: nat, m: Copies, w: Copies, done: set<nat>,
                        ok: bool)
    requires Forest(tabs0, loc) && TablesTaken(loc, free0, |c0|) && d in free0 && free1 == free0 - {d}
    requires tabs1 == tabs0[d := seq(ENTRIES, i => EMPTY)] && t in loc && loc[t].path != []
    requires CopyEnded(tabs1, free1, c0, tabs, free, c, loc, t, d, x, m, w, done, ok)
    ensures TableCloned(tabs0, free0, c0, tabs, free, c, loc, t, d, m[t := d], w[d := t], done, ok)
  {
    DirectorySize(tabs0, loc, t, x);
    AllLeafTables(tabs0, loc, t);
    CloneTableDone(tabs0, tabs1, tabs, loc, free0, free1, free, t, d, x, m, w, |c0|, done, ok);
    LocTables(tabs0, loc);
    CountedBase(tabs0, tabs1, done, c0, c);
  }

  // ---------- after a fork ----------

  /** Whether a write fault on a page of frame `f`, after space `src` was cloned, copies the page. */
  ghost predicate ForkCopies(tabs: Tables, loc: Locs, c: seq<Count>, src: nat, f: nat) {
    f < |c| && Signed(CountAfter(tabs, LeafTables(loc, src, []), c, f)) > 1
  }

  /** The leaf table and index of a mapped page. */
  lemma PageSlot(tabs: Tables, loc: Locs, r: nat, page: seq<nat>) returns (u: nat)
    requires Forest(tabs, loc) && IsRoot(loc, r) && |page| == 4 && IsPath(page) && Lookup(tabs, r, page).Some?
    ensures u in loc && loc[u] == Loc(r, page[..3]) && u in tabs && |tabs[u]| == ENTRIES
    ensures tabs[u][page[3]] == Lookup(tabs, r, page).value
    ensures IsLeaf(tabs, loc, u, page[3], Lookup(tabs, r, page).value.frame)
  {
    u := Walk(tabs, r, page[..3]).value;
    WalkExactly(tabs, loc, r, page[..3], u);
    assert NodeAt(tabs, loc, u);
  }

  /** The user-writable entries of space `src` for frame `f`. */
  ghost function Writers(tabs: Tables, loc: Locs, src: nat, f: nat): nat {
    |ShareSlots(tabs, LeafTables(loc, src, []), f)|
  }

  /**
   Isolation after a fork.  The first write to a user-writable page is redirected to a copy if and only if the
   place of the count, moved on by the space's user-writable entries for the frame, lies between these bounds;
   short of overflow, if and only if the frame had a count or has two such entries.  Counts are not set when
   frames are allocated.
   */
  lemma ForkCopiesExactly(tabs: Tables, loc: Locs, c: seq<Count>, src: nat, page: seq<nat>)
    requires Forest(tabs, loc) && IsRoot(loc, src) && |page| == 4 && IsPath(page) && Lookup(tabs, src, page).Some?
    requires var e := Lookup(tabs, src, page).value; e.user && e.writable && e.frame < |c|
    ensures var f := Lookup(tabs, src, page).value.frame;
      var n := Writers(tabs, loc, src, f);
      && n >= 1
      && (ForkCopies(tabs, loc, c, src, f) <==> 2 <= (Place(c[f]) + n) % (REF_LIMIT - 1) <= 0x7FFF_FFFE)
      && (c[f] + n < 0x7FFF_FFFF ==> (ForkCopies(tabs, loc, c, src, f) <==> c[f] >= 1 || n >= 2))
  {
    var f := Lookup(tabs, src, page).value.frame;
    var u := PageSlot(tabs, loc, src, page);
    var a := ShareSlots(tabs, LeafTables(loc, src, []), f);
    assert (u, page[3]) in a;
    SubsetSize({(u, page[3])}, a);
    SharesExactly(c[f], |a|);
    if c[f] + |a| < 0x7FFF_FFFF {
      ClosedSmall(c[f], |a|);
    }
  }

  /**
   So with the counts of a system that never forked, parent and child go on sharing a page mapped once, one of
   them writing it.
   */
  lemma FirstForkShares(tabs: Tables, loc: Locs, c: seq<Count>, src: nat, page: seq<nat>)
    requires Forest(tabs, loc) && IsRoot(loc, src) && |page| == 4 && IsPath(page) && Lookup(tabs, src, page).Some?
    requires var e := Lookup(tabs, src, page).value;
      e.user && e.writable && e.frame < |c| && Writers(tabs, loc, src, e.frame) == 1 && c[e.frame] == 0
    ensures !ForkCopies(tabs, loc, c, src, Lookup(tabs, src, page).value.frame)
  {
    ForkCopiesExactly(tabs, loc, c, src, page);
  }

  /**
   What a clone that stops frees of the source, from the count of the frame and the number of its entries: `n`
   user-writable ones in the leaf tables reached, `m` of any kind below the completed top-level entries.  When
   all of these are user-writable, a frame is lost exactly if it had no count and one entry.
   */
  lemma LostByExactly(tabs: Tables, loc: Locs, c: seq<Count>, src: nat, x: nat, done: set<nat>, f: nat)
    requires f < |c|
    ensures var n, m := |ShareSlots(tabs, done, f)|, |PartSlots(tabs, loc, f, src, [], x)|;
      && (LostBy(tabs, loc, c, src, x, done, f) <==> Seen(f) && m > 0 && Closed(c[f], n) <= m)
      && (c[f] + n + 1 < REF_LIMIT ==>
            (LostBy(tabs, loc, c, src, x, done, f) <==>
               Seen(f) && m > 0 && c[f] + n + (if (c[f] == 1 && n >= 1) || (c[f] == 0 && n >= 2) then 1 else 0) <= m))
      && (c[f] + n + 1 < REF_LIMIT && n == m > 0 ==>
            (LostBy(tabs, loc, c, src, x, done, f) <==> Seen(f) && c[f] == 0 && m == 1))
  {
    var n := |ShareSlots(tabs, done, f)|;
    SharesExactly(c[f], n);
    if c[f] + n + 1 < REF_LIMIT {
      ClosedSmall(c[f], n);
    }
  }

  /** Destroying either side of a finished clone frees what a clone stopped behind the last entry would lose. */
  lemma ForkLoses(tabs0: Tables, loc0: Locs, free0: set<int>, c0: seq<Count>, tabs: Tables, loc: Locs, free: set<int>,
                  c: seq<Count>,
                  src: nat, dst: nat, victim: nat)
    requires Forest(tabs0, loc0) && IsRoot(loc0, src) && src != dst && (victim == src || victim == dst)
    requires CloneDone(tabs0, loc0, free0, c0, tabs, loc, free, c, src, dst)
    ensures (forall t, l, f: nat :: IsLeaf(tabs, loc, t, l, f) && loc[t].root != victim ==>
               !Lost(tabs, loc, c, victim, f)) <==>
            forall f: nat :: !LostBy(tabs0, loc0, c0, src, USER_HALF, LeafTables(loc0, src, []), f)
  {
    var all := LeafTables(loc0, src, []);
    var other := if victim == src then dst else src;
    forall f: nat
      ensures Lost(tabs, loc, c, victim, f) <==> LostBy(tabs0, loc0, c0, src, USER_HALF, all, f)
      ensures |SubSlots(tabs, loc, f, other, [])| == |SubSlots(tabs, loc, f, victim, [])|
    {
      PartWhole(tabs0, loc0, src, f, USER_HALF);
      assert SubSlots(tabs, loc, f, src, []) == SubSlots(tabs0, loc0, f, src, []);
      assert |SubSlots(tabs, loc, f, dst, [])| == |SubSlots(tabs0, loc0, f, src, [])|;
    }
    forall f: nat | Lost(tabs, loc, c, victim, f)
      ensures exists t, l :: IsLeaf(tabs, loc, t, l, f) && loc[t].root != victim
    {
      MappedSomewhere(tabs, loc, f, other);
    }
  }

  /** After space `src` was cloned and side `mine` wrote to `page`: what both sides map, and what is in it. */
  ghost predicate Forked(tabs: Tables, tabs': Tables, bytes: map<nat, seq<bv8>>, bytes': map<nat, seq<bv8>>,
                         mine: nat, other: nat, src: nat, page: seq<nat>, copies: bool)
    requires |page| == 4
  {
    && Lookup(tabs, src, page).Some? && Lookup(tabs', mine, page).Some?
    && var e, p := Lookup(tabs, src, page).value, Lookup(tabs', mine, page).value;
       && Lookup(tabs', other, page) == Some(Cow(e))
       && p.writable && p.user && !p.cow && (p.frame != e.frame <==> copies)
       && e.frame in bytes && e.frame in bytes' && p.frame in bytes'
       && bytes'[p.frame] == bytes[e.frame] && bytes'[e.frame] == bytes[e.frame]
  }

  lemma ForkFaulted(tabs0: Tables, loc0: Locs, tabs1: Tables, loc1: Locs, tabs2: Tables, bytes: map<nat, seq<bv8>>,
                    bytes2: map<nat, seq<bv8>>,
                    free1: set<int>, free2: set<int>, mine: nat, other: nat, src: nat, dst: nat, page: seq<nat>,
                    copies: bool)
    requires Cloned(tabs0, loc0, tabs1, src, dst) && IsRoot(loc0, src) && IsRoot(loc1, mine) && IsRoot(loc1, other)
    requires (mine == src && other == dst && src != dst) || (mine == dst && other == src && src != dst)
    requires |page| == 4 && IsPath(page) && Lookup(tabs0, src, page).Some?
    requires var e := Lookup(tabs0, src, page).value;
      && e.user && e.writable && e.frame in bytes
      && if copies then MadePrivate(tabs1, loc1, tabs2, bytes, bytes2, free1, free2, mine, page, Cow(e))
         else bytes2 == bytes && MadeWritable(tabs1, loc1, tabs2, mine, page, Cow(e))
    ensures Forked(tabs0, tabs2, bytes, bytes2, mine, other, src, page, copies)
  {
    ClonedPage(tabs0, loc0, tabs1, src, dst, page);
    assert Lookup(tabs2, other, page) == Lookup(tabs1, other, page);
  }
}
