/**
 Descriptor tables, shared nodes and pipe slots of vfs.c as one value, with the two elementary
 changes every VFS call is made of: pointing an empty descriptor slot at a node, and dropping one.

 Three fields have no counterpart in the C code and record history: `gen` numbers each stay of a node
 in the tables (an installation), `made` lists what was installed, and `closed` lists the
 installations whose backend close has run.
 */
module VfsModel {

  const MAX_NODES: int := 128
  const MAX_FDS: int := 32
  const MAX_PIPES: int := 16
  const NIL: int := -1

  /** The operation table a node points at; only its close entry matters here. */
  datatype Ops = NoOps | File(closes: bool) | PipeRead | PipeWrite | Console

  predicate HasClose(o: Ops) {
    (o.File? && o.closes) || o.PipeRead? || o.PipeWrite?
  }

  datatype Node = Node(refs: int, ops: Ops, fd: int)

  datatype Table = Table(fds: seq<int>, count: int)

  datatype Vfs = Vfs(
    nodes: seq<Node>,
    tables: map<int, Table>,
    inUse: seq<bool>,
    readers: seq<int>,
    writers: seq<int>,
    gen: map<int, nat>,
    made: seq<(Ops, int)>,
    closed: seq<nat>)

  predicate IsNode(n: int) {
    0 <= n < MAX_NODES
  }

  predicate IsPipe(p: int) {
    0 <= p < MAX_PIPES
  }

  /** The empty pool entry that `free_node` leaves. */
  const FREE_NODE: Node := Node(0, NoOps, -1)

  // ---------- invariants ----------

  ghost predicate WellFormed(s: Vfs) {
    && |s.nodes| == MAX_NODES
    && |s.inUse| == MAX_PIPES && |s.readers| == MAX_PIPES && |s.writers| == MAX_PIPES
    && (forall t :: t in s.tables ==> TableShape(s.tables[t]))
  }

  ghost predicate TableShape(t: Table) {
    |t.fds| == MAX_FDS && forall i :: 0 <= i < MAX_FDS ==> t.fds[i] == NIL || IsNode(t.fds[i])
  }

  /** All descriptor slots, in all live tables, that point at node `n`. */
  ghost function Slots(tables: map<int, Table>, n: int): set<(int, int)> {
    set t, i | t in tables && 0 <= i < |tables[t].fds| && tables[t].fds[i] == n :: (t, i)
  }

  ghost predicate Holds(tables: map<int, Table>, t: int, i: int, n: int) {
    t in tables && 0 <= i < |tables[t].fds| && tables[t].fds[i] == n
  }

  /** The open descriptors of a table. */
  ghost function Open(fds: seq<int>): set<int> {
    set i | 0 <= i < |fds| && fds[i] != NIL
  }

  /** The reference count of node `n` is the number of descriptors pointing at it. */
  ghost predicate RefsAt(s: Vfs, n: int)
    requires |s.nodes| == MAX_NODES && IsNode(n)
  {
    s.nodes[n].refs == |Slots(s.tables, n)|
  }

  /** Exactly the referenced nodes are numbered installations, each with its own number and description. */
  ghost predicate GenAt(s: Vfs, n: int)
    requires |s.nodes| == MAX_NODES && IsNode(n)
  {
    && (n in s.gen <==> Slots(s.tables, n) != {})
    && (n in s.gen ==>
          && s.gen[n] < |s.made| && s.made[s.gen[n]] == (s.nodes[n].ops, s.nodes[n].fd)
          && s.nodes[n].ops != NoOps)
  }

  /** Some node is on its stay number `g`. */
  ghost predicate Referenced(gen: map<int, nat>, g: nat) {
    exists n :: n in gen && gen[n] == g
  }

  /** Installation `g` was closed, exactly once, if it has a close operation and is no longer referenced. */
  ghost predicate CloseAt(s: Vfs, g: nat) {
    g < |s.made| ==> multiset(s.closed)[g] == (if HasClose(s.made[g].0) && !Referenced(s.gen, g) then 1 else 0)
  }

  /** References, installations and closes are in step. */
  ghost predicate Core(s: Vfs) {
    && WellFormed(s)
    && (forall n :: n in s.gen ==> IsNode(n))
    && (forall n, m :: n in s.gen && m in s.gen && s.gen[n] == s.gen[m] ==> n == m)
    && (forall n :: IsNode(n) ==> RefsAt(s, n))
    && (forall n :: IsNode(n) ==> GenAt(s, n))
    && (forall g: nat :: CloseAt(s, g))
    && (forall g :: g in s.closed ==> g < |s.made|)
  }

  /** Table `t` counts its open descriptors. */
  ghost predicate CountAt(s: Vfs, t: int) {
    t in s.tables ==> s.tables[t].count == |Open(s.tables[t].fds)|
  }

  /** Node `n` is a referenced end of pipe `p`. */
  ghost predicate IsEnd(s: Vfs, n: int, o: Ops, p: int) {
    n in s.gen && 0 <= n < |s.nodes| && s.nodes[n].ops == o && s.nodes[n].fd == p
  }

  /** An end counter is 1 while its end is referenced and 0 afterwards, and each end is one node. */
  ghost predicate EndAt(s: Vfs, o: Ops, p: int, c: int) {
    && (c == 0 || c == 1)
    && (c == 1 <==> exists n :: IsEnd(s, n, o, p))
    && (forall n, m :: IsEnd(s, n, o, p) && IsEnd(s, m, o, p) ==> n == m)
  }

  /** Pipe slot `p` is in use exactly while its read or its write node is referenced. */
  ghost predicate PipeAt(s: Vfs, p: int) {
    IsPipe(p) && WellFormed(s) ==>
      if s.inUse[p] then
        EndAt(s, PipeRead, p, s.readers[p]) && EndAt(s, PipeWrite, p, s.writers[p]) && s.readers[p] + s.writers[p] > 0
      else
        forall n :: !IsEnd(s, n, PipeRead, p) && !IsEnd(s, n, PipeWrite, p)
  }

  ghost predicate Inv(s: Vfs) {
    Core(s) && (forall t :: CountAt(s, t)) && (forall p :: PipeAt(s, p))
  }

  // ---------- elementary changes ----------

  /** Point the empty slot `i` of table `t` at node `n` and count the reference. */
  function Put(s: Vfs, t: int, i: int, n: int): (r: Vfs)
    requires WellFormed(s) && t in s.tables && 0 <= i < MAX_FDS && IsNode(n)
  {
    var T := s.tables[t];
    var r := s.(tables := s.tables[t := Table(T.fds[i := n], T.count + 1)],
                nodes := s.nodes[n := s.nodes[n].(refs := s.nodes[n].refs + 1)]);
    if n in s.gen then r
    else r.(gen := s.gen[n := |s.made|], made := s.made + [(s.nodes[n].ops, s.nodes[n].fd)])
  }

  /** The pipe bookkeeping done by the close operation of a node. */
  function CloseEnd(s: Vfs, o: Ops, p: int): (r: Vfs)
    requires WellFormed(s)
  {
    if !(o.PipeRead? || o.PipeWrite?) || !IsPipe(p) || !s.inUse[p] then s
    else
      var rd := s.readers[p] - (if o.PipeRead? then 1 else 0);
      var wr := s.writers[p] - (if o.PipeWrite? then 1 else 0);
      s.(readers := s.readers[p := rd], writers := s.writers[p := wr], inUse := s.inUse[p := !(rd <= 0 && wr <= 0)])
  }

  /** Drop one reference to node `n`; the last one runs the close operation and frees the node. */
  function Release(s: Vfs, n: int): (r: Vfs)
    requires WellFormed(s) && IsNode(n)
  {
    var node := s.nodes[n];
    if node.refs - 1 > 0 then s.(nodes := s.nodes[n := node.(refs := node.refs - 1)])
    else
      var c := if HasClose(node.ops) then CloseEnd(s, node.ops, node.fd) else s;
      c.(nodes := s.nodes[n := FREE_NODE],
         gen := s.gen - {n},
         closed := if HasClose(node.ops) && n in s.gen then s.closed + [s.gen[n]] else s.closed)
  }

  /** Drop slot `i` of table `t`; `fd_table_destroy` leaves the table's count alone. */
  function Drop(s: Vfs, t: int, i: int, counted: bool): (r: Vfs)
    requires WellFormed(s) && t in s.tables && 0 <= i < MAX_FDS && s.tables[t].fds[i] != NIL
  {
    var T := s.tables[t];
    var r := Release(s, T.fds[i]);
    r.(tables := s.tables[t := Table(T.fds[i := NIL], if counted then T.count - 1 else T.count)])
  }

  // ---------- slots under a single write ----------

  ghost function WithSlot(tables: map<int, Table>, t: int, i: int, x: int, c: int): map<int, Table>
    requires t in tables && 0 <= i < |tables[t].fds|
  {
    tables[t := Table(tables[t].fds[i := x], c)]
  }

  /** Writing slot (t, i) moves it from the slots of the old node to those of the new one. */
  lemma SlotWrite(tables: map<int, Table>, t: int, i: int, x: int, c: int, n: int)
    requires t in tables && 0 <= i < |tables[t].fds|
    ensures Slots(WithSlot(tables, t, i, x, c), n) == Slots(tables, n) - {(t, i)} + (if x == n then {(t, i)} else {})
    ensures (t, i) in Slots(tables, n) <==> tables[t].fds[i] == n
  {
    var r := WithSlot(tables, t, i, x, c);
    forall u, j ensures (u, j) in Slots(r, n) <==>
        (u, j) in Slots(tables, n) - {(t, i)} + (if x == n then {(t, i)} else {}) {
    }
  }

  lemma OpenWrite(fds: seq<int>, i: int, x: int)
    requires 0 <= i < |fds|
    ensures Open(fds[i := x]) == Open(fds) - {i} + (if x != NIL then {i} else {})
    ensures i in Open(fds) <==> fds[i] != NIL
  {
  }

  // ---------- the changes keep the invariants ----------

  /** Filling an empty slot adds one reference to the node it now points at. */
  lemma SlotFill(tables: map<int, Table>, t: int, i: int, n: int, c: int, m: int)
    requires t in tables && 0 <= i < |tables[t].fds| && tables[t].fds[i] == NIL && n != NIL && m != NIL
    ensures var before, after := Slots(tables, m), Slots(WithSlot(tables, t, i, n, c), m);
      |after| == |before| + (if m == n then 1 else 0) && (after != {} <==> before != {} || m == n)
  {
    SlotWrite(tables, t, i, n, c, m);
    var before, after := Slots(tables, m), Slots(WithSlot(tables, t, i, n, c), m);
    assert (t, i) !in before;
    if m == n {
      assert after == before + {(t, i)};
    } else {
      assert after == before;
    }
  }

  /** Reference counts and installation of node `m` after pointing an empty slot at node `n`. */
  lemma PutRefs(s: Vfs, t: int, i: int, n: int, m: int)
    requires WellFormed(s) && t in s.tables && 0 <= i < MAX_FDS && s.tables[t].fds[i] == NIL && IsNode(n) && IsNode(m)
    requires RefsAt(s, m) && GenAt(s, m) && s.nodes[n].ops != NoOps
    ensures RefsAt(Put(s, t, i, n), m) && GenAt(Put(s, t, i, n), m)
  {
    assert TableShape(s.tables[t]);
    SlotFill(s.tables, t, i, n, s.tables[t].count + 1, m);
  }

  /** Clearing a slot takes one reference from the node it pointed at. */
  lemma SlotClear(tables: map<int, Table>, t: int, i: int, c: int, m: int)
    requires t in tables && 0 <= i < |tables[t].fds| && tables[t].fds[i] != NIL && m != NIL
    ensures var before, after := Slots(tables, m), Slots(WithSlot(tables, t, i, NIL, c), m);
      |after| == |before| - (if m == tables[t].fds[i] then 1 else 0) && (m != tables[t].fds[i] ==> after == before)
  {
    SlotWrite(tables, t, i, NIL, c, m);
    var before, after := Slots(tables, m), Slots(WithSlot(tables, t, i, NIL, c), m);
    if m == tables[t].fds[i] {
      assert (t, i) in before;
      assert after == before - {(t, i)};
    } else {
      assert (t, i) !in before;
      assert after == before;
    }
  }

  lemma PutCloses(s: Vfs, t: int, i: int, n: int, g: nat)
    requires WellFormed(s) && t in s.tables && 0 <= i < MAX_FDS && IsNode(n)
    requires CloseAt(s, g) && (forall g :: g in s.closed ==> g < |s.made|)
    ensures CloseAt(Put(s, t, i, n), g)
  {
    var r := Put(s, t, i, n);
    if n !in s.gen {
      assert r.gen[n] == |s.made|;
      if Referenced(s.gen, g) {
        var k :| k in s.gen && s.gen[k] == g;
        assert r.gen[k] == g;
      }
      if g == |s.made| {
        assert g !in s.closed;
      }
    }
  }

  /** Pointing an empty slot at a live or freshly described node keeps references, installations and closes in step. */
  lemma PutCore(s: Vfs, t: int, i: int, n: int)
    requires Core(s) && t in s.tables && 0 <= i < MAX_FDS && s.tables[t].fds[i] == NIL && IsNode(n)
    requires s.nodes[n].ops != NoOps
    ensures Core(Put(s, t, i, n))
  {
    var r := Put(s, t, i, n);
    forall m | IsNode(m) ensures RefsAt(r, m) && GenAt(r, m) {
      assert RefsAt(s, m) && GenAt(s, m);
      PutRefs(s, t, i, n, m);
    }
    forall g: nat ensures CloseAt(r, g) {
      PutCloses(s, t, i, n, g);
    }
    forall u | u in r.tables ensures TableShape(r.tables[u]) {
      assert TableShape(s.tables[u]);
    }
  }

  /** Reference counts and installation of node `m` after dropping slot (t, i). */
  lemma DropRefs(s: Vfs, t: int, i: int, counted: bool, m: int)
    requires WellFormed(s) && t in s.tables && 0 <= i < MAX_FDS && s.tables[t].fds[i] != NIL && IsNode(m)
    requires RefsAt(s, m) && GenAt(s, m)
    ensures RefsAt(Drop(s, t, i, counted), m) && GenAt(Drop(s, t, i, counted), m)
  {
    assert TableShape(s.tables[t]);
    var T := s.tables[t];
    SlotClear(s.tables, t, i, if counted then T.count - 1 else T.count, m);
  }

  /** The log grows by one close exactly when the dropped slot was the last reference to a closable node. */
  lemma DropCloses(s: Vfs, t: int, i: int, counted: bool, g: nat)
    requires Core(s) && t in s.tables && 0 <= i < MAX_FDS && s.tables[t].fds[i] != NIL
    ensures CloseAt(Drop(s, t, i, counted), g)
  {
    assert TableShape(s.tables[t]);
    var n := s.tables[t].fds[i];
    assert RefsAt(s, n) && GenAt(s, n) && CloseAt(s, g);
    assert n in s.gen by {
      SlotClear(s.tables, t, i, 0, n);
    }
    var r := Drop(s, t, i, counted);
    if s.nodes[n].refs == 1 {
      assert Referenced(s.gen, s.gen[n]);
      if Referenced(s.gen, g) && s.gen[n] != g {
        var k :| k in s.gen && s.gen[k] == g;
        assert r.gen[k] == g;
      }
    }
  }

  /** Dropping a slot keeps references, installations and closes in step. */
  lemma DropCore(s: Vfs, t: int, i: int, counted: bool)
    requires Core(s) && t in s.tables && 0 <= i < MAX_FDS && s.tables[t].fds[i] != NIL
    ensures Core(Drop(s, t, i, counted))
  {
    var r := Drop(s, t, i, counted);
    forall m | IsNode(m) ensures RefsAt(r, m) && GenAt(r, m) {
      assert RefsAt(s, m) && GenAt(s, m);
      DropRefs(s, t, i, counted, m);
    }
    forall g: nat ensures CloseAt(r, g) {
      DropCloses(s, t, i, counted, g);
    }
    forall u | u in r.tables ensures TableShape(r.tables[u]) {
      assert TableShape(s.tables[u]);
    }
    assert TableShape(s.tables[t]);
    assert GenAt(s, s.tables[t].fds[i]);
  }

  lemma PutCount(s: Vfs, t: int, i: int, n: int, u: int)
    requires WellFormed(s) && t in s.tables && 0 <= i < MAX_FDS && s.tables[t].fds[i] == NIL && IsNode(n)
    requires CountAt(s, u)
    ensures CountAt(Put(s, t, i, n), u)
  {
    assert TableShape(s.tables[t]);
    OpenWrite(s.tables[t].fds, i, n);
  }

  lemma DropCount(s: Vfs, t: int, i: int, counted: bool, u: int)
    requires WellFormed(s) && t in s.tables && 0 <= i < MAX_FDS && s.tables[t].fds[i] != NIL
    requires CountAt(s, u) && (counted || u != t)
    ensures CountAt(Drop(s, t, i, counted), u)
  {
    assert TableShape(s.tables[t]);
    OpenWrite(s.tables[t].fds, i, NIL);
  }

  /** A state change that keeps the ends of pipe `p` and its counters keeps its invariant. */
  lemma SameEnds(s: Vfs, r: Vfs, p: int)
    requires WellFormed(s) && WellFormed(r) && IsPipe(p) && PipeAt(s, p)
    requires s.inUse[p] == r.inUse[p] && s.readers[p] == r.readers[p] && s.writers[p] == r.writers[p]
    requires forall n :: IsEnd(s, n, PipeRead, p) <==> IsEnd(r, n, PipeRead, p)
    requires forall n :: IsEnd(s, n, PipeWrite, p) <==> IsEnd(r, n, PipeWrite, p)
    ensures PipeAt(r, p)
  {
  }

  lemma PutPipe(s: Vfs, t: int, i: int, n: int, p: int)
    requires WellFormed(s) && t in s.tables && 0 <= i < MAX_FDS && s.tables[t].fds[i] == NIL && IsNode(n)
    requires PipeAt(s, p)
    requires (n in s.gen || !(s.nodes[n].ops.PipeRead? || s.nodes[n].ops.PipeWrite?) || s.nodes[n].fd != p)
    ensures PipeAt(Put(s, t, i, n), p)
  {
    if IsPipe(p) && WellFormed(Put(s, t, i, n)) {
      SameEnds(s, Put(s, t, i, n), p);
    }
  }

  lemma DropShape(s: Vfs, t: int, i: int, counted: bool)
    requires WellFormed(s) && t in s.tables && 0 <= i < MAX_FDS && s.tables[t].fds[i] != NIL
    ensures WellFormed(Drop(s, t, i, counted))
  {
    var r := Drop(s, t, i, counted);
    forall u | u in r.tables ensures TableShape(r.tables[u]) {
      assert TableShape(s.tables[u]);
    }
  }

  /** The ends of pipe `p` after node `n` lost its last reference. */
  lemma DropPipe(s: Vfs, t: int, i: int, counted: bool, p: int)
    requires Core(s) && t in s.tables && 0 <= i < MAX_FDS && s.tables[t].fds[i] != NIL
    requires PipeAt(s, p)
    ensures PipeAt(Drop(s, t, i, counted), p)
  {
    assert TableShape(s.tables[t]);
    var n := s.tables[t].fds[i];
    var r := Drop(s, t, i, counted);
    assert RefsAt(s, n) && GenAt(s, n);
    assert n in s.gen by {
      SlotClear(s.tables, t, i, 0, n);
    }
    if IsPipe(p) {
      DropShape(s, t, i, counted);
      var node := s.nodes[n];
      if node.refs > 1 || node.fd != p || !(node.ops.PipeRead? || node.ops.PipeWrite?) {
        SameEnds(s, r, p);
      } else {
        DropEnd(s, r, n, node.ops, p);
      }
    }
  }

  /** Losing one referenced end: its counter goes to zero, the other end is untouched. */
  lemma DropEnd(s: Vfs, r: Vfs, n: int, o: Ops, p: int)
    requires WellFormed(s) && WellFormed(r) && IsPipe(p) && PipeAt(s, p) && IsEnd(s, n, o, p)
    requires o == PipeRead || o == PipeWrite
    requires r.gen == s.gen - {n} && r.nodes == s.nodes[n := FREE_NODE]
    requires r.inUse == CloseEnd(s, o, p).inUse && r.readers == CloseEnd(s, o, p).readers
    requires r.writers == CloseEnd(s, o, p).writers
    ensures PipeAt(r, p)
  {
    var other := if o == PipeRead then PipeWrite else PipeRead;
    forall m ensures IsEnd(r, m, other, p) <==> IsEnd(s, m, other, p) {
    }
    forall m ensures !IsEnd(r, m, o, p) {
      if IsEnd(r, m, o, p) {
        assert IsEnd(s, m, o, p);
      }
    }
  }

  /** Dropping a descriptor keeps the whole invariant. */
  lemma DropInv(s: Vfs, t: int, i: int)
    requires Inv(s) && t in s.tables && 0 <= i < MAX_FDS && s.tables[t].fds[i] != NIL
    ensures Inv(Drop(s, t, i, true))
  {
    DropCore(s, t, i, true);
    var r := Drop(s, t, i, true);
    forall u ensures CountAt(r, u) {
      assert CountAt(s, u);
      DropCount(s, t, i, true, u);
    }
    forall p ensures PipeAt(r, p) {
      assert PipeAt(s, p);
      DropPipe(s, t, i, true, p);
    }
  }

  /** Adding a descriptor for a node that is already referenced, or is no pipe end, keeps the whole invariant. */
  lemma PutInv(s: Vfs, t: int, i: int, n: int)
    requires Inv(s) && t in s.tables && 0 <= i < MAX_FDS && s.tables[t].fds[i] == NIL && IsNode(n)
    requires s.nodes[n].ops != NoOps && (n in s.gen || !(s.nodes[n].ops.PipeRead? || s.nodes[n].ops.PipeWrite?))
    ensures Inv(Put(s, t, i, n))
  {
    PutCore(s, t, i, n);
    var r := Put(s, t, i, n);
    forall u ensures CountAt(r, u) {
      assert CountAt(s, u);
      PutCount(s, t, i, n, u);
    }
    forall p ensures PipeAt(r, p) {
      assert PipeAt(s, p);
      PutPipe(s, t, i, n, p);
    }
  }

  // ---------- the larger changes ----------

  /** Fill in a node taken from the pool; it is not referenced yet. */
  function Describe(s: Vfs, n: int, o: Ops, fd: int): (r: Vfs)
    requires WellFormed(s) && IsNode(n)
  {
    s.(nodes := s.nodes[n := Node(0, o, fd)])
  }

  /** Rewriting a pool entry nothing points at leaves every invariant alone. */
  lemma DescribeInv(s: Vfs, n: int, o: Ops, fd: int)
    requires Inv(s) && IsNode(n) && s.nodes[n].refs == 0
    ensures Inv(Describe(s, n, o, fd)) && n !in s.gen
  {
    var r := Describe(s, n, o, fd);
    assert RefsAt(s, n) && GenAt(s, n);
    forall m | IsNode(m) ensures RefsAt(r, m) && GenAt(r, m) {
      assert RefsAt(s, m) && GenAt(s, m);
    }
    forall g: nat ensures CloseAt(r, g) {
      assert CloseAt(s, g);
    }
    forall p ensures PipeAt(r, p) {
      assert PipeAt(s, p);
      if IsPipe(p) {
        SameEnds(s, r, p);
      }
    }
    forall u ensures CountAt(r, u) {
      assert CountAt(s, u);
    }
  }

  const EMPTY_FDS: seq<int> := seq(MAX_FDS, i => NIL)

  /** Adding or removing a table without open descriptors changes no reference. */
  lemma EmptyTableSlots(tables: map<int, Table>, t: int, T: Table, n: int)
    requires t !in tables && n != NIL && T.fds == EMPTY_FDS
    ensures Slots(tables[t := T], n) == Slots(tables, n)
  {
  }

  lemma NewTableInv(s: Vfs, t: int)
    requires Inv(s) && t !in s.tables
    ensures Inv(s.(tables := s.tables[t := Table(EMPTY_FDS, 0)]))
  {
    var r := s.(tables := s.tables[t := Table(EMPTY_FDS, 0)]);
    assert Open(EMPTY_FDS) == {};
    EmptyTableKeeps(s, r, t);
    forall u ensures CountAt(r, u) {
      assert CountAt(s, u);
    }
    forall p ensures PipeAt(r, p) {
      assert PipeAt(s, p);
      if IsPipe(p) {
        SameEnds(s, r, p);
      }
    }
  }

  /** References, installations and closes do not depend on a table without open descriptors. */
  lemma EmptyTableKeeps(s: Vfs, r: Vfs, t: int)
    requires t !in s.tables && t in r.tables && r.tables[t].fds == EMPTY_FDS
    requires r == s.(tables := s.tables[t := r.tables[t]])
    ensures Core(s) <==> Core(r)
  {
    forall m | IsNode(m) ensures Slots(r.tables, m) == Slots(s.tables, m) {
      EmptyTableSlots(s.tables, t, r.tables[t], m);
    }
    assert forall u :: u in s.tables ==> u in r.tables && r.tables[u] == s.tables[u];
    assert WellFormed(s) <==> WellFormed(r);
    if |s.nodes| == MAX_NODES {
      assert forall m :: IsNode(m) ==> (RefsAt(s, m) <==> RefsAt(r, m));
      assert forall m :: IsNode(m) ==> (GenAt(s, m) <==> GenAt(r, m));
    }
    assert forall g: nat :: CloseAt(s, g) <==> CloseAt(r, g);
  }

  /** Pipe slot `p` taken into use for one reader and one writer, before its ends are installed. */
  function ArmPipe(s: Vfs, p: int): (r: Vfs)
    requires WellFormed(s) && IsPipe(p)
  {
    s.(inUse := s.inUse[p := true], readers := s.readers[p := 1], writers := s.writers[p := 1])
  }

  /** `vfs_pipe` on success: two described nodes installed in two empty slots. */
  lemma PipeInv(s: Vfs, t: int, i: int, j: int, n: int, m: int, p: int)
    requires Inv(s) && t in s.tables && IsPipe(p) && !s.inUse[p]
    requires 0 <= i < MAX_FDS && 0 <= j < MAX_FDS && i != j && s.tables[t].fds[i] == NIL && s.tables[t].fds[j] == NIL
    requires IsNode(n) && IsNode(m) && n != m && n !in s.gen && m !in s.gen
    requires s.nodes[n] == Node(0, PipeRead, p) && s.nodes[m] == Node(0, PipeWrite, p)
    ensures Inv(Put(Put(ArmPipe(s, p), t, i, n), t, j, m))
  {
    PipeCore(s, t, i, j, n, m, p);
    var c := Put(Put(ArmPipe(s, p), t, i, n), t, j, m);
    forall u ensures CountAt(c, u) {
      PipeCounts(s, t, i, j, n, m, p, u);
    }
    forall q ensures PipeAt(c, q) {
      assert PipeAt(s, q);
      PipeEnds(s, c, n, m, p, q);
    }
  }

  lemma PipeCore(s: Vfs, t: int, i: int, j: int, n: int, m: int, p: int)
    requires Core(s) && t in s.tables && IsPipe(p) && IsNode(n) && IsNode(m)
    requires 0 <= i < MAX_FDS && 0 <= j < MAX_FDS && i != j && s.tables[t].fds[i] == NIL && s.tables[t].fds[j] == NIL
    requires s.nodes[n].ops != NoOps && s.nodes[m].ops != NoOps
    ensures Core(Put(ArmPipe(s, p), t, i, n)) && Core(Put(Put(ArmPipe(s, p), t, i, n), t, j, m))
  {
    var a := ArmPipe(s, p);
    ArmCore(s, p);
    PutCore(a, t, i, n);
    PutCore(Put(a, t, i, n), t, j, m);
  }

  /** The ends of pipe `q` once the ends `n` and `m` of pipe `p` are installed. */
  lemma PipeEnds(s: Vfs, c: Vfs, n: int, m: int, p: int, q: int)
    requires WellFormed(s) && WellFormed(c) && IsPipe(p) && PipeAt(s, q) && !s.inUse[p]
    requires c.inUse == s.inUse[p := true] && c.readers == s.readers[p := 1] && c.writers == s.writers[p := 1]
    requires forall x :: x in c.gen <==> x in s.gen || x == n || x == m
    requires forall x :: IsNode(x) ==> c.nodes[x].ops == s.nodes[x].ops && c.nodes[x].fd == s.nodes[x].fd
    requires IsNode(n) && IsNode(m) && n !in s.gen && m !in s.gen
    requires s.nodes[n].ops == PipeRead && s.nodes[n].fd == p && s.nodes[m].ops == PipeWrite && s.nodes[m].fd == p
    ensures PipeAt(c, q)
  {
    if IsPipe(q) && q != p {
      SameEnds(s, c, q);
    } else if q == p {
      assert IsEnd(c, n, PipeRead, p) && IsEnd(c, m, PipeWrite, p);
      forall x | IsEnd(c, x, PipeRead, p) ensures x == n {
        assert x != n ==> IsEnd(s, x, PipeRead, p);
      }
      forall x | IsEnd(c, x, PipeWrite, p) ensures x == m {
        assert x != m ==> IsEnd(s, x, PipeWrite, p);
      }
    }
  }

  lemma ArmCore(s: Vfs, p: int)
    requires Core(s) && IsPipe(p)
    ensures Core(ArmPipe(s, p))
  {
    UseFlagsCore(s, ArmPipe(s, p));
  }

  lemma PipeCounts(s: Vfs, t: int, i: int, j: int, n: int, m: int, p: int, u: int)
    requires WellFormed(s) && t in s.tables && IsPipe(p) && CountAt(s, u) && IsNode(n) && IsNode(m)
    requires 0 <= i < MAX_FDS && 0 <= j < MAX_FDS && i != j && s.tables[t].fds[i] == NIL && s.tables[t].fds[j] == NIL
    ensures WellFormed(Put(ArmPipe(s, p), t, i, n))
    ensures CountAt(Put(Put(ArmPipe(s, p), t, i, n), t, j, m), u)
  {
    var a := ArmPipe(s, p);
    assert CountAt(a, u);
    PutShape(a, t, i, n);
    PutCount(a, t, i, n, u);
    PutCount(Put(a, t, i, n), t, j, m, u);
  }

  lemma PutShape(s: Vfs, t: int, i: int, n: int)
    requires WellFormed(s) && t in s.tables && 0 <= i < MAX_FDS && IsNode(n)
    ensures WellFormed(Put(s, t, i, n))
  {
    var r := Put(s, t, i, n);
    forall u | u in r.tables ensures TableShape(r.tables[u]) {
      assert TableShape(s.tables[u]);
    }
  }

  /** Giving pipe slot `p` back when no end of it is referenced. */
  lemma DisarmInv(s: Vfs, r: Vfs, p: int)
    requires Core(r) && (forall u :: CountAt(r, u)) && IsPipe(p) && WellFormed(s)
    requires !r.inUse[p] && (forall n :: !IsEnd(r, n, PipeRead, p) && !IsEnd(r, n, PipeWrite, p))
    requires forall q :: PipeAt(s, q)
    requires forall q :: IsPipe(q) && q != p ==>
      r.inUse[q] == s.inUse[q] && r.readers[q] == s.readers[q] && r.writers[q] == s.writers[q]
    requires forall q, n, o :: q != p ==> (IsEnd(r, n, o, q) <==> IsEnd(s, n, o, q))
    ensures Inv(r)
  {
    forall q ensures PipeAt(r, q) {
      if IsPipe(q) && q != p {
        assert PipeAt(s, q);
        SameEnds(s, r, q);
      }
    }
  }

  /**
   `vfs_pipe` with room for one descriptor only: the read end is installed, dropped again, and the slot given
   back.
   */
  function AbortPipe(s: Vfs, t: int, i: int, n: int, p: int): (r: Vfs)
    requires WellFormed(s) && t in s.tables && 0 <= i < MAX_FDS && s.tables[t].fds[i] == NIL && IsNode(n) && IsPipe(p)
  {
    PutShape(ArmPipe(s, p), t, i, n);
    var d := Drop(Put(ArmPipe(s, p), t, i, n), t, i, true);
    d.(inUse := d.inUse[p := false])
  }

  lemma AbortPipeInv(s: Vfs, t: int, i: int, n: int, p: int)
    requires Inv(s) && t in s.tables && IsPipe(p) && !s.inUse[p] && 0 <= i < MAX_FDS && s.tables[t].fds[i] == NIL
    requires IsNode(n) && n !in s.gen && s.nodes[n] == Node(0, PipeRead, p)
    ensures Inv(AbortPipe(s, t, i, n, p)) && AbortPipe(s, t, i, n, p).tables == s.tables
  {
    AbortPipeFields(s, t, i, n, p);
    AbortPipeCore(s, t, i, n, p);
    var r := AbortPipe(s, t, i, n, p);
    forall u ensures CountAt(r, u) {
      assert CountAt(s, u);
    }
    assert PipeAt(s, p);
    forall m ensures !IsEnd(r, m, PipeRead, p) && !IsEnd(r, m, PipeWrite, p) {
      assert !IsEnd(s, m, PipeRead, p) && !IsEnd(s, m, PipeWrite, p);
    }
    DisarmInv(s, r, p);
  }

  lemma AbortPipeCore(s: Vfs, t: int, i: int, n: int, p: int)
    requires Core(s) && t in s.tables && IsPipe(p) && 0 <= i < MAX_FDS && s.tables[t].fds[i] == NIL
    requires IsNode(n) && s.nodes[n].ops != NoOps
    ensures Core(AbortPipe(s, t, i, n, p))
  {
    var a := ArmPipe(s, p);
    ArmCore(s, p);
    var b := Put(a, t, i, n);
    PutCore(a, t, i, n);
    var d := Drop(b, t, i, true);
    DropCore(b, t, i, true);
    UseFlagsCore(d, d.(inUse := d.inUse[p := false]));
  }

  lemma AbortPipeFields(s: Vfs, t: int, i: int, n: int, p: int)
    requires WellFormed(s) && t in s.tables && IsPipe(p) && 0 <= i < MAX_FDS && s.tables[t].fds[i] == NIL
    requires IsNode(n) && n !in s.gen && s.nodes[n] == Node(0, PipeRead, p)
    ensures var r := AbortPipe(s, t, i, n, p);
      && r.tables == s.tables && r.gen == s.gen && r.nodes == s.nodes[n := FREE_NODE]
      && r.inUse == s.inUse[p := false] && r.readers == s.readers[p := 0] && r.writers == s.writers[p := 1]
  {
    var r := AbortPipe(s, t, i, n, p);
    assert s.tables[t].fds[i := n][i := NIL] == s.tables[t].fds;
    assert s.tables[t] == Table(s.tables[t].fds, s.tables[t].count + 1 - 1);
    assert r.tables == s.tables;
    assert s.gen[n := |s.made|] - {n} == s.gen;
  }

  /** The core invariant does not look at the pipe slots. */
  lemma UseFlagsCore(d: Vfs, r: Vfs)
    requires Core(d) && |r.inUse| == |r.readers| == |r.writers| == MAX_PIPES
    requires r == d.(inUse := r.inUse, readers := r.readers, writers := r.writers)
    ensures Core(r)
  {
    forall m | IsNode(m) ensures RefsAt(r, m) && GenAt(r, m) {
      assert RefsAt(d, m) && GenAt(d, m);
    }
    forall g: nat ensures CloseAt(r, g) {
      assert CloseAt(d, g);
    }
  }

  // ---------- whole tables ----------

  /** A node some descriptor points at is installed. */
  lemma HeldIsInstalled(s: Vfs, t: int, i: int)
    requires Core(s) && t in s.tables && 0 <= i < MAX_FDS && s.tables[t].fds[i] != NIL
    ensures var n := s.tables[t].fds[i]; IsNode(n) && n in s.gen && s.nodes[n].ops != NoOps && s.nodes[n].refs >= 1
  {
    assert TableShape(s.tables[t]);
    var n := s.tables[t].fds[i];
    assert RefsAt(s, n) && GenAt(s, n);
    SlotClear(s.tables, t, i, 0, n);
  }

  /** The invariant, except for the descriptor count of table `t`. */
  ghost predicate InvBut(s: Vfs, t: int) {
    Core(s) && (forall u :: u != t ==> CountAt(s, u)) && (forall p :: PipeAt(s, p))
  }

  lemma DropInvBut(s: Vfs, t: int, i: int)
    requires InvBut(s, t) && t in s.tables && 0 <= i < MAX_FDS && s.tables[t].fds[i] != NIL
    ensures InvBut(Drop(s, t, i, false), t)
  {
    DropCore(s, t, i, false);
    var r := Drop(s, t, i, false);
    forall u | u != t ensures CountAt(r, u) {
      assert CountAt(s, u);
      DropCount(s, t, i, false, u);
    }
    forall p ensures PipeAt(r, p) {
      assert PipeAt(s, p);
      DropPipe(s, t, i, false, p);
    }
  }

  /** Freeing a table whose descriptors are all closed. */
  lemma RemoveTableInv(s: Vfs, t: int)
    requires InvBut(s, t) && t in s.tables && s.tables[t].fds == EMPTY_FDS
    ensures Inv(s.(tables := s.tables - {t}))
  {
    var r := s.(tables := s.tables - {t});
    assert s.tables == r.tables[t := s.tables[t]];
    EmptyTableKeeps(r, s, t);
    forall u ensures CountAt(r, u) {
      if u != t {
        assert CountAt(s, u);
      }
    }
    forall p ensures PipeAt(r, p) {
      assert PipeAt(s, p);
      if IsPipe(p) {
        SameEnds(s, r, p);
      }
    }
  }

  /** `vfs_dup2` past its checks: close what `newfd` holds, then share the node of `oldfd`. */
  function Dup2(s: Vfs, t: int, oldfd: int, newfd: int): (r: Vfs)
    requires WellFormed(s) && t in s.tables && 0 <= oldfd < MAX_FDS && 0 <= newfd < MAX_FDS
    requires s.tables[t].fds[oldfd] != NIL
  {
    assert TableShape(s.tables[t]);
    if s.tables[t].fds[newfd] == NIL then Put(s, t, newfd, s.tables[t].fds[oldfd])
    else
      DropShape(s, t, newfd, true);
      Put(Drop(s, t, newfd, true), t, newfd, s.tables[t].fds[oldfd])
  }

  /** `dup2` keeps the invariant, also onto a slot that already holds the same node. */
  lemma Dup2Inv(s: Vfs, t: int, oldfd: int, newfd: int)
    requires Inv(s) && t in s.tables && 0 <= oldfd < MAX_FDS && 0 <= newfd < MAX_FDS && s.tables[t].fds[oldfd] != NIL
    requires oldfd != newfd
    ensures Inv(Dup2(s, t, oldfd, newfd))
  {
    HeldIsInstalled(s, t, oldfd);
    var n := s.tables[t].fds[oldfd];
    if s.tables[t].fds[newfd] == NIL {
      PutInv(s, t, newfd, n);
    } else {
      var d := Drop(s, t, newfd, true);
      DropInv(s, t, newfd);
      HeldIsInstalled(d, t, oldfd);
      PutInv(d, t, newfd, n);
    }
  }

  /**
   `dup2` changes only slot `newfd`, which afterwards shares the installation of `oldfd`; when it
   already did, no count changes and nothing is closed.
   */
  lemma Dup2Effect(s: Vfs, t: int, oldfd: int, newfd: int)
    requires Core(s) && t in s.tables && 0 <= oldfd < MAX_FDS && 0 <= newfd < MAX_FDS && s.tables[t].fds[oldfd] != NIL
    requires oldfd != newfd
    ensures var r := Dup2(s, t, oldfd, newfd); var n := s.tables[t].fds[oldfd];
      && t in r.tables && r.tables[t].fds == s.tables[t].fds[newfd := n] && r.tables == s.tables[t := r.tables[t]]
      && IsNode(n) && r.nodes[n].ops == s.nodes[n].ops && r.nodes[n].fd == s.nodes[n].fd
      && n in s.gen && n in r.gen && r.gen[n] == s.gen[n]
      && (s.tables[t].fds[newfd] == n ==> r.nodes[n].refs == s.nodes[n].refs && r.closed == s.closed)
  {
    HeldIsInstalled(s, t, oldfd);
    if s.tables[t].fds[newfd] != NIL {
      DropKeepsHeld(s, t, oldfd, newfd);
      assert s.tables[t].fds[newfd := NIL][newfd := s.tables[t].fds[oldfd]] ==
             s.tables[t].fds[newfd := s.tables[t].fds[oldfd]];
    }
  }

  /** Dropping one slot leaves a node held by another slot installed as it was. */
  lemma DropKeepsHeld(s: Vfs, t: int, i: int, j: int)
    requires Core(s) && t in s.tables && 0 <= i < MAX_FDS && 0 <= j < MAX_FDS && i != j
    requires s.tables[t].fds[i] != NIL && s.tables[t].fds[j] != NIL
    ensures var r := Drop(s, t, j, true); var n := s.tables[t].fds[i];
      && IsNode(n) && n in s.gen && n in r.gen && r.gen[n] == s.gen[n]
      && r.nodes[n].ops == s.nodes[n].ops && r.nodes[n].fd == s.nodes[n].fd
      && (s.tables[t].fds[j] == n ==> r.nodes[n].refs == s.nodes[n].refs - 1 && r.closed == s.closed)
  {
    HeldIsInstalled(s, t, i);
    DropCore(s, t, j, true);
    HeldIsInstalled(Drop(s, t, j, true), t, i);
  }

  /** The counters of a pipe slot that is not in use do not matter. */
  lemma IdlePipeInv(s: Vfs, r: Vfs, p: int)
    requires Inv(s) && IsPipe(p) && !s.inUse[p]
    requires r == s.(readers := s.readers[p := 1], writers := s.writers[p := 1])
    ensures Inv(r)
  {
    UseFlagsCore(s, r);
    forall u ensures CountAt(r, u) {
      assert CountAt(s, u);
    }
    forall q ensures PipeAt(r, q) {
      assert PipeAt(s, q);
      if IsPipe(q) && q != p {
        SameEnds(s, r, q);
      }
      forall n ensures !IsEnd(r, n, PipeRead, p) && !IsEnd(r, n, PipeWrite, p) {
        assert PipeAt(s, p) && !IsEnd(s, n, PipeRead, p) && !IsEnd(s, n, PipeWrite, p);
      }
    }
  }

  /** A new node that is no pipe end, installed in an empty slot. */
  lemma InstallInv(s: Vfs, t: int, i: int, n: int, o: Ops, fd: int)
    requires Inv(s) && t in s.tables && 0 <= i < MAX_FDS && s.tables[t].fds[i] == NIL && IsNode(n)
    requires s.nodes[n].refs == 0
    requires o.File? || o.Console?
    ensures Inv(Put(Describe(s, n, o, fd), t, i, n))
  {
    DescribeInv(s, n, o, fd);
    PutInv(Describe(s, n, o, fd), t, i, n);
  }

  // ---------- what the invariant means ----------

  /**
   The backend close of an installed node runs when, and only when, the descriptor dropped is the last
   one that points at it in any table.
   */
  lemma CloseRunsAtLastDrop(s: Vfs, t: int, i: int, counted: bool)
    requires Core(s) && t in s.tables && 0 <= i < MAX_FDS && s.tables[t].fds[i] != NIL
    ensures var n := s.tables[t].fds[i]; var r := Drop(s, t, i, counted);
      && IsNode(n) && n in s.gen
      && r.closed == s.closed + (if Slots(s.tables, n) == {(t, i)} && HasClose(s.nodes[n].ops) then [s.gen[n]] else [])
      && (n in r.gen <==> Slots(s.tables, n) != {(t, i)})
  {
    HeldIsInstalled(s, t, i);
    var n := s.tables[t].fds[i];
    assert RefsAt(s, n);
    SlotWrite(s.tables, t, i, NIL, 0, n);
    assert (t, i) in Slots(s.tables, n);
    if s.nodes[n].refs == 1 {
      var rest := Slots(s.tables, n) - {(t, i)};
      assert |rest| == 0;
    }
  }

  /** Node `n` is filled in as an end of pipe `p`. */
  ghost predicate EndNode(nodes: seq<Node>, n: int, p: int) {
    0 <= n < |nodes| && (nodes[n].ops.PipeRead? || nodes[n].ops.PipeWrite?) && nodes[n].fd == p
  }

  /** A pipe slot is in use exactly while some descriptor in some table points at one of its ends. */
  lemma PipeInUseExactly(s: Vfs, p: int)
    requires Inv(s) && IsPipe(p)
    ensures s.inUse[p] <==> exists t, i, n :: Holds(s.tables, t, i, n) && EndNode(s.nodes, n, p)
  {
    assert PipeAt(s, p);
    if s.inUse[p] {
      var o := if s.readers[p] == 1 then PipeRead else PipeWrite;
      var n :| IsEnd(s, n, o, p);
      assert GenAt(s, n);
      var x :| x in Slots(s.tables, n);
      assert Holds(s.tables, x.0, x.1, n);
    } else {
      forall t, i, n | Holds(s.tables, t, i, n) && IsNode(n) ensures !EndNode(s.nodes, n, p) {
        assert TableShape(s.tables[t]);
        HeldIsInstalled(s, t, i);
        assert !IsEnd(s, n, PipeRead, p) && !IsEnd(s, n, PipeWrite, p);
      }
    }
  }

  /** No installation is ever closed twice, and one that is closed is no longer referenced. */
  lemma ClosedOnce(s: Vfs, g: nat)
    requires Core(s) && g in s.closed
    ensures multiset(s.closed)[g] == 1 && HasClose(s.made[g].0) && forall n :: n in s.gen ==> s.gen[n] != g
  {
    assert CloseAt(s, g);
    assert multiset(s.closed)[g] > 0;
  }
}
