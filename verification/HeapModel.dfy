/**
 The block list of kheap.c as a value: the list of blocks in address order, and what the allocator
 does to it.  The heap class in KHeap.dfy keeps linked headers and is proved to follow this model.
 */
module HeapModel {
  import opened Basics

  /** sizeof(kheap_block_t): 8 + 8 + 2 + 2 bytes, padded to the alignment of its pointer. */
  const HEADER: nat := 24
  const MIN_BLOCK_SIZE: nat := HEADER + 16

  datatype Block = Block(addr: nat, size: nat, used: bool)

  function EndOf(b: Block): nat {
    b.addr + HEADER + b.size
  }

  /** Block `i` starts where its predecessor ends. */
  ghost predicate MeetsAt(bs: seq<Block>, i: int)
    requires 0 < i < |bs|
  {
    bs[i].addr == EndOf(bs[i - 1])
  }

  /** Block `i` and its predecessor are not both free. */
  ghost predicate PairAt(bs: seq<Block>, i: int)
    requires 0 < i < |bs|
  {
    bs[i].used || bs[i - 1].used
  }

  /** The blocks cover [base, end) without gap or overlap. */
  ghost predicate Tiles(bs: seq<Block>, base: nat, end: nat) {
    && bs != []
    && bs[0].addr == base
    && EndOf(bs[|bs| - 1]) == end
    && forall i :: 0 < i < |bs| ==> MeetsAt(bs, i)
  }

  /** Total size of the blocks whose use flag is `used`. */
  function Total(bs: seq<Block>, used: bool): nat {
    if bs == [] then 0 else (if bs[0].used == used then bs[0].size else 0) + Total(bs[1..], used)
  }

  ghost predicate NoFreePair(bs: seq<Block>) {
    forall i :: 0 < i < |bs| ==> PairAt(bs, i)
  }

  // ---------- the split guard ----------

  /** The two readings of the test on lines 84 and 85 of kheap.c. */
  datatype Guard = AsWritten | Intended

  /** `block->size - size - sizeof(kheap_block_t)`, in 64-bit unsigned or in ordinary arithmetic. */
  function Remaining(guard: Guard, have: nat, want: nat): (r: int)
    ensures guard == AsWritten ==> r >= 0
  {
    var r := have - want - HEADER;
    if guard == Intended then r else r % WORD
  }

  predicate Splits(guard: Guard, have: nat, want: nat) {
    Remaining(guard, have, want) >= MIN_BLOCK_SIZE
  }

  /** The readings of the guard agree on a fitting block exactly when its slack holds a header. */
  lemma GuardsAgree(have: nat, want: nat)
    requires want <= have < WORD
    ensures (Splits(AsWritten, have, want) <==> Splits(Intended, have, want)) <==> have - want >= HEADER
    ensures have - want >= HEADER ==> Remaining(AsWritten, have, want) == Remaining(Intended, have, want)
    ensures have - want < HEADER ==> Remaining(AsWritten, have, want) == WORD + have - want - HEADER
  {
  }

  /** ALIGN_UP(size, 16) in 64-bit arithmetic. */
  function RoundUp(size: nat): (r: nat) {
    (size + 15) / 16 * 16 % WORD
  }

  /** The rounded request covers the request unless the addition wrapped to zero. */
  lemma RoundUpCovers(size: nat)
    requires size < WORD
    ensures RoundUp(size) % 16 == 0
    ensures RoundUp(size) >= size <==> size <= WORD - 16
    ensures size <= WORD - 16 ==> RoundUp(size) < size + 16
    ensures size > WORD - 16 ==> RoundUp(size) == 0
  {
  }

  // ---------- operations on the list ----------

  /** Index of the first free block of at least `want` bytes from `i` on, or the length of the list. */
  function FirstFit(bs: seq<Block>, want: nat, i: nat): (k: nat)
    requires i <= |bs|
    ensures i <= k <= |bs|
    ensures k < |bs| ==> !bs[k].used && bs[k].size >= want
    ensures forall j :: i <= j < k ==> bs[j].used || bs[j].size < want
    decreases |bs| - i
  {
    if i == |bs| || (!bs[i].used && bs[i].size >= want) then i else FirstFit(bs, want, i + 1)
  }

  /** Allocating `want` bytes at block `k`, keeping the rest as a free block when the guard allows. */
  function Carve(guard: Guard, bs: seq<Block>, k: nat, want: nat): (r: seq<Block>)
    requires k < |bs| && (Splits(guard, bs[k].size, want) ==> 0 <= Remaining(guard, bs[k].size, want))
  {
    bs[..k] + Pieces(guard, bs[k], want) + bs[k + 1..]
  }

  function Join(a: Block, b: Block): Block {
    Block(a.addr, a.size + HEADER + b.size, false)
  }

  /** What the loop of `merge_blocks` does from its current block on. */
  function Coalesce(bs: seq<Block>): (r: seq<Block>)
    ensures bs != [] ==> r != []
    decreases |bs|
  {
    if |bs| < 2 then bs
    else if !bs[0].used && !bs[1].used then Coalesce([Join(bs[0], bs[1])] + bs[2..])
    else [bs[0]] + Coalesce(bs[1..])
  }

  /** The request can be served without the wrapped guard writing a bogus header. */
  predicate Safe(guard: Guard, bs: seq<Block>, want: nat) {
    var k := FirstFit(bs, want, 0);
    guard == Intended || k == |bs| || bs[k].size - want >= HEADER
  }

  // ---------- facts ----------

  lemma {:induction false} TotalAppend(a: seq<Block>, b: seq<Block>, used: bool)
    ensures Total(a + b, used) == Total(a, used) + Total(b, used)
  {
    if a == [] {
      assert a + b == b;
    } else {
      assert (a + b)[1..] == a[1..] + b;
      TotalAppend(a[1..], b, used);
    }
  }

  /** Used bytes, free bytes and headers add up to the region. */
  lemma {:induction false} TilesTotal(bs: seq<Block>, base: nat, end: nat)
    requires Tiles(bs, base, end)
    ensures Total(bs, true) + Total(bs, false) + HEADER * |bs| == end - base
  {
    if |bs| == 1 {
      assert bs[1..] == [];
    } else {
      TilesTail(bs, base, end);
      TilesTotal(bs[1..], EndOf(bs[0]), end);
    }
  }

  lemma TilesTail(bs: seq<Block>, base: nat, end: nat)
    requires Tiles(bs, base, end) && |bs| > 1
    ensures Tiles(bs[1..], EndOf(bs[0]), end)
  {
    assert MeetsAt(bs, 1);
    forall i | 0 < i < |bs[1..]| ensures MeetsAt(bs[1..], i) {
      assert MeetsAt(bs, i + 1);
    }
  }

  /** Blocks earlier in the list end before later ones start. */
  lemma {:induction false} OrderedStep(bs: seq<Block>, base: nat, end: nat, i: nat, j: nat)
    requires Tiles(bs, base, end) && i < j < |bs|
    ensures EndOf(bs[i]) <= bs[j].addr
    decreases j
  {
    assert MeetsAt(bs, j);
    if i < j - 1 {
      OrderedStep(bs, base, end, i, j - 1);
    }
  }

  lemma {:induction false} InRegion(bs: seq<Block>, base: nat, end: nat, i: nat)
    requires Tiles(bs, base, end) && i < |bs|
    ensures base <= bs[i].addr && EndOf(bs[i]) <= end
  {
    if i > 0 {
      OrderedStep(bs, base, end, 0, i);
    }
    if i < |bs| - 1 {
      OrderedStep(bs, base, end, i, |bs| - 1);
    }
  }

  /** Payloads overlap neither each other nor any header. */
  lemma PayloadsDisjoint(bs: seq<Block>, base: nat, end: nat, i: nat, j: nat, x: nat)
    requires Tiles(bs, base, end) && i < |bs| && j < |bs| && i != j
    requires bs[i].addr + HEADER <= x < EndOf(bs[i])
    ensures base + HEADER <= x < end
    ensures x < bs[j].addr || EndOf(bs[j]) <= x
    ensures x >= bs[i].addr + HEADER
  {
    InRegion(bs, base, end, i);
    if i < j {
      OrderedStep(bs, base, end, i, j);
    } else {
      OrderedStep(bs, base, end, j, i);
    }
  }

  /** Replacing one block of a tiling by blocks that tile its span gives a tiling. */
  lemma TilesReplace(bs: seq<Block>, base: nat, end: nat, k: nat, mid: seq<Block>)
    requires Tiles(bs, base, end) && k < |bs| && Tiles(mid, bs[k].addr, EndOf(bs[k]))
    ensures Tiles(bs[..k] + mid + bs[k + 1..], base, end)
  {
    var r := bs[..k] + mid + bs[k + 1..];
    forall i | 0 < i < |r| ensures MeetsAt(r, i) {
      if i <= k {
        assert MeetsAt(bs, i);
      } else if i < k + |mid| {
        assert MeetsAt(mid, i - k);
      } else {
        assert MeetsAt(bs, i - |mid| + 1);
      }
    }
  }

  /** The part of the list from `k` on as a single split point for totals. */
  lemma TotalReplace(bs: seq<Block>, k: nat, mid: seq<Block>, used: bool)
    requires k < |bs|
    ensures Total(bs[..k] + mid + bs[k + 1..], used) ==
            Total(bs, used) - (if bs[k].used == used then bs[k].size else 0) + Total(mid, used)
  {
    assert bs == bs[..k] + ([bs[k]] + bs[k + 1..]);
    TotalAppend(bs[..k], [bs[k]] + bs[k + 1..], used);
    TotalAppend([bs[k]], bs[k + 1..], used);
    assert bs[..k] + mid + bs[k + 1..] == bs[..k] + (mid + bs[k + 1..]);
    TotalAppend(bs[..k], mid + bs[k + 1..], used);
    TotalAppend(mid, bs[k + 1..], used);
  }

  /** Replacing a free block by blocks that start used and hold no free pair makes no free pair. */
  lemma PairsReplace(bs: seq<Block>, k: nat, mid: seq<Block>)
    requires NoFreePair(bs) && k < |bs| && !bs[k].used
    requires NoFreePair(mid) && mid != [] && mid[0].used
    ensures NoFreePair(bs[..k] + mid + bs[k + 1..])
  {
    var r := bs[..k] + mid + bs[k + 1..];
    forall i | 0 < i < |r| ensures PairAt(r, i) {
      if i <= k {
        assert PairAt(bs, i);
      } else if i < k + |mid| {
        assert PairAt(mid, i - k);
      } else {
        assert PairAt(bs, i - |mid| + 1);
      }
    }
  }

  /** The blocks that replace a fitting free block on allocation. */
  function Pieces(guard: Guard, b: Block, want: nat): (mid: seq<Block>)
    requires Splits(guard, b.size, want) ==> 0 <= Remaining(guard, b.size, want)
    ensures mid != []
  {
    if Splits(guard, b.size, want) then
      [Block(b.addr, want, true), Block(b.addr + HEADER + want, Remaining(guard, b.size, want), false)]
    else
      [b.(used := true)]
  }

  lemma PiecesCorrect(guard: Guard, b: Block, want: nat)
    requires !b.used && want <= b.size < WORD
    requires guard == Intended || b.size - want >= HEADER
    ensures var mid := Pieces(guard, b, want);
      && Tiles(mid, b.addr, EndOf(b))
      && NoFreePair(mid)
      && mid[0].used && mid[0].addr == b.addr && want <= mid[0].size < want + HEADER + MIN_BLOCK_SIZE
      && (forall c :: c in mid && c.used ==> c == mid[0])
      && Total(mid, true) == mid[0].size
      && Total(mid, false) + mid[0].size + HEADER * (|mid| - 1) == b.size
  {
    GuardsAgree(b.size, want);
    var mid := Pieces(guard, b, want);
    if |mid| == 2 {
      assert mid == [mid[0]] + [mid[1]];
      assert [mid[0]][1..] == [] && [mid[1]][1..] == [];
      TotalAppend([mid[0]], [mid[1]], true);
      TotalAppend([mid[0]], [mid[1]], false);
    } else {
      assert mid[1..] == [];
    }
  }

  /**
   Allocation from a fitting free block keeps the tiling and the pairing invariant, moves exactly the
   carved size from free to used, and costs one header of free space when it splits.
   */
  lemma CarveCorrect(guard: Guard, bs: seq<Block>, base: nat, end: nat, k: nat, want: nat)
    requires Tiles(bs, base, end) && end < WORD && NoFreePair(bs)
    requires k < |bs| && !bs[k].used && want <= bs[k].size
    requires guard == Intended || bs[k].size - want >= HEADER
    ensures var r := Carve(guard, bs, k, want);
      && Tiles(r, base, end)
      && NoFreePair(r)
      && r[..k] == bs[..k]
      && r[k].addr == bs[k].addr && r[k].used && want <= r[k].size < want + HEADER + MIN_BLOCK_SIZE
      && Total(r, true) == Total(bs, true) + r[k].size
      && Total(r, false) + r[k].size == Total(bs, false) - HEADER * (|r| - |bs|)
      && (forall b :: b in bs && b.used ==> b in r)
      && (forall b :: b in r && b.used ==> b in bs || b == r[k])
  {
    InRegion(bs, base, end, k);
    var mid := Pieces(guard, bs[k], want);
    PiecesCorrect(guard, bs[k], want);
    TilesReplace(bs, base, end, k, mid);
    PairsReplace(bs, k, mid);
    TotalReplace(bs, k, mid, true);
    TotalReplace(bs, k, mid, false);
    KeepsUsed(bs, k, mid);
  }

  lemma KeepsUsed(bs: seq<Block>, k: nat, mid: seq<Block>)
    requires k < |bs| && !bs[k].used
    ensures forall b :: b in bs && b.used ==> b in bs[..k] + mid + bs[k + 1..]
    ensures forall b :: b in bs[..k] + mid + bs[k + 1..] && b.used ==> b in bs || b in mid
  {
    assert bs == bs[..k] + [bs[k]] + bs[k + 1..];
  }

  /**
   Coalescing keeps the tiling, the allocated blocks and the used total, leaves no two free
   neighbours, and turns each removed header into free space.
   */
  lemma CoalesceCorrect(bs: seq<Block>, base: nat, end: nat)
    requires Tiles(bs, base, end)
    ensures var r := Coalesce(bs);
      && Tiles(r, base, end)
      && NoFreePair(r)
      && Total(r, true) == Total(bs, true)
      && Total(r, false) == Total(bs, false) + HEADER * (|bs| - |r|)
      && (forall b: Block :: b.used ==> (b in r <==> b in bs))
  {
    CoalesceTiles(bs, base, end);
    CoalesceUsed(bs);
    CoalesceTotal(bs);
    TilesTotal(bs, base, end);
    TilesTotal(Coalesce(bs), base, end);
  }

  lemma {:induction false} CoalesceTiles(bs: seq<Block>, base: nat, end: nat)
    requires Tiles(bs, base, end)
    ensures Tiles(Coalesce(bs), base, end) && NoFreePair(Coalesce(bs))
    ensures bs[0].used ==> Coalesce(bs)[0] == bs[0]
    decreases |bs|
  {
    if |bs| >= 2 {
      assert MeetsAt(bs, 1);
      if !bs[0].used && !bs[1].used {
        TilesJoin(bs, base, end);
        CoalesceTiles([Join(bs[0], bs[1])] + bs[2..], base, end);
      } else {
        var c := Coalesce(bs[1..]);
        TilesTail(bs, base, end);
        CoalesceTiles(bs[1..], EndOf(bs[0]), end);
        var r := [bs[0]] + c;
        forall i | 0 < i < |r| ensures MeetsAt(r, i) && PairAt(r, i) {
          if i > 1 {
            assert MeetsAt(c, i - 1) && PairAt(c, i - 1);
          }
        }
      }
    }
  }

  lemma {:induction false} CoalesceUsed(bs: seq<Block>)
    ensures forall b: Block :: b.used ==> (b in Coalesce(bs) <==> b in bs)
    decreases |bs|
  {
    if |bs| >= 2 {
      if !bs[0].used && !bs[1].used {
        assert bs == [bs[0], bs[1]] + bs[2..];
        CoalesceUsed([Join(bs[0], bs[1])] + bs[2..]);
      } else {
        assert bs == [bs[0]] + bs[1..];
        CoalesceUsed(bs[1..]);
      }
    }
  }

  lemma {:induction false} CoalesceTotal(bs: seq<Block>)
    ensures Total(Coalesce(bs), true) == Total(bs, true)
    decreases |bs|
  {
    if |bs| >= 2 {
      if !bs[0].used && !bs[1].used {
        var t := [Join(bs[0], bs[1])] + bs[2..];
        assert t[1..] == bs[1..][1..];
        CoalesceTotal(t);
      } else {
        var r := [bs[0]] + Coalesce(bs[1..]);
        assert r[1..] == Coalesce(bs[1..]);
        CoalesceTotal(bs[1..]);
      }
    }
  }

  lemma TilesJoin(bs: seq<Block>, base: nat, end: nat)
    requires Tiles(bs, base, end) && |bs| >= 2
    ensures Tiles([Join(bs[0], bs[1])] + bs[2..], base, end)
  {
    var t := [Join(bs[0], bs[1])] + bs[2..];
    assert MeetsAt(bs, 1);
    forall i | 0 < i < |t| ensures MeetsAt(t, i) {
      assert MeetsAt(bs, i + 1);
    }
  }

  /**
   The guard as written fails on the plainest reuse of memory: from a fresh heap, after two requests
   of 16 bytes and the release of the first, a third request of 16 bytes is unsafe.
   */
  lemma ReuseIsUnsafe(base: nat, total: nat)
    requires 256 <= total && base + total < WORD
    ensures var bs0 := [Block(base, total - HEADER, false)];
      var bs1 := Carve(AsWritten, bs0, 0, 16);
      |bs1| == 2 && Safe(AsWritten, bs0, 16) && Safe(AsWritten, bs1, 16) && FirstFit(bs1, 16, 0) == 1 &&
      var bs2 := Carve(AsWritten, bs1, 1, 16);
      |bs2| == 3 && !Safe(AsWritten, Coalesce(bs2[0 := bs2[0].(used := false)]), 16)
  {
    var bs0 := [Block(base, total - HEADER, false)];
    var bs1 := Carve(AsWritten, bs0, 0, 16);
    assert bs1 == [Block(base, 16, true), Block(base + HEADER + 16, total - 2 * HEADER - 16, false)];
    var bs2 := Carve(AsWritten, bs1, 1, 16);
    var rest := Block(base + 2 * (HEADER + 16), total - 3 * HEADER - 32, false);
    assert bs2 == [Block(base, 16, true), Block(base + HEADER + 16, 16, true), rest];
    var bs3 := bs2[0 := bs2[0].(used := false)];
    assert bs3[1..] == [bs2[1], rest] && bs3[1..][1..] == [rest];
    assert Coalesce(bs3) == [bs3[0]] + Coalesce(bs3[1..]);
    assert FirstFit(Coalesce(bs3), 16, 0) == 0;
  }
}
