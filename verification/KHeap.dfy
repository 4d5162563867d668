/**
 The kernel heap of kheap.c over its linked block headers.

 `hdr` holds the headers found in memory at each address, decoded; `mem` holds the bytes of the heap
 region.  Writing a header also overwrites its 24 bytes of `mem`, so that a header written over a
 live payload would be seen to destroy it.
 */
module KHeap {
  import opened Basics
  import opened HeapModel

  const MAGIC: nat := 0xBEEF
  const FREE: nat := 0
  const ALLOCATED: nat := 1
  const NULL: nat := 0

  datatype Header = Header(next: nat, size: nat, flags: nat, magic: nat)

  /** The header that stands for position `i` of a block list. */
  ghost function HeaderAt(bs: seq<Block>, i: nat): Header
    requires i < |bs|
  {
    Header(if i + 1 < |bs| then bs[i + 1].addr else NULL, bs[i].size, if bs[i].used then ALLOCATED else FREE, MAGIC)
  }

  /** The header found at the address of block `i` describes that block. */
  ghost predicate LinkAt(hdr: map<nat, Header>, bs: seq<Block>, i: int)
    requires 0 <= i < |bs|
  {
    bs[i].addr in hdr && hdr[bs[i].addr] == HeaderAt(bs, i)
  }

  /** The headers linked from `bs[0]` spell exactly the list `bs`. */
  ghost predicate Spells(hdr: map<nat, Header>, bs: seq<Block>) {
    forall i :: 0 <= i < |bs| ==> LinkAt(hdr, bs, i)
  }

  /** A healthy heap over [base, end) whose block list is `bs`. */
  ghost predicate Healthy(hdr: map<nat, Header>, bs: seq<Block>, base: nat, end: nat, bytesUsed: int, bytesFree: int) {
    && Tiles(bs, base, end)
    && Spells(hdr, bs)
    && NoFreePair(bs)
    && bytesUsed == Total(bs, true)
    && bytesFree == Total(bs, false)
  }

  /** Address `a` lies in the payload of an allocated block. */
  ghost predicate Live(bs: seq<Block>, a: nat) {
    exists i :: 0 <= i < |bs| && bs[i].used && bs[i].addr + HEADER <= a < EndOf(bs[i])
  }

  /** The live payload bytes of `bs` are the same in both memories. */
  ghost predicate SamePayloads(bs: seq<Block>, base: nat, m: seq<bv8>, m': seq<bv8>) {
    |m| == |m'| && forall x :: 0 <= x < |m| && Live(bs, base + x) ==> m[x] == m'[x]
  }

  /** Memory after a header was written at `a`; the part outside the region is not modelled. */
  function Clobber(mem: seq<bv8>, base: nat, a: nat): (r: seq<bv8>)
    ensures |r| == |mem|
    ensures forall x :: 0 <= x < |mem| && !(a <= base + x < a + HEADER) ==> r[x] == mem[x]
  {
    seq(|mem|, x requires 0 <= x < |mem| => if a <= base + x < a + HEADER then 0 else mem[x])
  }

  /** A header written at a block's own header, or anywhere inside a free block, spares live payloads. */
  lemma ClobberSparesLive(bs: seq<Block>, base: nat, end: nat, mem: seq<bv8>, k: nat, a: nat)
    requires Tiles(bs, base, end) && k < |bs|
    requires a == bs[k].addr || (!bs[k].used && bs[k].addr <= a && a + HEADER <= EndOf(bs[k]))
    ensures SamePayloads(bs, base, mem, Clobber(mem, base, a))
  {
    var r := Clobber(mem, base, a);
    forall x | 0 <= x < |mem| && Live(bs, base + x) ensures mem[x] == r[x] {
      var i :| 0 <= i < |bs| && bs[i].used && bs[i].addr + HEADER <= base + x < EndOf(bs[i]);
      if i != k {
        PayloadsDisjoint(bs, base, end, i, k, base + x);
      }
    }
  }

  /** Two different positions of a tiling have different addresses. */
  lemma DistinctAddrs(bs: seq<Block>, base: nat, end: nat, i: nat, j: nat)
    requires Tiles(bs, base, end) && i < |bs| && j < |bs| && i != j
    ensures bs[i].addr != bs[j].addr
    ensures i < j ==> EndOf(bs[i]) <= bs[j].addr
    ensures j < i ==> EndOf(bs[j]) <= bs[i].addr
  {
    if i < j { OrderedStep(bs, base, end, i, j); } else { OrderedStep(bs, base, end, j, i); }
  }

  /** Updating one header in place changes one block of the list. */
  lemma SpellsUpdate(hdr: map<nat, Header>, bs: seq<Block>, base: nat, end: nat, k: nat, b: Block)
    requires Tiles(bs, base, end) && Spells(hdr, bs) && k < |bs| && b.addr == bs[k].addr
    ensures Spells(hdr[b.addr := HeaderAt(bs[k := b], k)], bs[k := b])
  {
    var r := bs[k := b];
    var h := hdr[b.addr := HeaderAt(r, k)];
    forall i | 0 <= i < |r| ensures LinkAt(h, r, i) {
      assert LinkAt(hdr, bs, i);
      if i != k { DistinctAddrs(bs, base, end, i, k); }
    }
  }

  /** Linking a new header behind block `k` inserts a block. */
  lemma SpellsInsert(hdr: map<nat, Header>, bs: seq<Block>, base: nat, end: nat, k: nat, a: Block, b: Block)
    requires Tiles(bs, base, end) && Spells(hdr, bs) && k < |bs|
    requires a.addr == bs[k].addr && bs[k].addr < b.addr < EndOf(bs[k])
    ensures var r := bs[..k] + [a, b] + bs[k + 1..];
      Spells(hdr[b.addr := HeaderAt(r, k + 1)][a.addr := HeaderAt(r, k)], r)
  {
    var r := bs[..k] + [a, b] + bs[k + 1..];
    var h := hdr[b.addr := HeaderAt(r, k + 1)][a.addr := HeaderAt(r, k)];
    forall i | 0 <= i < |r| ensures LinkAt(h, r, i) {
      if i != k && i != k + 1 {
        var j := if i < k then i else i - 1;
        assert LinkAt(hdr, bs, j);
        DistinctAddrs(bs, base, end, j, k);
        assert HeaderAt(r, i) == HeaderAt(bs, j);
      }
    }
  }

  /** Unlinking the header behind block `k` removes a block. */
  lemma SpellsJoin(hdr: map<nat, Header>, bs: seq<Block>, base: nat, end: nat, k: nat)
    requires Tiles(bs, base, end) && Spells(hdr, bs) && k + 1 < |bs|
    ensures var r := bs[..k] + [Join(bs[k], bs[k + 1])] + bs[k + 2..];
      Spells(hdr[bs[k].addr := HeaderAt(r, k)], r)
  {
    var r := bs[..k] + [Join(bs[k], bs[k + 1])] + bs[k + 2..];
    var h := hdr[bs[k].addr := HeaderAt(r, k)];
    forall i | 0 <= i < |r| ensures LinkAt(h, r, i) {
      if i != k {
        var j := if i < k then i else i + 1;
        assert LinkAt(hdr, bs, j);
        DistinctAddrs(bs, base, end, j, k);
        assert HeaderAt(r, i) == HeaderAt(bs, j);
      }
    }
  }

  /** Following the links from the same start, any spelled list passes the same addresses. */
  lemma {:induction false} SpellingFollows(hdr: map<nat, Header>, ps: seq<Block>, cs: seq<Block>, i: nat)
    requires i < |ps| && (forall j :: 0 <= j < i ==> LinkAt(hdr, ps, j))
    requires forall j :: 0 <= j < |ps| ==> ps[j].addr != NULL
    requires Spells(hdr, cs) && cs != [] && ps[0].addr == cs[0].addr
    ensures i < |cs| && cs[i].addr == ps[i].addr
  {
    if i > 0 {
      SpellingFollows(hdr, ps, cs, i - 1);
      assert LinkAt(hdr, ps, i - 1);
      assert LinkAt(hdr, cs, i - 1);
    }
  }

  /** The headers after `kmalloc` took block `k` at `a`, as kheap.c writes them. */
  ghost function TakenHeaders(guard: Guard, hdr: map<nat, Header>, a: nat, want: nat): map<nat, Header>
    requires a in hdr && (Splits(guard, hdr[a].size, want) ==> 0 <= Remaining(guard, hdr[a].size, want))
  {
    var h := hdr[a];
    if Splits(guard, h.size, want) then
      var n := a + HEADER + want;
      hdr[n := Header(h.next, Remaining(guard, h.size, want), FREE, MAGIC)][a := Header(n, want, ALLOCATED, h.magic)]
    else
      hdr[a := h.(flags := ALLOCATED)]
  }

  /** On a safe request the headers written spell the carved list. */
  lemma TakenHeadersSpell(guard: Guard, hdr: map<nat, Header>, bs: seq<Block>, base: nat, end: nat, k: nat, want: nat)
    requires Tiles(bs, base, end) && end < WORD && Spells(hdr, bs)
    requires k < |bs| && !bs[k].used && want <= bs[k].size
    requires guard == Intended || bs[k].size - want >= HEADER
    ensures LinkAt(hdr, bs, k) && Spells(TakenHeaders(guard, hdr, bs[k].addr, want), Carve(guard, bs, k, want))
  {
    assert LinkAt(hdr, bs, k);
    InRegion(bs, base, end, k);
    GuardsAgree(bs[k].size, want);
    var mid := Pieces(guard, bs[k], want);
    var r := Carve(guard, bs, k, want);
    if |mid| == 2 {
      SpellsInsert(hdr, bs, base, end, k, mid[0], mid[1]);
      assert r == bs[..k] + [mid[0], mid[1]] + bs[k + 1..];
      assert k + 2 < |r| ==> r[k + 2] == bs[k + 1];
    } else {
      SpellsUpdate(hdr, bs, base, end, k, mid[0]);
      assert r == bs[k := mid[0]];
    }
  }

  /** On an unsafe request no block list at all makes the heap healthy afterwards. */
  lemma TakenHeadersBroken(hdr: map<nat, Header>, bs: seq<Block>, base: nat, end: nat, k: nat, want: nat,
                           cs: seq<Block>)
    requires 0 < base && end < WORD && Tiles(bs, base, end) && Spells(hdr, bs)
    requires k < |bs| && !bs[k].used && want <= bs[k].size < want + HEADER
    requires LinkAt(hdr, bs, k)
    ensures !(Tiles(cs, base, end) && Spells(TakenHeaders(AsWritten, hdr, bs[k].addr, want), cs))
  {
    InRegion(bs, base, end, k);
    GuardsAgree(bs[k].size, want);
    var a := bs[k].addr;
    var n := a + HEADER + want;
    var h := TakenHeaders(AsWritten, hdr, a, want);
    var ps := bs[..k] + [Block(a, want, true), Block(n, Remaining(AsWritten, bs[k].size, want), false)];
    if Tiles(cs, base, end) && Spells(h, cs) {
      forall j | 0 <= j < |ps| ensures ps[j].addr != NULL {
        if j < k { InRegion(bs, base, end, j); }
      }
      forall j | 0 <= j < k + 1 ensures LinkAt(h, ps, j) {
        if j < k {
          assert LinkAt(hdr, bs, j);
          DistinctAddrs(bs, base, end, j, k);
        }
      }
      SpellingFollows(h, ps, cs, k + 1);
      assert LinkAt(h, cs, k + 1);
      InRegion(cs, base, end, k + 1);
    }
  }

  /** Splitting a free block and marking its first part spares the live payloads. */
  ghost function TakenMemory(guard: Guard, mem: seq<bv8>, base: nat, a: nat, have: nat, want: nat): seq<bv8> {
    Clobber(if Splits(guard, have, want) then Clobber(mem, base, a + HEADER + want) else mem, base, a)
  }

  lemma TakenMemoryKeepsPayloads(guard: Guard, mem: seq<bv8>, bs: seq<Block>, base: nat, end: nat, k: nat, want: nat)
    requires Tiles(bs, base, end) && end < WORD
    requires k < |bs| && !bs[k].used && want <= bs[k].size
    requires guard == Intended || bs[k].size - want >= HEADER
    ensures SamePayloads(bs, base, mem, TakenMemory(guard, mem, base, bs[k].addr, bs[k].size, want))
  {
    InRegion(bs, base, end, k);
    GuardsAgree(bs[k].size, want);
    var m := mem;
    if Splits(guard, bs[k].size, want) {
      ClobberSparesLive(bs, base, end, mem, k, bs[k].addr + HEADER + want);
      m := Clobber(mem, base, bs[k].addr + HEADER + want);
    }
    ClobberSparesLive(bs, base, end, m, k, bs[k].addr);
  }

  class Heap {
    const guard: Guard
    const base: nat
    const end: nat
    var hdr: map<nat, Header>
    var mem: seq<bv8>
    var bytesUsed: int
    var bytesFree: int

    /** The block list spelled by the headers. */
    ghost var blocks: seq<Block>

    ghost predicate Valid()
      reads this
    {
      && 0 < base && end < WORD && |mem| == end - base
      && Healthy(hdr, blocks, base, end, bytesUsed, bytesFree)
    }

    /** Some block list makes the heap healthy: what is lost once a header is overwritten. */
    ghost predicate Recoverable()
      reads this
    {
      exists bs :: Healthy(hdr, bs, base, end, bytesUsed, bytesFree)
    }

    /** `kheap_init`, on a region that holds at least the first header. */
    constructor (guard: Guard, start: nat, size: nat, bytes: seq<bv8>)
      requires 0 < start && HEADER <= size && start + size < WORD && |bytes| == size
      ensures Valid() && this.guard == guard && base == start && end == start + size
      ensures blocks == [Block(start, size - HEADER, false)]
    {
      this.guard := guard;
      base := start;
      end := start + size;
      hdr := map[start := Header(NULL, size - HEADER, FREE, MAGIC)];
      mem := Clobber(bytes, start, start);
      bytesUsed := 0;
      bytesFree := size - HEADER;
      blocks := [Block(start, size - HEADER, false)];
      new;
      assert blocks[1..] == [];
    }


    /** `split_block`, with the guard read as `guard` says. */
    method SplitBlock(block: nat, size: nat)
      requires block in hdr
      modifies this`hdr, this`mem, this`bytesFree
      ensures !Splits(guard, old(hdr)[block].size, size) ==>
        hdr == old(hdr) && mem == old(mem) && bytesFree == old(bytesFree)
      ensures Splits(guard, old(hdr)[block].size, size) ==>
        var n := block + HEADER + size; var h := old(hdr)[block];
        && hdr == old(hdr)[n := Header(h.next, Remaining(guard, h.size, size), FREE, MAGIC)]
                          [block := Header(n, size, h.flags, h.magic)]
        && mem == Clobber(old(mem), base, n)
        && bytesFree == old(bytesFree) - HEADER
    {
      var h := hdr[block];
      var remaining := Remaining(guard, h.size, size);
      if remaining < MIN_BLOCK_SIZE {
        return;
      }
      var newBlock := block + HEADER + size;
      hdr := hdr[newBlock := Header(h.next, remaining, FREE, MAGIC)];
      mem := Clobber(mem, base, newBlock);
      hdr := hdr[block := Header(newBlock, size, h.flags, h.magic)];
      bytesFree := bytesFree - HEADER;
    }

    /** The body of the search loop of `kmalloc`, at the block it settles on. */
    method TakeBlock(block: nat, size: nat)
      requires block in hdr
      modifies this`hdr, this`mem, this`bytesFree, this`bytesUsed
      ensures hdr == TakenHeaders(guard, old(hdr), block, size)
      ensures mem == TakenMemory(guard, old(mem), base, block, old(hdr)[block].size, size)
      ensures bytesUsed == old(bytesUsed) + hdr[block].size
      ensures bytesFree ==
        old(bytesFree) - hdr[block].size - (if Splits(guard, old(hdr)[block].size, size) then HEADER else 0)
    {
      SplitBlock(block, size);
      var h := hdr[block];
      hdr := hdr[block := h.(flags := ALLOCATED)];
      mem := Clobber(mem, base, block);
      bytesUsed := bytesUsed + h.size;
      bytesFree := bytesFree - h.size;
    }

    /** Taking the fitting free block `k`: sound exactly when its slack can be told from a wrapped one. */
    method TakeAt(block: nat, want: nat, ghost k: nat)
      requires Valid() && k < |blocks| && block == blocks[k].addr && !blocks[k].used && want <= blocks[k].size
      modifies this
      ensures var ok := guard == Intended || old(blocks)[k].size - want >= HEADER;
        && (ok ==>
              && Valid() && blocks == Carve(guard, old(blocks), k, want)
              && SamePayloads(old(blocks), base, old(mem), mem))
        && (Recoverable() <==> ok)
    {
      assert LinkAt(hdr, blocks, k);
      InRegion(blocks, base, end, k);
      ghost var h0, m0 := hdr, mem;
      TakeBlock(block, want);
      if guard == Intended || blocks[k].size - want >= HEADER {
        TakenHeadersSpell(guard, h0, blocks, base, end, k, want);
        TakenMemoryKeepsPayloads(guard, m0, blocks, base, end, k, want);
        CarveCorrect(guard, blocks, base, end, k, want);
        blocks := Carve(guard, blocks, k, want);
        assert Healthy(hdr, blocks, base, end, bytesUsed, bytesFree);
      } else {
        forall cs ensures !Healthy(hdr, cs, base, end, bytesUsed, bytesFree) {
          TakenHeadersBroken(h0, blocks, base, end, k, want, cs);
        }
      }
    }

    /**
     `kmalloc`.  It fails exactly on a zero request or when no free block holds the rounded request;
     otherwise it takes the first fitting block, and the heap stays healthy if and only if the request
     was safe.
     */
    method Kmalloc(size: nat) returns (ptr: nat)
      requires Valid() && size < WORD
      modifies this
      ensures var want := RoundUp(size); var k := FirstFit(old(blocks), want, 0);
        && (ptr == NULL <==> size == 0 || k == |old(blocks)|)
        && (ptr == NULL ==> Valid() && blocks == old(blocks) && mem == old(mem))
        && (ptr != NULL ==> ptr == old(blocks)[k].addr + HEADER)
        && (ptr != NULL && Safe(guard, old(blocks), want) ==>
              Valid() && blocks == Carve(guard, old(blocks), k, want) && SamePayloads(old(blocks), base, old(mem), mem))
        && (ptr != NULL ==> (Recoverable() <==> Safe(guard, old(blocks), want)))
    {
      if size == 0 {
        return NULL;
      }
      var want := RoundUp(size);
      ghost var k := 0;
      var block := base;
      while block != NULL
        invariant 0 <= k <= |blocks|
        invariant block == if k < |blocks| then blocks[k].addr else NULL
        invariant block == NULL ==> k == |blocks|
        invariant FirstFit(blocks, want, k) == FirstFit(blocks, want, 0)
        invariant unchanged(this)
        decreases |blocks| - k
      {
        assert LinkAt(hdr, blocks, k);
        if hdr[block].magic != MAGIC {
          return NULL;
        }
        if hdr[block].flags != ALLOCATED && hdr[block].size >= want {
          TakeAt(block, want, k);
          return block + HEADER;
        }
        if k + 1 < |blocks| {
          InRegion(blocks, base, end, k + 1);
        }
        block := hdr[block].next;
        k := k + 1;
      }
      return NULL;
    }

    /** What holds between the iterations of `merge_blocks`. */
    ghost predicate Structured()
      reads this
    {
      && 0 < base && end < WORD && |mem| == end - base
      && Tiles(blocks, base, end) && Spells(hdr, blocks)
      && bytesUsed == Total(blocks, true) && bytesFree == Total(blocks, false)
    }

    /** `merge_blocks`. */
    method MergeBlocks()
      requires Structured()
      modifies this`hdr, this`mem, this`bytesFree, this`blocks
      ensures Valid() && blocks == Coalesce(old(blocks))
      ensures SamePayloads(blocks, base, old(mem), mem)
    {
      PendingStart(blocks);
      var block := base;
      ghost var k := 0;
      assert LinkAt(hdr, blocks, 0);
      while hdr[block].next != NULL
        invariant Structured() && 0 <= k < |blocks| && block == blocks[k].addr && LinkAt(hdr, blocks, k)
        invariant Pending(blocks, k) == Coalesce(old(blocks))
        invariant SamePayloads(blocks, base, old(mem), mem)
        decreases |blocks| - k
      {
        block, k := MergeStep(block, k);
      }
      if k + 1 < |blocks| {
        InRegion(blocks, base, end, k + 1);
      }
      PendingDone(blocks);
      CoalesceCorrect(old(blocks), base, end);
    }

    /** The part of the loop of `merge_blocks` that absorbs a free neighbour. */
    method AbsorbNext(block: nat, next: nat, ghost k: nat)
      requires Structured() && k + 1 < |blocks| && !blocks[k].used && !blocks[k + 1].used
      requires block == blocks[k].addr && next == blocks[k + 1].addr && LinkAt(hdr, blocks, k)
      requires LinkAt(hdr, blocks, k + 1)
      modifies this`hdr, this`mem, this`bytesFree, this`blocks
      ensures Structured() && |blocks| == |old(blocks)| - 1 && blocks[k].addr == block && LinkAt(hdr, blocks, k)
      ensures Pending(blocks, k) == Pending(old(blocks), k)
      ensures SamePayloads(blocks, base, old(mem), mem)
      ensures forall a: nat :: Live(blocks, a) ==> Live(old(blocks), a)
    {
      ClobberSparesLive(blocks, base, end, mem, k, block);
      SpellsJoin(hdr, blocks, base, end, k);
      JoinKeeps(blocks, base, end, k);
      hdr := hdr[block := hdr[block].(size := hdr[block].size + HEADER + hdr[next].size, next := hdr[next].next)];
      mem := Clobber(mem, base, block);
      bytesFree := bytesFree + HEADER;
      blocks := blocks[..k] + [Join(blocks[k], blocks[k + 1])] + blocks[k + 2..];
      LiveOnlyShrinks(old(blocks), blocks);
    }

    /** One iteration of the loop of `merge_blocks`: absorb the next block or move on to it. */
    method MergeStep(block: nat, ghost k: nat) returns (block': nat, ghost k': nat)
      requires Structured() && k + 1 < |blocks| && block == blocks[k].addr && LinkAt(hdr, blocks, k)
      modifies this`hdr, this`mem, this`bytesFree, this`blocks
      ensures Structured() && k' < |blocks| && block' == blocks[k'].addr && LinkAt(hdr, blocks, k')
      ensures |blocks| - k' < |old(blocks)| - k
      ensures Pending(blocks, k') == Pending(old(blocks), k)
      ensures SamePayloads(blocks, base, old(mem), mem)
      ensures forall a: nat :: Live(blocks, a) ==> Live(old(blocks), a)
    {
      var next := hdr[block].next;
      assert LinkAt(hdr, blocks, k + 1) && MeetsAt(blocks, k + 1);
      if hdr[block].flags != ALLOCATED && hdr[next].flags != ALLOCATED {
        var expected := block + HEADER + hdr[block].size;
        if next == expected {
          AbsorbNext(block, next, k);
          return block, k;
        }
      }
      PendingAdvance(blocks, k);
      return next, k + 1;
    }

    /** `kfree` of null, of a live block or of a free one. */
    method Kfree(ptr: nat)
      requires Valid() && (ptr == NULL || exists k :: 0 <= k < |blocks| && blocks[k].addr + HEADER == ptr)
      modifies this
      ensures Valid() && SamePayloads(blocks, base, old(mem), mem)
      ensures ptr ==
        NULL || (exists k :: 0 <= k < |old(blocks)| && old(blocks)[k].addr + HEADER == ptr && !old(blocks)[k].used)
        ==> blocks == old(blocks)
      ensures forall k :: 0 <= k < |old(blocks)| && old(blocks)[k].addr + HEADER == ptr && old(blocks)[k].used ==>
        blocks == Coalesce(old(blocks)[k := old(blocks)[k].(used := false)])
    {
      if ptr == NULL {
        return;
      }
      ghost var k :| 0 <= k < |blocks| && blocks[k].addr + HEADER == ptr;
      forall i | 0 <= i < |blocks| && blocks[i].addr + HEADER == ptr ensures i == k {
        if i != k { DistinctAddrs(blocks, base, end, i, k); }
      }
      assert LinkAt(hdr, blocks, k);
      var block := ptr - HEADER;
      if hdr[block].magic != MAGIC || hdr[block].flags != ALLOCATED {
        return;
      }
      FreeLive(block, k);
    }

    /** `kfree` past its checks, at block `k`. */
    method FreeLive(block: nat, ghost k: nat)
      requires Valid() && k < |blocks| && blocks[k].addr == block && blocks[k].used && LinkAt(hdr, blocks, k)
      modifies this
      ensures Valid() && SamePayloads(blocks, base, old(mem), mem)
      ensures blocks == Coalesce(old(blocks)[k := old(blocks)[k].(used := false)])
    {
      ghost var b := blocks[k].(used := false);
      SpellsUpdate(hdr, blocks, base, end, k, b);
      ReleaseKeeps(blocks, base, end, k);
      ClobberSparesLive(blocks, base, end, mem, k, block);
      ReleasedLive(blocks, base, end, k);
      hdr := hdr[block := hdr[block].(flags := FREE)];
      mem := Clobber(mem, base, block);
      bytesUsed := bytesUsed - hdr[block].size;
      bytesFree := bytesFree + hdr[block].size;
      blocks := blocks[k := b];
      MergeBlocks();
    }

    /** The copy loop of `krealloc`. */
    method CopyBytes(src: nat, dst: nat, n: nat)
      requires base <= src && src + n <= base + |mem| && base <= dst && dst + n <= base + |mem|
      requires src + n <= dst || dst + n <= src
      modifies this`mem
      ensures |mem| == |old(mem)|
      ensures mem[dst - base..dst - base + n] == old(mem)[src - base..src - base + n]
      ensures forall x :: 0 <= x < |mem| && !(dst <= base + x < dst + n) ==> mem[x] == old(mem)[x]
    {
      var s, d, i := src - base, dst - base, 0;
      while i < n
        invariant 0 <= i <= n && |mem| == |old(mem)|
        invariant mem[d..d + i] == old(mem)[s..s + i]
        invariant forall x :: 0 <= x < |mem| && !(d <= x < d + i) ==> mem[x] == old(mem)[x]
      {
        ghost var before := mem;
        mem := mem[d + i := mem[s + i]];
        assert before[s + i] == old(mem)[s + i];
        assert mem[d..d + (i + 1)] == before[d..d + i] + [old(mem)[s + i]];
        assert old(mem)[s..s + (i + 1)] == old(mem)[s..s + i] + [old(mem)[s + i]];
        i := i + 1;
      }
    }

    /** Copying the payload of block `k` to the start of the payload of block `f`. */
    method CopyPayload(ptr: nat, r: nat, ghost f: nat, ghost k: nat)
      requires Valid() && f < |blocks| && k < |blocks| && f != k && blocks[k].size <= blocks[f].size
      requires ptr == blocks[k].addr + HEADER && r == blocks[f].addr + HEADER
      modifies this`mem
      ensures Valid() && SamePrefix(old(mem), mem, base, blocks[k], blocks[f])
      ensures forall x :: 0 <= x < |mem| && !(r <= base + x < EndOf(blocks[f])) ==> mem[x] == old(mem)[x]
    {
      DistinctAddrs(blocks, base, end, k, f);
      InRegion(blocks, base, end, k);
      InRegion(blocks, base, end, f);
      assert LinkAt(hdr, blocks, k);
      CopyBytes(ptr, r, hdr[ptr - HEADER].size);
    }

    /** The end of a moving `krealloc`: copy the bytes, then free the old block. */
    method MoveContents(ptr: nat, r: nat, ghost bs: seq<Block>, ghost m0: seq<bv8>, ghost f: nat, ghost k: nat)
      requires Valid() && Tiles(bs, base, end) && MovesFrom(bs, blocks, f, k) && SamePayloads(bs, base, m0, mem)
      requires ptr == blocks[k].addr + HEADER && r == blocks[f].addr + HEADER
      modifies this
      ensures Valid() && r != ptr && Moved(bs, m0, blocks, mem, base, old(blocks)[k], old(blocks)[f])
    {
      DistinctAddrs(blocks, base, end, k, f);
      assert LinkAt(hdr, blocks, k);
      ghost var bs1, m1 := blocks, mem;
      CopyPayload(ptr, r, f, k);
      ghost var m2 := mem;
      FreeLive(ptr - HEADER, k);
      MoveDone(bs, base, end, bs1, f, k, m0, m1, m2, mem);
    }

    /** `krealloc` of a live block to a non-zero size. */
    method ResizeLive(ptr: nat, newSize: nat) returns (r: nat, ghost b: Block, ghost c: Block)
      requires Valid() && 0 < newSize < WORD && (exists b :: LiveAt(blocks, ptr, b))
      requires FitsInPlace(blocks, ptr, newSize) ||
        (Safe(guard, blocks, RoundUp(newSize)) && (newSize <= WORD - 16 || CopyFits(guard, blocks, ptr)))
      modifies this
      ensures Valid() && LiveAt(old(blocks), ptr, b)
      ensures newSize <= b.size ==> r == ptr
      ensures newSize > b.size ==> (r == NULL <==> FirstFit(old(blocks), RoundUp(newSize), 0) == |old(blocks)|)
      ensures r == ptr || r == NULL ==> blocks == old(blocks) && mem == old(mem)
      ensures r != ptr && r != NULL ==>
        && c.addr + HEADER == r && (newSize <= c.size <==> newSize <= WORD - 16)
        && Moved(old(blocks), old(mem), blocks, mem, base, b, c)
    {
      b :| LiveAt(blocks, ptr, b);
      c := b;
      ghost var k :| 0 <= k < |blocks| && blocks[k] == b;
      assert LinkAt(hdr, blocks, k);
      OneLiveAt(blocks, base, end, ptr, b);
      var block := ptr - HEADER;
      if hdr[block].magic != MAGIC {
        return NULL, b, c;
      }
      if newSize <= hdr[block].size {
        return ptr, b, c;
      }
      ghost var bs, m0 := blocks, mem;
      RoundUpCovers(newSize);
      r := Kmalloc(newSize);
      if r == NULL {
        return;
      }
      ghost var f := FirstFit(bs, RoundUp(newSize), 0);
      k := MovePlaces(guard, bs, base, end, f, RoundUp(newSize), b);
      c := blocks[f];
      MoveContents(ptr, r, bs, m0, f, k);
    }

    /**
     `krealloc`.  A zero size frees, a null pointer allocates.  A live block that is large enough stays
     where it is.  Otherwise either nothing changes and null is returned, or a new block starts with
     the old contents, the old block is gone, and every other live block keeps its place and its bytes.
     */
    method Krealloc(ptr: nat, newSize: nat) returns (r: nat, ghost b: Block, ghost c: Block)
      requires Valid() && newSize < WORD && (ptr == NULL || exists b :: LiveAt(blocks, ptr, b))
      requires newSize == 0 || FitsInPlace(blocks, ptr, newSize) ||
        (Safe(guard, blocks, RoundUp(newSize)) && (newSize <= WORD - 16 || CopyFits(guard, blocks, ptr)))
      modifies this
      ensures Valid() && SamePayloads(if ptr == NULL then old(blocks) else Freed(old(blocks), b), base, old(mem), mem)
      ensures ptr != NULL ==> LiveAt(old(blocks), ptr, b)
      ensures newSize == 0 ==> r == NULL && (ptr == NULL ==> blocks == old(blocks))
      ensures newSize == 0 && ptr != NULL ==>
        forall k :: 0 <= k < |old(blocks)| && old(blocks)[k] == b ==>
          blocks == Coalesce(old(blocks)[k := b.(used := false)])
      ensures newSize > 0 && ptr == NULL ==>
        var want := RoundUp(newSize); var k := FirstFit(old(blocks), want, 0);
        if k == |old(blocks)| then r == NULL && blocks == old(blocks)
        else r == old(blocks)[k].addr + HEADER && blocks == Carve(guard, old(blocks), k, want)
      ensures newSize > 0 && ptr != NULL ==>
        && (newSize <= b.size ==> r == ptr)
        && (newSize > b.size ==> (r == NULL <==> FirstFit(old(blocks), RoundUp(newSize), 0) == |old(blocks)|))
        && (r == ptr || r == NULL ==> blocks == old(blocks) && mem == old(mem))
        && (r != ptr && r != NULL ==>
              && c.addr + HEADER == r && (newSize <= c.size <==> newSize <= WORD - 16)
              && Moved(old(blocks), old(mem), blocks, mem, base, b, c))
    {
      b := Block(0, 0, false);
      c := b;
      if ptr != NULL {
        b :| LiveAt(blocks, ptr, b);
      }
      if newSize == 0 {
        if ptr != NULL {
          ghost var k :| 0 <= k < |blocks| && blocks[k] == b;
          OneIndex(blocks, base, end, k);
          FreedLive(blocks, base, end, k);
        }
        Kfree(ptr);
        return NULL, b, c;
      }
      if ptr == NULL {
        r := Kmalloc(newSize);
        return;
      }
      OneLiveAt(blocks, base, end, ptr, b);
      r, b, c := ResizeLive(ptr, newSize);
    }

    /** `walk_blocks` over the headers at `q`, whatever they say. */
    method WalkBlocks(ghost q: seq<nat>) returns (corruptions: nat, usedBlocks: nat, largestFree: nat)
      requires Chained(hdr, base, q)
      ensures corruptions == Faults(hdr, q, |q|) && usedBlocks == |UsedOn(hdr, q, |q|)|
      ensures largestFree == LargestOn(hdr, q, |q|)
    {
      corruptions, usedBlocks, largestFree := 0, 0, 0;
      var block := base;
      ghost var k := 0;
      while block != NULL
        invariant 0 <= k <= |q| && block == if k < |q| then q[k] else NULL
        invariant corruptions == Faults(hdr, q, k) && usedBlocks == |UsedOn(hdr, q, k)|
        invariant largestFree == LargestOn(hdr, q, k)
        decreases |q| - k
      {
        var h := hdr[block];
        UsedOnStep(hdr, q, k);
        if h.magic != MAGIC {
          assert k < |q| - 1 ==> GoodStep(hdr, q[k], q[k + 1]);
          return corruptions + 1, usedBlocks, largestFree;
        }
        if h.flags != FREE && h.flags != ALLOCATED {
          corruptions := corruptions + 1;
        }
        if h.next != NULL {
          if h.next != (block + HEADER + h.size) % WORD {
            corruptions := corruptions + 1;
          }
        }
        if h.flags % 2 == 1 {
          usedBlocks := usedBlocks + 1;
        } else if h.size > largestFree {
          largestFree := h.size;
        }
        assert k < |q| - 1 ==> GoodStep(hdr, q[k], q[k + 1]);
        block := h.next;
        k := k + 1;
      }
    }

    /**
     `kheap_validate` returns 0 in every state the heap operations reach, and the walk has then seen the number
     of used blocks and the largest free one.
     */
    method Validate() returns (corruptions: nat)
      requires Valid()
      ensures corruptions == 0 && bytesUsed + bytesFree + HEADER * |blocks| == end - base
    {
      TilesTotal(blocks, base, end);
      HealthyWalk(hdr, blocks, base, end);
      var usedBlocks, largestFree;
      corruptions, usedBlocks, largestFree := WalkBlocks(Addrs(blocks));
    }
  }

  /** The headers at `q`, linked from `first`: all but the last with a good magic, which is bad or without a next. */
  ghost predicate Chained(hdr: map<nat, Header>, first: nat, q: seq<nat>) {
    && q != [] && q[0] == first
    && (forall i :: 0 <= i < |q| ==> q[i] != NULL && q[i] in hdr)
    && (forall i :: 0 <= i < |q| - 1 ==> GoodStep(hdr, q[i], q[i + 1]))
    && var last := q[|q| - 1]; hdr[last].magic != MAGIC || hdr[last].next == NULL
  }

  ghost predicate GoodStep(hdr: map<nat, Header>, a: nat, b: nat) {
    a in hdr && hdr[a].magic == MAGIC && hdr[a].next == b
  }

  /** What is wrong with the header at `a`: its magic, or its flags and its next block. */
  function FaultsAt(hdr: map<nat, Header>, a: nat): nat
    requires a in hdr
  {
    var h := hdr[a];
    if h.magic != MAGIC then 1
    else
      (if h.flags == FREE || h.flags == ALLOCATED then 0 else 1) +
      (if h.next == NULL || h.next == (a + HEADER + h.size) % WORD then 0 else 1)
  }

  function Faults(hdr: map<nat, Header>, q: seq<nat>, k: nat): nat
    requires k <= |q| && forall i :: 0 <= i < |q| ==> q[i] in hdr
  {
    if k == 0 then 0 else Faults(hdr, q, k - 1) + FaultsAt(hdr, q[k - 1])
  }

  /** The positions of good headers with the allocation bit set, among the first `k`. */
  ghost function UsedOn(hdr: map<nat, Header>, q: seq<nat>, k: nat): set<int>
    requires k <= |q| && forall i :: 0 <= i < |q| ==> q[i] in hdr
  {
    set i | 0 <= i < k && hdr[q[i]].magic == MAGIC && hdr[q[i]].flags % 2 == 1
  }

  lemma UsedOnStep(hdr: map<nat, Header>, q: seq<nat>, k: nat)
    requires k < |q| && forall i :: 0 <= i < |q| ==> q[i] in hdr
    ensures |UsedOn(hdr, q, k + 1)| ==
            |UsedOn(hdr, q, k)| + if hdr[q[k]].magic == MAGIC && hdr[q[k]].flags % 2 == 1 then 1 else 0
  {
    var more := if hdr[q[k]].magic == MAGIC && hdr[q[k]].flags % 2 == 1 then {k as int} else {};
    assert UsedOn(hdr, q, k + 1) == UsedOn(hdr, q, k) + more;
  }

  /** The largest size in a good header without it. */
  function LargestOn(hdr: map<nat, Header>, q: seq<nat>, k: nat): (r: nat)
    requires k <= |q| && forall i :: 0 <= i < |q| ==> q[i] in hdr
    ensures forall i :: 0 <= i < k && hdr[q[i]].magic == MAGIC && hdr[q[i]].flags % 2 == 0 ==> hdr[q[i]].size <= r
  {
    if k == 0 then 0
    else
      var r, h := LargestOn(hdr, q, k - 1), hdr[q[k - 1]];
      if h.magic == MAGIC && h.flags % 2 == 0 && h.size > r then h.size else r
  }

  function Addrs(bs: seq<Block>): (q: seq<nat>)
    ensures |q| == |bs| && forall i :: 0 <= i < |bs| ==> q[i] == bs[i].addr
  {
    seq(|bs|, i requires 0 <= i < |bs| => bs[i].addr)
  }

  /** Blocks that follow each other without a gap, in 64-bit addresses. */
  ghost predicate Contiguous(bs: seq<Block>) {
    forall i :: 0 < i < |bs| ==> bs[i].addr == EndOf(bs[i - 1]) % WORD
  }

  lemma {:induction false} NoFaults(hdr: map<nat, Header>, q: seq<nat>, k: nat)
    requires k <= |q| && forall i :: 0 <= i < |q| ==> q[i] in hdr
    ensures Faults(hdr, q, k) == 0 <==> forall i :: 0 <= i < k ==> FaultsAt(hdr, q[i]) == 0
  {
    if k > 0 {
      NoFaults(hdr, q, k - 1);
    }
  }

  /** The walk finds nothing wrong exactly if the headers spell a list of blocks without gaps. */
  lemma NoFaultsExactly(hdr: map<nat, Header>, q: seq<nat>)
    requires q != [] && Chained(hdr, q[0], q)
    ensures Faults(hdr, q, |q|) == 0 <==> exists bs :: Addrs(bs) == q && Spells(hdr, bs) && Contiguous(bs)
  {
    NoFaults(hdr, q, |q|);
    if Faults(hdr, q, |q|) == 0 {
      var bs := seq(|q|, i requires 0 <= i < |q| => Block(q[i], hdr[q[i]].size, hdr[q[i]].flags == ALLOCATED));
      assert Addrs(bs) == q;
      forall i | 0 <= i < |bs| ensures LinkAt(hdr, bs, i) {
        assert FaultsAt(hdr, q[i]) == 0;
        assert i < |q| - 1 ==> GoodStep(hdr, q[i], q[i + 1]);
      }
      forall i | 0 < i < |bs| ensures bs[i].addr == EndOf(bs[i - 1]) % WORD {
        assert FaultsAt(hdr, q[i - 1]) == 0 && GoodStep(hdr, q[i - 1], q[i - 1 + 1]);
      }
      assert Contiguous(bs);
    } else if bs :| Addrs(bs) == q && Spells(hdr, bs) && Contiguous(bs) {
      forall i | 0 <= i < |q| ensures FaultsAt(hdr, q[i]) == 0 {
        assert LinkAt(hdr, bs, i);
      }
      assert false;
    }
  }

  /** On a healthy heap the walk passes the blocks and finds nothing wrong. */
  lemma HealthyWalk(hdr: map<nat, Header>, bs: seq<Block>, base: nat, end: nat)
    requires 0 < base && end < WORD && Tiles(bs, base, end) && Spells(hdr, bs)
    ensures Chained(hdr, base, Addrs(bs)) && Faults(hdr, Addrs(bs), |bs|) == 0
    ensures UsedOn(hdr, Addrs(bs), |bs|) == UsedBelow(bs, |bs|)
    ensures LargestOn(hdr, Addrs(bs), |bs|) == LargestFree(bs, |bs|)
  {
    var q := Addrs(bs);
    forall i | 0 <= i < |bs| ensures q[i] != NULL && q[i] in hdr && FaultsAt(hdr, q[i]) == 0 {
      assert LinkAt(hdr, bs, i);
      InRegion(bs, base, end, i);
      if i + 1 < |bs| {
        assert MeetsAt(bs, i + 1);
        InRegion(bs, base, end, i + 1);
      }
    }
    forall i | 0 <= i < |bs| - 1 ensures GoodStep(hdr, q[i], q[i + 1]) {
      assert LinkAt(hdr, bs, i);
    }
    assert LinkAt(hdr, bs, |bs| - 1);
    NoFaults(hdr, q, |q|);
    HealthyCounts(hdr, bs, |bs|);
  }

  lemma {:induction false} HealthyCounts(hdr: map<nat, Header>, bs: seq<Block>, k: nat)
    requires Spells(hdr, bs) && k <= |bs|
    requires forall i :: 0 <= i < |bs| ==> Addrs(bs)[i] in hdr
    ensures UsedOn(hdr, Addrs(bs), k) == UsedBelow(bs, k) && LargestOn(hdr, Addrs(bs), k) == LargestFree(bs, k)
  {
    var q := Addrs(bs);
    forall i | 0 <= i < k ensures i in UsedOn(hdr, q, k) <==> i in UsedBelow(bs, k) {
      assert LinkAt(hdr, bs, i) && q[i] == bs[i].addr;
    }
    if k > 0 {
      HealthyCounts(hdr, bs, k - 1);
      assert LinkAt(hdr, bs, k - 1);
    }
  }

  /** The positions of allocated blocks among the first `k`. */
  ghost function UsedBelow(bs: seq<Block>, k: nat): set<int>
    requires k <= |bs|
  {
    set i | 0 <= i < k && bs[i].used
  }

  /** The size of the largest free block among the first `k`, or 0. */
  function LargestFree(bs: seq<Block>, k: nat): (r: nat)
    requires k <= |bs|
    ensures forall i :: 0 <= i < k && !bs[i].used ==> bs[i].size <= r
    ensures r == 0 || exists i :: 0 <= i < k && !bs[i].used && bs[i].size == r
  {
    if k == 0 then 0
    else
      var r := LargestFree(bs, k - 1);
      if !bs[k - 1].used && bs[k - 1].size > r then bs[k - 1].size else r
  }

  /** The live block whose payload starts at `ptr`. */
  ghost predicate LiveAt(bs: seq<Block>, ptr: nat, b: Block) {
    b in bs && b.used && b.addr + HEADER == ptr
  }

  /** The live block at `ptr` already holds `size` bytes. */
  ghost predicate FitsInPlace(bs: seq<Block>, ptr: nat, size: nat) {
    exists b :: LiveAt(bs, ptr, b) && size <= b.size
  }

  /** The size of what `kmalloc` hands out of a free block of `have` bytes. */
  function GivenSize(guard: Guard, have: nat, want: nat): nat {
    if Splits(guard, have, want) then want else have
  }

  /**
   The contents of the live block at `ptr` fit into what `kmalloc` hands out for a request that wraps to zero:
   there is nothing to hand out, nothing to copy, or a free block too small to be split but large enough.
   */
  ghost predicate CopyFits(guard: Guard, bs: seq<Block>, ptr: nat) {
    var f := FirstFit(bs, 0, 0);
    f == |bs| || forall b :: LiveAt(bs, ptr, b) ==>
      b.size == 0 || (!Splits(guard, bs[f].size, 0) && b.size <= bs[f].size)
  }

  /**
   Otherwise `krealloc`, which copies as many bytes as the old block has, writes behind the new one: over the
   header of the next block, or past the end of the heap.
   */
  lemma WrappedCopyOverruns(guard: Guard, bs: seq<Block>, base: nat, end: nat, ptr: nat, size: nat, b: Block)
    requires Tiles(bs, base, end) && end < WORD && NoFreePair(bs) && LiveAt(bs, ptr, b) && WORD - 16 < size < WORD
    requires FirstFit(bs, RoundUp(size), 0) < |bs| && Safe(guard, bs, RoundUp(size))
    ensures RoundUp(size) == 0
    ensures var f := FirstFit(bs, 0, 0); var cs := Carve(guard, bs, f, 0);
      && f < |cs| && (b.size <= cs[f].size <==> CopyFits(guard, bs, ptr))
      && if f + 1 < |cs| then cs[f + 1].addr == EndOf(cs[f]) else EndOf(cs[f]) == end
  {
    RoundUpCovers(size);
    OneLiveAt(bs, base, end, ptr, b);
    var f := FirstFit(bs, 0, 0);
    CarveCorrect(guard, bs, base, end, f, 0);
    var cs := Carve(guard, bs, f, 0);
    assert cs[f] == Pieces(guard, bs[f], 0)[0];
    if f + 1 < |cs| {
      assert MeetsAt(cs, f + 1);
    }
  }

  /** At most one block of a tiling has its payload at `ptr`. */
  lemma OneLiveAt(bs: seq<Block>, base: nat, end: nat, ptr: nat, b: Block)
    requires Tiles(bs, base, end) && LiveAt(bs, ptr, b)
    ensures forall c :: LiveAt(bs, ptr, c) ==> c == b
  {
    var i :| 0 <= i < |bs| && bs[i] == b;
    forall c | LiveAt(bs, ptr, c) ensures c == b {
      var j :| 0 <= j < |bs| && bs[j] == c;
      if i != j { DistinctAddrs(bs, base, end, i, j); }
    }
  }

  lemma OneIndex(bs: seq<Block>, base: nat, end: nat, k: nat)
    requires Tiles(bs, base, end) && k < |bs|
    ensures forall i :: 0 <= i < |bs| && bs[i].addr == bs[k].addr ==> i == k
  {
    forall i | 0 <= i < |bs| && bs[i].addr == bs[k].addr ensures i == k {
      if i != k { DistinctAddrs(bs, base, end, i, k); }
    }
  }

  /** What is live besides `bs[k]` is still live once `bs[k]` is released and merged. */
  lemma FreedLive(bs: seq<Block>, base: nat, end: nat, k: nat)
    requires Tiles(bs, base, end) && k < |bs| && bs[k].used
    ensures forall a: nat :: Live(Freed(bs, bs[k]), a) ==> Live(Coalesce(bs[k := bs[k].(used := false)]), a)
  {
    var fs := bs[k := bs[k].(used := false)];
    ReleaseKeeps(bs, base, end, k);
    CoalesceCorrect(fs, base, end);
    OneIndex(bs, base, end, k);
    assert fs == Freed(bs, bs[k]);
    LiveOnlyShrinks(Coalesce(fs), fs);
  }

  /** The list with block `b` counted as free. */
  ghost function Freed(bs: seq<Block>, b: Block): (r: seq<Block>)
    ensures |r| == |bs| && forall i :: 0 <= i < |bs| ==> r[i] == (if bs[i] == b then b.(used := false) else bs[i])
  {
    seq(|bs|, i requires 0 <= i < |bs| => if bs[i] == b then b.(used := false) else bs[i])
  }

  /** `cs` holds the used blocks of `bs` and a new one at `f`, large enough for the one at `k`. */
  ghost predicate MovesFrom(bs: seq<Block>, cs: seq<Block>, f: nat, k: nat) {
    && f < |cs| && k < |cs| && k != f && cs[f].used && cs[k].used && cs[k].size <= cs[f].size
    && cs[f] !in bs && cs[k] in bs
    && (forall b :: b in bs && b.used ==> b in cs)
    && (forall b :: b in cs && b.used ==> b in bs || b == cs[f])
  }

  /** The used blocks of `bs'` are those of `bs` with `b` replaced by `c`. */
  ghost predicate Replaced(bs: seq<Block>, bs': seq<Block>, b: Block, c: Block) {
    && c in bs' && c.used && c !in bs
    && (forall d: Block :: d.used && d != c ==> (d in bs' <==> d in bs && d != b))
  }

  /** The payload of `c` starts in `m'` with the payload that `b` had in `m`. */
  ghost predicate SamePrefix(m: seq<bv8>, m': seq<bv8>, base: nat, b: Block, c: Block) {
    && base <= b.addr && base <= c.addr && b.size <= c.size
    && EndOf(b) <= base + |m| && EndOf(c) <= base + |m'|
    && var i, j := b.addr + HEADER - base, c.addr + HEADER - base; m'[j..j + b.size] == m[i..i + b.size]
  }

  /** Block `b` of `bs` has moved to `c`: same leading bytes, all other live blocks and bytes as they were. */
  ghost predicate Moved(bs: seq<Block>, m: seq<bv8>, bs': seq<Block>, m': seq<bv8>, base: nat, b: Block, c: Block) {
    Replaced(bs, bs', b, c) && SamePayloads(Freed(bs, b), base, m, m') && SamePrefix(m, m', base, b, c)
  }

  /** Carving a block larger than the live block `b` sets up a move; the result is the place of `b`. */
  lemma MovePlaces(guard: Guard, bs: seq<Block>, base: nat, end: nat, f: nat, want: nat, b: Block) returns (k: nat)
    requires Tiles(bs, base, end) && end < WORD && NoFreePair(bs)
    requires f < |bs| && !bs[f].used && want <= bs[f].size && (guard == Intended || bs[f].size - want >= HEADER)
    requires b in bs && b.used && b.size <= GivenSize(guard, bs[f].size, want)
    ensures MovesFrom(bs, Carve(guard, bs, f, want), f, k) && Carve(guard, bs, f, want)[k] == b
    ensures Carve(guard, bs, f, want)[f].size == GivenSize(guard, bs[f].size, want)
  {
    CarveCorrect(guard, bs, base, end, f, want);
    var cs := Carve(guard, bs, f, want);
    assert cs[f] == Pieces(guard, bs[f], want)[0];
    forall i | 0 <= i < |bs| ensures bs[i] != cs[f] {
      if i != f { DistinctAddrs(bs, base, end, i, f); }
    }
    k :| 0 <= k < |cs| && cs[k] == b;
  }

  /** The leading bytes of the new block are those the old block had. */
  lemma MovedBytes(bs: seq<Block>, base: nat, bs2: seq<Block>, b: Block, c: Block,
                   m0: seq<bv8>, m1: seq<bv8>, m2: seq<bv8>, m3: seq<bv8>)
    requires b in bs && b.used && c in bs2 && c.used
    requires SamePayloads(bs, base, m0, m1) && SamePayloads(bs2, base, m2, m3) && SamePrefix(m1, m2, base, b, c)
    ensures SamePrefix(m0, m3, base, b, c)
  {
    var i, j := b.addr + HEADER - base, c.addr + HEADER - base;
    var ib :| 0 <= ib < |bs| && bs[ib] == b;
    var ic :| 0 <= ic < |bs2| && bs2[ic] == c;
    var s1, s2, s3, s0 := m1[i..i + b.size], m2[j..j + b.size], m3[j..j + b.size], m0[i..i + b.size];
    forall x | 0 <= x < b.size ensures s3[x] == s0[x] {
      assert Live(bs, base + (i + x)) && Live(bs2, base + (j + x));
      assert s3[x] == m3[j + x] == m2[j + x] == s2[x] == s1[x] == m1[i + x] == m0[i + x];
    }
  }

  /** What the three memory changes of a moving `krealloc` leave behind. */
  lemma MoveDone(bs: seq<Block>, base: nat, end: nat, bs1: seq<Block>, f: nat, k: nat,
                 m0: seq<bv8>, m1: seq<bv8>, m2: seq<bv8>, m3: seq<bv8>)
    requires Tiles(bs, base, end) && Tiles(bs1, base, end) && end == base + |m0| && MovesFrom(bs, bs1, f, k)
    requires SamePayloads(bs, base, m0, m1) && |m2| == |m1| && SamePrefix(m1, m2, base, bs1[k], bs1[f])
    requires forall x :: 0 <= x < |m1| && !(bs1[f].addr + HEADER <= base + x < EndOf(bs1[f])) ==> m2[x] == m1[x]
    requires SamePayloads(Coalesce(bs1[k := bs1[k].(used := false)]), base, m2, m3)
    ensures Moved(bs, m0, Coalesce(bs1[k := bs1[k].(used := false)]), m3, base, bs1[k], bs1[f])
  {
    var b, c := bs1[k], bs1[f];
    var bs2 := Coalesce(bs1[k := b.(used := false)]);
    MovedUsed(bs, base, end, bs1, f, k);
    MovedBytes(bs, base, bs2, b, c, m0, m1, m2, m3);
    MovedOthers(bs, base, end, bs1, bs2, f, b, m0, m1, m2, m3);
  }

  /** Live payloads other than the moved one keep their bytes. */
  lemma MovedOthers(bs: seq<Block>, base: nat, end: nat, bs1: seq<Block>, bs2: seq<Block>, f: nat, b: Block,
                    m0: seq<bv8>, m1: seq<bv8>, m2: seq<bv8>, m3: seq<bv8>)
    requires Tiles(bs1, base, end) && f < |bs1| && bs1[f] !in bs
    requires forall d :: d in bs && d.used ==> d in bs1
    requires Replaced(bs, bs2, b, bs1[f])
    requires SamePayloads(bs, base, m0, m1) && |m2| == |m1| && SamePayloads(bs2, base, m2, m3)
    requires forall x :: 0 <= x < |m1| && !(bs1[f].addr + HEADER <= base + x < EndOf(bs1[f])) ==> m2[x] == m1[x]
    ensures SamePayloads(Freed(bs, b), base, m0, m3)
  {
    forall x | 0 <= x < |m0| && Live(Freed(bs, b), base + x) ensures m0[x] == m3[x] {
      var i :| 0 <= i < |bs| && Freed(bs, b)[i].used && bs[i].addr + HEADER <= base + x < EndOf(bs[i]);
      assert Live(bs, base + x);
      var d := bs[i];
      var j :| 0 <= j < |bs2| && bs2[j] == d;
      assert Live(bs2, base + x);
      var i1 :| 0 <= i1 < |bs1| && bs1[i1] == d;
      PayloadsDisjoint(bs1, base, end, i1, f, base + x);
    }
  }

  /** The used blocks after a move: those of before, with the old block replaced by the new one. */
  lemma MovedUsed(bs: seq<Block>, base: nat, end: nat, bs1: seq<Block>, f: nat, k: nat)
    requires Tiles(bs1, base, end) && MovesFrom(bs, bs1, f, k)
    ensures Replaced(bs, Coalesce(bs1[k := bs1[k].(used := false)]), bs1[k], bs1[f])
  {
    var b := bs1[k];
    var fs := bs1[k := b.(used := false)];
    ReleaseKeeps(bs1, base, end, k);
    CoalesceCorrect(fs, base, end);
    assert fs[f] == bs1[f];
    forall d: Block | d.used ensures d in fs <==> d in bs1 && d != b {
      if d in fs {
        var i :| 0 <= i < |fs| && fs[i] == d;
        assert i != k && bs1[i] == d;
        DistinctAddrs(bs1, base, end, i, k);
      }
      if d in bs1 && d != b {
        var i :| 0 <= i < |bs1| && bs1[i] == d;
        assert fs[i] == d;
      }
    }
  }

  /** The final list when `merge_blocks` is about to look at position `k`. */
  ghost function Pending(bs: seq<Block>, k: nat): seq<Block>
    requires k <= |bs|
  {
    bs[..k] + Coalesce(bs[k..])
  }

  lemma PendingStart(bs: seq<Block>)
    ensures Pending(bs, 0) == Coalesce(bs)
  {
    assert bs[0..] == bs && bs[..0] == [];
  }

  lemma PendingAdvance(bs: seq<Block>, k: nat)
    requires k + 1 < |bs| && (bs[k].used || bs[k + 1].used)
    ensures Pending(bs, k) == Pending(bs, k + 1)
  {
    assert bs[k..][1..] == bs[k + 1..];
    assert bs[..k] + [bs[k]] == bs[..k + 1];
  }

  lemma PendingDone(bs: seq<Block>)
    requires bs != []
    ensures Pending(bs, |bs| - 1) == bs
  {
    assert bs[..|bs| - 1] + bs[|bs| - 1..] == bs;
  }

  /** Joining two free neighbours keeps the tiling, the used blocks and the result of coalescing. */
  lemma JoinKeeps(bs: seq<Block>, base: nat, end: nat, k: nat)
    requires Tiles(bs, base, end) && k + 1 < |bs| && !bs[k].used && !bs[k + 1].used
    ensures var r := bs[..k] + [Join(bs[k], bs[k + 1])] + bs[k + 2..];
      && Tiles(r, base, end)
      && Total(r, true) == Total(bs, true)
      && Total(r, false) == Total(bs, false) + HEADER
      && Pending(r, k) == Pending(bs, k)
      && (forall b: Block :: b.used ==> (b in r <==> b in bs))
  {
    JoinTiles(bs, base, end, k);
    JoinTotal(bs, k, true);
    JoinTotal(bs, k, false);
    JoinPending(bs, k);
    assert bs == bs[..k] + [bs[k], bs[k + 1]] + bs[k + 2..];
  }

  lemma JoinTiles(bs: seq<Block>, base: nat, end: nat, k: nat)
    requires Tiles(bs, base, end) && k + 1 < |bs|
    ensures Tiles(bs[..k] + [Join(bs[k], bs[k + 1])] + bs[k + 2..], base, end)
  {
    var r := bs[..k] + [Join(bs[k], bs[k + 1])] + bs[k + 2..];
    assert MeetsAt(bs, k + 1);
    forall i | 0 < i < |r| ensures MeetsAt(r, i) {
      assert i <= k ==> MeetsAt(bs, i);
      assert i > k ==> MeetsAt(bs, i + 1);
    }
  }

  lemma JoinPending(bs: seq<Block>, k: nat)
    requires k + 1 < |bs| && !bs[k].used && !bs[k + 1].used
    ensures Pending(bs[..k] + [Join(bs[k], bs[k + 1])] + bs[k + 2..], k) == Pending(bs, k)
  {
    var j := Join(bs[k], bs[k + 1]);
    var r := bs[..k] + [j] + bs[k + 2..];
    assert r[k..] == [j] + bs[k..][2..];
    assert r[..k] == bs[..k];
  }

  lemma JoinTotal(bs: seq<Block>, k: nat, used: bool)
    requires k + 1 < |bs| && !bs[k].used && !bs[k + 1].used
    ensures var r := bs[..k] + [Join(bs[k], bs[k + 1])] + bs[k + 2..];
      Total(r, used) == Total(bs, used) + if used then 0 else HEADER
  {
    var mid, tail := [bs[k], bs[k + 1]], bs[k + 2..];
    var j := [Join(bs[k], bs[k + 1])];
    assert bs == bs[..k] + (mid + tail);
    assert bs[..k] + j + tail == bs[..k] + (j + tail);
    TotalAppend(bs[..k], mid + tail, used);
    TotalAppend(bs[..k], j + tail, used);
    assert (mid + tail)[1..] == [bs[k + 1]] + tail;
  }

  /** Marking a block free keeps the tiling and moves its size from used to free. */
  lemma ReleaseKeeps(bs: seq<Block>, base: nat, end: nat, k: nat)
    requires Tiles(bs, base, end) && k < |bs| && bs[k].used
    ensures var r := bs[k := bs[k].(used := false)];
      && Tiles(r, base, end)
      && Total(r, true) == Total(bs, true) - bs[k].size
      && Total(r, false) == Total(bs, false) + bs[k].size
  {
    var mid := [bs[k].(used := false)];
    assert mid[1..] == [];
    assert bs[k := mid[0]] == bs[..k] + mid + bs[k + 1..];
    TilesReplace(bs, base, end, k, mid);
    TotalReplace(bs, k, mid, true);
    TotalReplace(bs, k, mid, false);
  }

  /** Releasing a block and coalescing makes no address live. */
  lemma ReleasedLive(bs: seq<Block>, base: nat, end: nat, k: nat)
    requires Tiles(bs, base, end) && k < |bs| && bs[k].used
    ensures forall a: nat :: Live(Coalesce(bs[k := bs[k].(used := false)]), a) ==> Live(bs, a)
  {
    var fs := bs[k := bs[k].(used := false)];
    ReleaseKeeps(bs, base, end, k);
    CoalesceCorrect(fs, base, end);
    assert forall b :: b in fs && b.used ==> b in bs;
    LiveOnlyShrinks(bs, Coalesce(fs));
  }

  /** When every used block of `cs` is a used block of `bs`, so is every live address. */
  lemma LiveOnlyShrinks(bs: seq<Block>, cs: seq<Block>)
    requires forall b :: b in cs && b.used ==> b in bs
    ensures forall a: nat :: Live(cs, a) ==> Live(bs, a)
  {
    forall a: nat | Live(cs, a) ensures Live(bs, a) {
      var i :| 0 <= i < |cs| && cs[i].used && cs[i].addr + HEADER <= a < EndOf(cs[i]);
      assert cs[i] in bs;
    }
  }
}
