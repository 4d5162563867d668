/**
 The physical frame allocator of memory.c: a bitmap over 64-bit words with one bit per frame, a count
 of free frames, and a reference count per frame.

 `bitmap_test` returns an `int`, so it reports every frame whose bit lies in the upper half of its word
 as free.  Such frames are never freed, and reserving one that is taken lowers the free count.
 */
module Pmm {
  import opened Basics
  import opened Bits
  import opened Sizes

  const PAGE_SIZE: int := 4096
  const REF_LIMIT: int := 0x1_0000_0000

  /** A 32-bit reference count. */
  type Count = c: int | 0 <= c < REF_LIMIT

  /** What a count is when it is returned as `int`. */
  function Signed(c: int): int {
    if c < REF_LIMIT / 2 then c else c - REF_LIMIT
  }

  function Inc(c: int): (r: int)
    requires 0 <= c < REF_LIMIT
    ensures 0 <= r < REF_LIMIT
  {
    (c + 1) % REF_LIMIT
  }

  function Dec(c: int): (r: int)
    requires 0 <= c < REF_LIMIT
    ensures 0 <= r < REF_LIMIT
  {
    if c > 0 then c - 1 else 0
  }

  /** 64-bit arithmetic on the free count. */
  function Wrap(x: int): (r: int)
    ensures 0 <= r < WORD
  {
    x % WORD
  }

  lemma WrapSmall(x: int)
    requires 0 <= x < WORD
    ensures Wrap(x) == x
  {
  }

  lemma WrapStep(x: int, k: int)
    ensures Wrap(Wrap(x) + k) == Wrap(x + k)
  {
    var q := x / WORD;
    assert Wrap(x) + k == x + k - WORD * q;
    WrapShift(x + k, q);
  }

  lemma WrapShift(x: int, q: int)
    ensures Wrap(x - WORD * q) == Wrap(x)
  {
    var a, b := x / WORD, (x - WORD * q) / WORD;
    assert Wrap(x) - Wrap(x - WORD * q) == WORD * (q - a + b);
  }

  function WordCount(total: nat): nat {
    (total + 63) / 64
  }

  /** The frames whose bit lies in the lower half of its word: those `bitmap_test` can see. */
  predicate Seen(p: int) {
    p % 64 < 32
  }

  /** The bit of the frame is set: it is taken. */
  predicate Taken(words: seq<Word>, p: int)
    requires 0 <= p < 64 * |words|
  {
    Test(words[p / 64], p % 64)
  }

  /** `free` holds exactly the frames below `total` whose bit is clear. */
  ghost predicate Matches(words: seq<Word>, total: nat, free: set<int>) {
    && |words| == WordCount(total)
    && (forall p :: p in free ==> 0 <= p < total)
    && (forall p {:trigger Taken(words, p)} :: 0 <= p < total ==> (p in free <==> !Taken(words, p)))
  }

  /** The bitmap determines the set of free frames. */
  lemma MatchesUnique(words: seq<Word>, total: nat, a: set<int>, b: set<int>)
    requires Matches(words, total, a) && Matches(words, total, b)
    ensures a == b
  {
    forall p | 0 <= p < total ensures p in a <==> p in b {
      assert Taken(words, p) || !Taken(words, p);
    }
  }

  /** Setting the bit of a frame takes exactly that frame from the free set. */
  lemma TakeFrame(words: seq<Word>, total: nat, free: set<int>, p: int)
    requires Matches(words, total, free) && 0 <= p < total
    ensures Matches(words[p / 64 := Bits.Set(words[p / 64], p % 64)], total, free - {p})
  {
    var r := words[p / 64 := Bits.Set(words[p / 64], p % 64)];
    forall q | 0 <= q < total ensures Taken(r, q) <==> q !in free - {p} {
      assert q in free <==> !Taken(words, q);
      TestSet(words[p / 64], p % 64, q % 64);
    }
  }

  /** Clearing the bit of a frame adds exactly that frame to the free set. */
  lemma GiveFrame(words: seq<Word>, total: nat, free: set<int>, p: int)
    requires Matches(words, total, free) && 0 <= p < total
    ensures Matches(words[p / 64 := Bits.Clear(words[p / 64], p % 64)], total, free + {p})
  {
    var r := words[p / 64 := Bits.Clear(words[p / 64], p % 64)];
    forall q | 0 <= q < total ensures Taken(r, q) <==> q !in free + {p} {
      assert q in free <==> !Taken(words, q);
      TestClear(words[p / 64], p % 64, q % 64);
    }
  }

  /** The frames a byte range touches (`outer`) or contains whole, as the range calls compute them in 64 bits. */
  function FirstTouched(start: nat): nat { start / PAGE_SIZE }
  function EndTouched(start: nat, length: nat): nat { (start + length + PAGE_SIZE - 1) % WORD / PAGE_SIZE }
  function FirstWhole(start: nat): nat { (start + PAGE_SIZE - 1) % WORD / PAGE_SIZE }
  function EndWhole(start: nat, length: nat): nat { (start + length) % WORD / PAGE_SIZE }

  /** The smallest multiple of the page size that is not below `x`. */
  function RoundUpPage(x: nat): (r: nat)
    ensures r % PAGE_SIZE == 0 && x <= r < x + PAGE_SIZE
  {
    (x + PAGE_SIZE - 1) / PAGE_SIZE * PAGE_SIZE
  }

  /** No page begins between a number and the next multiple of the page size. */
  lemma BelowRounded(p: int, a: int, b: int, q: int)
    requires (q - 1) * PAGE_SIZE < a <= q * PAGE_SIZE && (q - 1) * PAGE_SIZE < b <= q * PAGE_SIZE
    ensures p * PAGE_SIZE < a <==> p * PAGE_SIZE < b
  {
  }

  /** Some byte of the range lies in frame `p`. */
  ghost predicate Touches(start: nat, length: nat, p: int) {
    exists x :: start <= x < start + length && InFrame(x, p)
  }

  /** The range starts in frame `p`, behind its first byte. */
  predicate StartsInside(start: nat, p: int) {
    p * PAGE_SIZE < start < (p + 1) * PAGE_SIZE
  }

  predicate InFrame(x: int, p: int) {
    p * PAGE_SIZE <= x < (p + 1) * PAGE_SIZE
  }

  /**
   Short of overflow `pmm_reserve_range` goes through the frames the range has a byte in, and for an empty
   range that starts inside a frame through that frame.
   */
  lemma TouchedExactly(start: nat, length: nat, p: int)
    requires start + length + PAGE_SIZE <= WORD
    ensures FirstTouched(start) <= p < EndTouched(start, length) <==>
      Touches(start, length, p) || (length == 0 && StartsInside(start, p))
  {
    var end := start + length;
    assert FirstTouched(start) <= p <==> start < (p + 1) * PAGE_SIZE;
    assert p < EndTouched(start, length) <==> p * PAGE_SIZE < end;
    if length > 0 && start < (p + 1) * PAGE_SIZE && p * PAGE_SIZE < end {
      var x := if start <= p * PAGE_SIZE then p * PAGE_SIZE else start;
      assert InFrame(x, p) && start <= x < end;
    }
  }

  /**
   `pmm_free_range` goes through the frames that lie whole in the range, the end of the range being what is
   left of it in 64 bits; a start in the last page of the address space counts as 0.
   */
  lemma WholeExactly(start: nat, length: nat, p: int)
    requires start < WORD && length < WORD
    ensures 0 <= FirstWhole(start) <= p < EndWhole(start, length) <==>
      && 0 <= p && (start <= p * PAGE_SIZE || start > WORD - PAGE_SIZE)
      && (p + 1) * PAGE_SIZE <= (start + length) % WORD
  {
    if start <= WORD - PAGE_SIZE {
      assert FirstWhole(start) == (start + PAGE_SIZE - 1) / PAGE_SIZE;
      assert FirstWhole(start) <= p <==> start <= p * PAGE_SIZE;
    } else {
      assert FirstWhole(start) == 0;
    }
    var end := (start + length) % WORD;
    assert p < end / PAGE_SIZE <==> (p + 1) * PAGE_SIZE <= end;
  }

  /** Frame `p` lies whole in the range. */
  predicate WholeIn(start: nat, length: nat, p: int) {
    start <= p * PAGE_SIZE && (p + 1) * PAGE_SIZE <= start + length
  }

  /** The elements of `s` that lie outside [from, to). */
  ghost function Outside(s: set<int>, from: int, to: int): set<int> {
    set p | p in s && !(from <= p < to)
  }

  /** The taken frames of [from, to) that `bitmap_test` reports as free. */
  ghost function Phantoms(free: set<int>, total: nat, from: int, to: int): set<int> {
    set p | 0 <= p < total && from <= p < to && !Seen(p) && p !in free
  }

  lemma PhantomStep(free: set<int>, total: nat, from: int, to: int)
    requires 0 <= from <= to < total
    ensures |Phantoms(free, total, from, to + 1)| ==
            |Phantoms(free, total, from, to)| + if !Seen(to) && to !in free then 1 else 0
  {
    var a, b := Phantoms(free, total, from, to), Phantoms(free, total, from, to + 1);
    if !Seen(to) && to !in free {
      assert b == a + {to};
    } else {
      assert b == a;
    }
  }

  /** While only seen frames are free, as they are from boot on, every unseen frame of a range is a phantom. */
  lemma PhantomsFromBoot(free: set<int>, total: nat, from: int, to: int)
    requires forall p :: p in free ==> Seen(p)
    ensures Phantoms(free, total, from, to) == {} <==> forall p :: 0 <= p < total && from <= p < to ==> Seen(p)
  {
    forall p | 0 <= p < total && from <= p < to && !Seen(p) ensures p in Phantoms(free, total, from, to) {
    }
  }

  class FrameAllocator {
    const bitmap: array<Word>
    const refs: array<Count>
    const total: nat
    const bitmapStart: nat
    const refStart: nat
    const refEnd: nat
    var freeCount: int

    /** The frames whose bit is clear. */
    ghost var free: set<int>

    /** The bitmap is in order; `Valid` adds that the free count is right. */
    ghost predicate Sound()
      reads this, bitmap
    {
      Shape() && 0 <= freeCount < WORD && Matches(bitmap[..], total, free)
    }

    ghost predicate Valid()
      reads this, bitmap
    {
      Sound() && freeCount == |free|
    }

    ghost predicate Shape() {
      && bitmap.Length == WordCount(total) && refs.Length == total < WORD
      && bitmapStart % PAGE_SIZE == 0
      && refStart == bitmapStart + RoundUpPage(8 * WordCount(total))
      && refEnd == refStart + RoundUpPage(4 * total)
    }

    /** The frames `pmm_free_range` passes over: below the bitmap, under it, or under the count array. */
    predicate Reserved(p: int) {
      var a := p * PAGE_SIZE;
      || a < bitmapStart
      || (bitmapStart <= a < bitmapStart + 8 * WordCount(total) + PAGE_SIZE)
      || (refStart <= a < refEnd)
    }

    /**
     The kernel image, the bitmap with its bit for each frame and the count array with its four bytes for each
     frame do not overlap, and every byte of them lies in a reserved frame.
     */
    lemma ReservedCovers(x: nat, kernelEnd: nat)
      requires Shape() && kernelEnd <= bitmapStart
      ensures kernelEnd <= bitmapStart && bitmapStart + 8 * WordCount(total) <= refStart
      ensures total <= 64 * WordCount(total) < total + 64
      ensures x < kernelEnd ==> Reserved(x / PAGE_SIZE)
      ensures bitmapStart <= x < bitmapStart + 8 * WordCount(total) ==> Reserved(x / PAGE_SIZE)
      ensures refStart <= x < refStart + 4 * total ==> Reserved(x / PAGE_SIZE)
    {
    }

    lemma ReservedFrom(a: int, n: int)
      requires n == 8 * WordCount(total) && total > 0 && refStart < refEnd && bitmapStart <= refStart
      requires a < bitmapStart + n + PAGE_SIZE <==> a < refStart + 1
      ensures a < refEnd <==>
        a < bitmapStart || bitmapStart <= a < bitmapStart + n + PAGE_SIZE || refStart <= a < refEnd
    {
    }

    /** No other frame is reserved than those that begin before the count array ends. */
    lemma ReservedExactly(p: int)
      requires Shape() && total > 0
      ensures Reserved(p) <==> p * PAGE_SIZE < refStart + 4 * total
    {
      var n, q, r := 8 * WordCount(total), refStart / PAGE_SIZE, refEnd / PAGE_SIZE;
      assert refStart == q * PAGE_SIZE && refEnd == r * PAGE_SIZE;
      BelowRounded(p, bitmapStart + n + PAGE_SIZE, refStart + 1, q + 1);
      BelowRounded(p, refEnd, refStart + 4 * total, r);
      ReservedFrom(p * PAGE_SIZE, n);
    }

    /** No reserved frame is free, and no frame `bitmap_test` cannot see. */
    ghost predicate Guarded()
      reads this
    {
      forall p :: p in free ==> !Reserved(p) && Seen(p)
    }

    /** The tables of `pmm_init`, with all frames taken, for a bitmap placed behind the kernel image. */
    constructor (kernelEnd: nat, totalPages: nat)
      requires totalPages < WORD
      ensures Valid() && total == totalPages && free == {} && Guarded() && fresh(bitmap) && fresh(refs)
      ensures kernelEnd <= bitmapStart < kernelEnd + PAGE_SIZE && bitmapStart % PAGE_SIZE == 0
      ensures forall p :: 0 <= p < total ==> refs[p] == 0
    {
      var n := WordCount(totalPages);
      var bs := RoundUpPage(kernelEnd);
      var map' := new Word[n](i => Full());
      var counts := new Count[totalPages](i => 0);
      bitmap, refs, total, freeCount, free := map', counts, totalPages, 0, {};
      bitmapStart := bs;
      refStart := bs + RoundUpPage(8 * n);
      refEnd := bs + RoundUpPage(8 * n) + RoundUpPage(4 * totalPages);
      new;
      forall p | 0 <= p < total ensures Taken(bitmap[..], p) {
        TestFull(p % 64);
      }
    }

    /** `bitmap_test`. */
    predicate IsTaken(p: int)
      requires bitmap.Length == WordCount(total) && 0 <= p < total
      reads bitmap
      ensures IsTaken(p) <==> Seen(p) && Taken(bitmap[..], p)
    {
      TestIntBit(bitmap[p / 64], p % 64);
      TestInt(bitmap[p / 64], p % 64)
    }

    /** `bitmap_set`. */
    method SetBit(p: int)
      requires Shape() && Matches(bitmap[..], total, free) && 0 <= p < total
      modifies this`free, bitmap
      ensures Matches(bitmap[..], total, free) && free == old(free) - {p}
    {
      TakeFrame(bitmap[..], total, free, p);
      ghost var before := bitmap[..];
      bitmap[p / 64] := Bits.Set(bitmap[p / 64], p % 64);
      assert bitmap[..] == before[p / 64 := Bits.Set(before[p / 64], p % 64)];
      free := free - {p};
    }

    /** `bitmap_clear`. */
    method ClearBit(p: int)
      requires Shape() && Matches(bitmap[..], total, free) && 0 <= p < total
      modifies this`free, bitmap
      ensures Matches(bitmap[..], total, free) && free == old(free) + {p}
    {
      GiveFrame(bitmap[..], total, free, p);
      ghost var before := bitmap[..];
      bitmap[p / 64] := Bits.Clear(bitmap[p / 64], p % 64);
      assert bitmap[..] == before[p / 64 := Bits.Clear(before[p / 64], p % 64)];
      free := free + {p};
    }

    /**
     `pmm_alloc_page`: takes the lowest free frame; it fails exactly when none is free or the count is 0,
     and on a right count these are the same.
     */
    method Alloc() returns (addr: int)
      requires Sound()
      modifies this`freeCount, this`free, bitmap
      ensures Sound() && addr >= 0 && (old(Valid()) ==> Valid())
      ensures old(free) == {} || old(freeCount) == 0 ==> addr == 0 && free == old(free) && freeCount == old(freeCount)
      ensures old(free) != {} && old(freeCount) != 0 ==>
        && addr % PAGE_SIZE == 0 && addr / PAGE_SIZE in old(free) && free == old(free) - {addr / PAGE_SIZE}
        && freeCount == old(freeCount) - 1
        && forall q :: q in old(free) ==> addr / PAGE_SIZE <= q
      ensures old(Valid()) ==> (old(free) == {} <==> old(freeCount) == 0)
      ensures old(Guarded()) ==> Guarded() && (addr / PAGE_SIZE in old(free) ==> Seen(addr / PAGE_SIZE))
      ensures old(Guarded()) && bitmapStart > 0 && old(Valid()) ==> (addr == 0 <==> old(free) == {})
    {
      if freeCount == 0 {
        return 0;
      }
      var found, p := Search();
      if !found {
        return 0;
      }
      SetBit(p);
      freeCount := freeCount - 1;
      return p * PAGE_SIZE;
    }

    /** `pmm_alloc_page` for callers that never see frame 0 free: the frame number, with 0 for failure. */
    method AllocFrame() returns (f: nat)
      requires Valid() && 0 !in free
      modifies this`freeCount, this`free, bitmap
      ensures Valid() && (f == 0 <==> old(free) == {})
      ensures f == 0 ==> free == {}
      ensures f != 0 ==> f in old(free) && f < total && free == old(free) - {f}
    {
      var a := Alloc();
      return a / PAGE_SIZE;
    }

    /** The scan of `pmm_alloc_page`: words that are full are passed over. */
    method Search() returns (found: bool, p: nat)
      requires Sound()
      ensures found <==> free != {}
      ensures found ==> p in free && forall q :: q in free ==> p <= q
    {
      var i := 0;
      while i < bitmap.Length
        invariant 0 <= i <= bitmap.Length
        invariant forall q :: q in free ==> q >= 64 * i
      {
        if bitmap[i] != Full() {
          found, p := ScanWord(i);
          if found {
            return;
          }
        } else {
          FullWord(i);
        }
        i := i + 1;
      }
      return false, 0;
    }

    lemma FullWord(i: int)
      requires Sound() && 0 <= i < bitmap.Length && bitmap[i] == Full()
      ensures forall q :: 64 * i <= q < 64 * (i + 1) ==> q !in free
    {
      forall q | 64 * i <= q < 64 * (i + 1) ensures q !in free {
        TestFull(q % 64);
        assert 0 <= q < total ==> Taken(bitmap[..], q);
      }
    }

    /** The inner loop of `pmm_alloc_page`: the first clear bit of a word that stands for a frame. */
    method ScanWord(i: int) returns (found: bool, p: nat)
      requires Sound() && 0 <= i < bitmap.Length
      ensures found ==> p in free && 64 * i <= p < 64 * (i + 1) && forall q :: 64 * i <= q < p ==> q !in free
      ensures !found ==> forall q :: 64 * i <= q < 64 * (i + 1) ==> q !in free
    {
      var j := 0;
      while j < 64
        invariant 0 <= j <= 64
        invariant forall q :: 64 * i <= q < 64 * i + j ==> q !in free
      {
        if !Test(bitmap[i], j) {
          p := i * 64 + j;
          if p < total {
            assert p / 64 == i && p % 64 == j;
            assert !Taken(bitmap[..], p);
            return true, p;
          }
        } else {
          assert (64 * i + j) / 64 == i && (64 * i + j) % 64 == j;
          assert 64 * i + j < total ==> Taken(bitmap[..], 64 * i + j);
        }
        j := j + 1;
      }
      return false, 0;
    }

    /**
     `pmm_free_page`: a frame is free afterwards exactly if it was before or the call names it and its bit is
     seen.
     */
    method FreePage(addr: nat)
      requires Sound()
      modifies this`freeCount, this`free, bitmap
      ensures Sound() && (old(Valid()) ==> Valid())
      ensures free ==
        old(free) + (if addr / PAGE_SIZE < total && Seen(addr / PAGE_SIZE) then {addr / PAGE_SIZE} else {})
      ensures freeCount == Wrap(old(freeCount) + |free| - |old(free)|)
      ensures old(Guarded()) ==>
        (Guarded() <==> addr / PAGE_SIZE >= total || !Seen(addr / PAGE_SIZE) || !Reserved(addr / PAGE_SIZE))
    {
      var page := addr / PAGE_SIZE;
      if page >= total {
        WrapSmall(freeCount);
        return;
      }
      GiveBack(page);
    }

    /** `pmm_free_page` by frame number. */
    method FreeFrame(f: nat)
      requires Valid()
      modifies this`freeCount, this`free, bitmap
      ensures Valid() && free == old(free) + (if f < total && Seen(f) then {f} else {})
    {
      FreePage(f * PAGE_SIZE);
    }

    /** Clear the bit of a frame and count it, if it is seen to be set. */
    method GiveBack(page: int)
      requires Sound() && 0 <= page < total
      modifies this`freeCount, this`free, bitmap
      ensures Sound() && (old(Valid()) ==> Valid())
      ensures free == (if Seen(page) then old(free) + {page} else old(free))
      ensures freeCount == Wrap(old(freeCount) + |free| - |old(free)|)
    {
      assert page in free <==> !Taken(bitmap[..], page);
      WrapSmall(freeCount);
      if IsTaken(page) {
        ghost var was := free;
        ClearBit(page);
        BoundedSize(free, total);
        assert |free| == |was| + 1;
        freeCount := Wrap(freeCount + 1);
        WrapSmall(|free|);
      }
    }

    /**
     `pmm_reserve_range`: takes every frame the range touches.  The free count also drops for every
     phantom, so it stays right exactly if there is none.
     */
    method ReserveRange(start: nat, length: nat)
      requires Sound() && start < WORD && length < WORD
      modifies this`freeCount, this`free, bitmap
      ensures Sound() && free == Outside(old(free), FirstTouched(start), EndTouched(start, length))
      ensures var n := |Phantoms(old(free), total, FirstTouched(start), EndTouched(start, length))|;
        && freeCount == Wrap(old(freeCount) + |free| - |old(free)| - n)
        && (old(Valid()) ==> (Valid() <==> n == 0))
      ensures start + length + PAGE_SIZE <= WORD ==>
        forall p :: p in free <==>
          p in old(free) && !Touches(start, length, p) && (length == 0 ==> !StartsInside(start, p))
    {
      var first := start / PAGE_SIZE;
      var last := (start + length + PAGE_SIZE - 1) % WORD / PAGE_SIZE;
      TakeRange(first, last);
      BoundedSize(free, total);
      BoundedSize(Phantoms(old(free), total, first, last), total);
      if start + length + PAGE_SIZE <= WORD {
        forall p
          ensures p in free <==>
            p in old(free) && !Touches(start, length, p) && (length == 0 ==> !StartsInside(start, p))
        {
          TouchedExactly(start, length, p);
        }
      }
    }

    /** The loop of `pmm_reserve_range`. */
    method TakeRange(first: nat, last: nat)
      requires Sound()
      modifies this`freeCount, this`free, bitmap
      ensures Sound() && free == Outside(old(free), first, last)
      ensures freeCount == Wrap(old(freeCount) + |free| - |old(free)| - |Phantoms(old(free), total, first, last)|)
    {
      var page := first;
      ghost var now := free;
      ghost var n := 0;
      assert Phantoms(old(free), total, first, first) == {};
      while page < last && page < total
        invariant first <= page && (page <= last || page == first) && Sound() && now == free
        invariant forall p :: p in now <==> p in old(free) && !(first <= p < page)
        invariant n == |Phantoms(old(free), total, first, page)|
        invariant freeCount == Wrap(old(freeCount) + |now| - |old(free)| - n)
      {
        PhantomStep(old(free), total, first, page);
        WrapStep(old(freeCount) + |now| - |old(free)| - n, -1);
        TakeOut(page);
        n := |Phantoms(old(free), total, first, page + 1)|;
        now := free;
        page := page + 1;
      }
      forall p ensures p in now <==> p in Outside(old(free), first, last) {
      }
      assert Phantoms(old(free), total, first, page) == Phantoms(old(free), total, first, last);
    }

    /** Set the bit of a frame and count it, if it is not seen to be set. */
    method TakeOut(page: int)
      requires Sound() && 0 <= page < total
      modifies this`freeCount, this`free, bitmap
      ensures Sound() && free == old(free) - {page}
      ensures freeCount == (if page in old(free) || !Seen(page) then Wrap(old(freeCount) - 1) else old(freeCount))
      ensures |free| == |old(free)| - if page in old(free) then 1 else 0
    {
      assert page in free <==> !Taken(bitmap[..], page);
      if !IsTaken(page) {
        SetBit(page);
        freeCount := Wrap(freeCount - 1);
      }
    }

    /** `pmm_free_range`: frees the seen frames wholly inside the range, except the reserved ones. */
    method FreeRange(start: nat, length: nat)
      requires Sound() && start < WORD && length < WORD
      modifies this`freeCount, this`free, bitmap
      ensures Sound() && (old(Valid()) ==> Valid()) && freeCount == Wrap(old(freeCount) + |free| - |old(free)|)
      ensures free == old(free) + Usable(FirstWhole(start), EndWhole(start, length))
      ensures start + length + PAGE_SIZE <= WORD ==>
        forall p :: p in free <==>
          p in old(free) || (0 <= p < total && Seen(p) && !Reserved(p) && WholeIn(start, length, p))
      ensures old(Guarded()) ==> Guarded()
    {
      var first := (start + PAGE_SIZE - 1) % WORD / PAGE_SIZE;
      var last := (start + length) % WORD / PAGE_SIZE;
      GiveRange(first, last);
      if start + length + PAGE_SIZE <= WORD {
        UsableExactly(start, length);
      }
    }

    /** The frames freed, in bytes. */
    lemma UsableExactly(start: nat, length: nat)
      requires start + length + PAGE_SIZE <= WORD
      ensures forall p :: p in Usable(FirstWhole(start), EndWhole(start, length)) <==>
        0 <= p < total && Seen(p) && !Reserved(p) && WholeIn(start, length, p)
    {
      forall p
        ensures 0 <= p && FirstWhole(start) <= p < EndWhole(start, length) <==> 0 <= p && WholeIn(start, length, p)
      {
        WholeExactly(start, length, p);
      }
    }

    /** The body of that loop. */
    method GivePage(page: int)
      requires Sound() && 0 <= page < total && bitmapStart <= page * PAGE_SIZE
      modifies this`freeCount, this`free, bitmap
      ensures Sound() && (old(Valid()) ==> Valid()) && freeCount == Wrap(old(freeCount) + |free| - |old(free)|)
      ensures free == if Seen(page) && !Reserved(page) then old(free) + {page} else old(free)
    {
      var a, bitmapEnd := page * PAGE_SIZE, bitmapStart + bitmap.Length * 8;
      WrapSmall(freeCount);
      if !((bitmapStart <= a && a < bitmapEnd + PAGE_SIZE) || (refStart <= a && a < refEnd)) {
        GiveBack(page);
      }
    }

    /** The loop of `pmm_free_range`, from a page behind the kernel on. */
    method GiveFrom(from: nat, last: nat)
      requires Sound() && bitmapStart <= from * PAGE_SIZE
      modifies this`freeCount, this`free, bitmap
      ensures Sound() && (old(Valid()) ==> Valid()) && freeCount == Wrap(old(freeCount) + |free| - |old(free)|)
      ensures forall p :: p in free <==> p in old(free) || (from <= p < last && p < total && Seen(p) && !Reserved(p))
    {
      var page := from;
      ghost var now, base := free, old(freeCount) - |old(free)|;
      WrapSmall(freeCount);
      while page < last && page < total
        invariant from <= page && (page <= last || page == from) && Sound() && now == free && (old(Valid()) ==> Valid())
        invariant freeCount == Wrap(base + |now|)
        invariant forall p :: p in now <==> p in old(free) || (from <= p < page && p < total && Seen(p) && !Reserved(p))
      {
        GivePage(page);
        WrapStep(base + |now|, |free| - |now|);
        now := free;
        page := page + 1;
      }
    }

    /** `pmm_free_range` on page numbers. */
    method GiveRange(first: nat, last: nat)
      requires Sound()
      modifies this`freeCount, this`free, bitmap
      ensures Sound() && (old(Valid()) ==> Valid()) && freeCount == Wrap(old(freeCount) + |free| - |old(free)|)
      ensures free == old(free) + Usable(first, last)
    {
      var kernelEndPage := bitmapStart / PAGE_SIZE;
      GiveFrom(if first < kernelEndPage then kernelEndPage else first, last);
      forall p ensures p in free <==> p in old(free) + Usable(first, last) {
        BelowKernelReserved(p);
      }
    }

    lemma BelowKernelReserved(p: int)
      requires Shape()
      ensures p < bitmapStart / PAGE_SIZE ==> Reserved(p)
    {
    }

    /** The frames of a range that are freed. */
    ghost function Usable(from: int, to: int): set<int> {
      set p | 0 <= p < total && from <= p < to && Seen(p) && !Reserved(p)
    }

    /** Reserving frame 32 right after boot leaves the free count at the largest 64-bit number. */
    lemma ReserveDriftsAtBoot()
      requires Shape() && total > 32
      ensures Phantoms({}, total, FirstTouched(32 * PAGE_SIZE), EndTouched(32 * PAGE_SIZE, PAGE_SIZE)) == {32}
      ensures Wrap(0 + |Outside({}, 32, 33)| - 0 - |{32}|) == WORD - 1
    {
      var s := Phantoms({}, total, FirstTouched(32 * PAGE_SIZE), EndTouched(32 * PAGE_SIZE, PAGE_SIZE));
      assert EndTouched(32 * PAGE_SIZE, PAGE_SIZE) == 33;
      assert 32 in s;
      assert Outside({}, 32, 33) == {};
    }

    /** `pmm_ref_count`. */
    function RefCount(addr: nat): (r: int)
      requires refs.Length == total
      reads refs
      ensures addr >= total * PAGE_SIZE ==> r == 0
    {
      if addr / PAGE_SIZE < total then Signed(refs[addr / PAGE_SIZE]) else 0
    }

    /** `pmm_ref_inc`. */
    method RefInc(addr: nat)
      requires refs.Length == total
      modifies refs
      ensures var p := addr / PAGE_SIZE;
        refs[..] == if p < total then old(refs[..])[p := Inc(old(refs[p]))] else old(refs[..])
    {
      var page := addr / PAGE_SIZE;
      if page < total {
        refs[page] := Inc(refs[page]);
      }
    }

    /** `pmm_ref_dec`: the count after the call, or -1 for an address out of range. */
    method RefDec(addr: nat) returns (r: int)
      requires refs.Length == total
      modifies refs
      ensures var p := addr / PAGE_SIZE;
        if p < total then r == Signed(refs[p]) && refs[..] == old(refs[..])[p := Dec(old(refs[p]))]
        else r == -1 && refs[..] == old(refs[..])
    {
      var page := addr / PAGE_SIZE;
      if page >= total {
        return -1;
      }
      if refs[page] > 0 {
        refs[page] := Dec(refs[page]);
        return Signed(refs[page]);
      }
      return 0;
    }
  }
}
