/**
 The ring buffer of a pipe in vfs.c, proved to be a FIFO: `accepted` and `returned` record, for the
 specification only, every byte ever taken by a write and given out by a read.
 */
module PipeBuffer {

  const BUF_SIZE: int := 4096

  /** The byte position `k` places after `start` in the ring. */
  function At(start: int, k: int): (i: int)
    requires 0 <= start < BUF_SIZE && 0 <= k
    ensures 0 <= i < BUF_SIZE
  {
    (start + k) % BUF_SIZE
  }

  /** Positions less than a whole turn apart are different, and turns compose. */
  lemma AtDistinct(start: int, j: int, k: int)
    requires 0 <= start < BUF_SIZE && 0 <= j < k < j + BUF_SIZE
    ensures At(start, j) != At(start, k)
  {
  }

  lemma AtCompose(start: int, j: int, k: int)
    requires 0 <= start < BUF_SIZE && 0 <= j && 0 <= k
    ensures At(At(start, j), k) == At(start, j + k)
  {
  }

  /** The `n` bytes of the ring from `start` on. */
  function Window(ring: seq<bv8>, start: int, n: nat): (s: seq<bv8>)
    requires |ring| == BUF_SIZE && 0 <= start < BUF_SIZE
    ensures |s| == n && forall k :: 0 <= k < n ==> s[k] == ring[At(start, k)]
  {
    seq(n, k requires 0 <= k < n => ring[At(start, k)])
  }

  /** Reading forwards: a window splits at any point. */
  lemma WindowSplit(ring: seq<bv8>, start: int, m: nat, n: nat)
    requires |ring| == BUF_SIZE && 0 <= start < BUF_SIZE && m <= n
    ensures Window(ring, start, n) == Window(ring, start, m) + Window(ring, At(start, m), n - m)
  {
    forall k | 0 <= k < n - m ensures At(At(start, m), k) == At(start, m + k) {
      AtCompose(start, m, k);
    }
  }

  /** Writing just behind a window that is not full extends it by the byte written. */
  lemma WindowWrite(ring: seq<bv8>, start: int, n: nat, x: bv8)
    requires |ring| == BUF_SIZE && 0 <= start < BUF_SIZE && n < BUF_SIZE
    ensures Window(ring[At(start, n) := x], start, n + 1) == Window(ring, start, n) + [x]
  {
    forall k | 0 <= k < n ensures At(start, k) != At(start, n) {
      AtDistinct(start, k, n);
    }
  }

  class Pipe {
    const buf: array<bv8>
    var head: int
    var tail: int
    var count: int
    ghost var accepted: seq<bv8>
    ghost var returned: seq<bv8>

    ghost predicate Valid()
      reads this, buf
    {
      && buf.Length == BUF_SIZE
      && 0 <= tail < BUF_SIZE && 0 <= count <= BUF_SIZE && head == At(tail, count)
      && accepted == returned + Buffered()
    }

    /** The bytes waiting to be read, oldest first. */
    ghost function Buffered(): seq<bv8>
      requires buf.Length == BUF_SIZE && 0 <= tail < BUF_SIZE && 0 <= count
      reads this, buf
    {
      Window(buf[..], tail, count)
    }

    /** The reset of a pipe slot in `vfs_pipe`; whatever the buffer holds is not buffered. */
    constructor ()
      ensures Valid() && fresh(buf) && accepted == [] && returned == [] && Buffered() == []
    {
      buf := new bv8[BUF_SIZE];
      head, tail, count := 0, 0, 0;
      accepted, returned := [], [];
    }

    /** `pipe_vfs_write`: takes as many leading bytes of `src` as there is room for. */
    method Write(src: seq<bv8>) returns (n: int)
      requires Valid()
      modifies this`head, this`count, this`accepted, buf
      ensures Valid() && returned == old(returned)
      ensures n == (if |src| <= BUF_SIZE - old(count) then |src| else BUF_SIZE - old(count))
      ensures accepted == old(accepted) + src[..n] && Buffered() == old(Buffered()) + src[..n]
    {
      if src == [] || count >= BUF_SIZE {
        assert src[..0] == [];
        return 0;
      }
      n := |src|;
      var space := BUF_SIZE - count;
      if n > space {
        n := space;
      }
      CopyIn(src, n);
      AtCompose(tail, count, n);
      head := (head + n) % BUF_SIZE;
      count := count + n;
      accepted := accepted + src[..n];
      assert accepted == returned + (old(Buffered()) + src[..n]);
    }

    /** The copy loop of `pipe_vfs_write`. */
    method CopyIn(src: seq<bv8>, n: nat)
      requires Valid() && n <= |src| && count + n <= BUF_SIZE
      modifies buf
      ensures Window(buf[..], tail, count + n) == old(Buffered()) + src[..n]
    {
      var i := 0;
      while i < n
        invariant 0 <= i <= n
        invariant Window(buf[..], tail, count + i) == old(Buffered()) + src[..i]
      {
        AtCompose(tail, count, i);
        WindowWrite(buf[..], tail, count + i, src[i]);
        ghost var before := buf[..];
        buf[(head + i) % BUF_SIZE] := src[i];
        assert buf[..] == before[At(tail, count + i) := src[i]];
        assert src[..i + 1] == src[..i] + [src[i]];
        i := i + 1;
      }
    }

    /** `pipe_vfs_read`: gives out the oldest bytes, at most `size` of them. */
    method Read(size: nat) returns (dst: seq<bv8>)
      requires Valid()
      modifies this`tail, this`count, this`returned
      ensures Valid() && accepted == old(accepted)
      ensures |dst| == (if size <= old(count) then size else old(count))
      ensures returned == old(returned) + dst && old(Buffered()) == dst + Buffered()
    {
      dst := [];
      if size == 0 || count == 0 {
        return;
      }
      var n := if size < count then size else count;
      dst := CopyOut(n);
      WindowSplit(buf[..], tail, n, count);
      AtCompose(tail, n, count - n);
      tail := (tail + n) % BUF_SIZE;
      count := count - n;
      returned := returned + dst;
    }

    /** The copy loop of `pipe_vfs_read`. */
    method CopyOut(n: nat) returns (dst: seq<bv8>)
      requires buf.Length == BUF_SIZE && 0 <= tail < BUF_SIZE
      ensures dst == Window(buf[..], tail, n)
    {
      dst := [];
      var i := 0;
      while i < n
        invariant 0 <= i <= n
        invariant dst == Window(buf[..], tail, i)
      {
        dst := dst + [buf[(tail + i) % BUF_SIZE]];
        i := i + 1;
      }
    }
  }
}
