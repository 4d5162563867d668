/**
 The Internet checksum of ip.c (RFC 1071, section 1), over the bytes of a header read as little-endian
 16-bit words.
 */
module Checksum {

  type Byte = x: int | 0 <= x < 256

  function Word16(low: int, high: int): int {
    low + 256 * high
  }

  /** The 16-bit words added up, with the last byte of an odd length where ip.c puts it: in the high half. */
  function Total(data: seq<Byte>): nat {
    if |data| == 0 then 0
    else if |data| == 1 then Word16(0, data[0])
    else Word16(data[0], data[1]) + Total(data[2..])
  }

  /** What byte `i` of `n` counts: the second of a pair, and the last of an odd number, is in the high half. */
  function Weight(i: nat, n: nat): nat {
    if i % 2 == 1 || (i == n - 1 && n % 2 == 1) then 256 else 1
  }

  /** The bytes from the end down to position `i`, each with its weight. */
  function Weighted(data: seq<Byte>, i: nat): nat
    requires i <= |data|
    decreases |data| - i
  {
    if i == |data| then 0 else data[i] * Weight(i, |data|) + Weighted(data, i + 1)
  }

  lemma {:induction false} TotalIsWeighted(data: seq<Byte>, i: nat)
    requires 2 * i <= |data|
    ensures Total(data[2 * i..]) == Weighted(data, 2 * i)
    decreases |data| - i
  {
    var t := data[2 * i..];
    if |t| == 1 {
      assert Weighted(data, 2 * i + 1) == 0;
    } else if |t| > 1 {
      assert t[2..] == data[2 * (i + 1)..] && t[0] == data[2 * i] && t[1] == data[2 * i + 1];
      assert Weight(2 * i, |data|) == 1 && Weight(2 * i + 1, |data|) == 256;
      TotalIsWeighted(data, i + 1);
      assert Weighted(data, 2 * i + 1) == data[2 * i + 1] * 256 + Weighted(data, 2 * i + 2);
    }
  }

  /** One's complement reduction to 16 bits: the remainder modulo 65535, with 0 only for 0. */
  function Reduce(t: nat): (r: nat)
    ensures r < 0x10000 && (r == 0 <==> t == 0)
  {
    if t == 0 then 0 else (t - 1) % 65535 + 1
  }

  function Check(data: seq<Byte>): (c: nat)
    ensures c < 0x10000
  {
    0xFFFF - Reduce(Total(data))
  }

  lemma ReduceShift(t: nat, q: nat)
    requires t > 0
    ensures Reduce(t + 65535 * q) == Reduce(t)
  {
    assert (t - 1 + 65535 * q) % 65535 == (t - 1) % 65535;
  }

  /** Equal reductions are equality modulo 65535, with 0 apart. */
  lemma ReduceExact(t: nat, u: nat)
    ensures Reduce(t) == Reduce(u) <==> (t - u) % 65535 == 0 && (t == 0 <==> u == 0)
  {
    if t > 0 && u > 0 {
      var a, b, m := (t - 1) / 65535, (u - 1) / 65535, (t - u) / 65535;
      var r, s := Reduce(t), Reduce(u);
      assert t == 65535 * a + r && u == 65535 * b + s;
      MultipleOf(a - b);
      if (t - u) % 65535 == 0 {
        assert r - s == 65535 * (m - a + b);
      }
    }
  }

  lemma MultipleOf(q: int)
    ensures (65535 * q) % 65535 == 0
  {
  }

  /** The carry loop: bits above the low 16 are added back in until there are none; nothing added later notices. */
  method Fold(sum: nat, ghost rest: nat) returns (r: nat)
    ensures r < 0x10000 && Reduce(r + rest) == Reduce(sum + rest)
  {
    r := sum;
    while r >= 0x10000
      invariant Reduce(r + rest) == Reduce(sum + rest)
    {
      ghost var q, s := r / 0x10000, r;
      r := r % 0x10000 + r / 0x10000;
      assert s + rest == (r + rest) + 65535 * q;
      ReduceShift(r + rest, q);
    }
  }

  lemma TotalStep(data: seq<Byte>, i: nat)
    requires 2 * i + 1 < |data|
    ensures Total(data[2 * i..]) == Word16(data[2 * i], data[2 * i + 1]) + Total(data[2 * i + 2..])
  {
    assert data[2 * i..][2..] == data[2 * i + 2..];
  }

  lemma TotalEnd(data: seq<Byte>, i: nat)
    requires i == |data| / 2
    ensures Total(data[2 * i..]) == if |data| % 2 == 1 then Word16(0, data[|data| - 1]) else 0
  {
  }

  /** `c` is what the weighted bytes lack to a multiple of 65535; it is 0xFFFF exactly for data that is all zero. */
  ghost predicate Complements(data: seq<Byte>, c: nat) {
    var t := Weighted(data, 0); c < 0x10000 && (t + c) % 65535 == 0 && (c == 0xFFFF <==> t == 0)
  }

  lemma CheckComplements(data: seq<Byte>)
    ensures Complements(data, Check(data))
  {
    TotalIsWeighted(data, 0);
    assert data[0..] == data;
    var t := Total(data);
    if t > 0 {
      var q := (t - 1) / 65535;
      assert t + Check(data) == 65535 * (q + 1);
      MultipleOf(q + 1);
    }
  }

  /** `ip_checksum16`: the value that makes the weighted bytes a multiple of 65535. */
  method Checksum16(data: seq<Byte>) returns (c: nat)
    ensures c == Check(data) && Complements(data, c)
  {
    var sum: nat := 0;
    var i := 0;
    assert data[0..] == data;
    while i < |data| / 2
      invariant 0 <= i <= |data| / 2 && sum < 0x10000 && Reduce(sum + Total(data[2 * i..])) == Reduce(Total(data))
    {
      TotalStep(data, i);
      sum := Fold(sum + Word16(data[2 * i], data[2 * i + 1]), Total(data[2 * i + 2..]));
      i := i + 1;
    }
    TotalEnd(data, i);
    if |data| % 2 == 1 {
      sum := sum + Word16(0, data[|data| - 1]);
    }
    sum := Fold(sum, 0);
    CheckComplements(data);
    return 0xFFFF - sum;
  }

  /** The data with the 16-bit word at byte `2 * k` replaced. */
  function Store(data: seq<Byte>, k: nat, w: nat): (r: seq<Byte>)
    requires 2 * k + 1 < |data| && w < 0x10000
  {
    data[2 * k := w % 256][2 * k + 1 := w / 256]
  }

  function WordAt(data: seq<Byte>, k: nat): (w: nat)
    requires 2 * k + 1 < |data|
    ensures w < 0x10000
  {
    Word16(data[2 * k], data[2 * k + 1])
  }

  lemma {:induction false} StoreTotal(data: seq<Byte>, k: nat, w: nat)
    requires 2 * k + 1 < |data| && w < 0x10000
    ensures Total(Store(data, k, w)) == Total(data) - WordAt(data, k) + w && Total(data) >= WordAt(data, k)
    decreases k
  {
    var r := Store(data, k, w);
    if k == 0 {
      assert r[2..] == data[2..];
    } else {
      StoreTotal(data[2..], k - 1, w);
      assert r[2..] == Store(data[2..], k - 1, w);
      assert WordAt(data, k) == WordAt(data[2..], k - 1);
    }
  }

  /** A header that carries the checksum computed with the field zeroed checks to zero. */
  lemma StoredChecksumChecks(header: seq<Byte>, k: nat)
    requires 2 * k + 1 < |header| && WordAt(header, k) == 0
    ensures Check(Store(header, k, Check(header))) == 0
  {
    StoreTotal(header, k, Check(header));
    ReduceComplement(Total(header));
  }

  lemma ReduceComplement(t: nat)
    ensures Reduce(t + (65535 - Reduce(t))) == 65535
  {
    if t > 0 {
      var q := (t - 1) / 65535;
      assert t + (65535 - Reduce(t)) == 65535 + 65535 * q;
      ReduceShift(65535, q);
    }
  }

  /** Zero means that the words add up to a multiple of 65535, and not to 0. */
  lemma CheckZero(data: seq<Byte>)
    ensures Check(data) == 0 <==> Total(data) > 0 && Total(data) % 65535 == 0
  {
    ReduceExact(Total(data), 65535);
  }

  /**
   A changed word goes unnoticed exactly when 0 and 0xFFFF are exchanged and the data does not become
   zero throughout.
   */
  lemma ChangedWord(data: seq<Byte>, k: nat, w: nat)
    requires 2 * k + 1 < |data| && w < 0x10000 && w != WordAt(data, k) && Check(data) == 0
    ensures Check(Store(data, k, w)) == 0 <==>
      (w == 0 && WordAt(data, k) == 0xFFFF && Total(data) > 0xFFFF) || (w == 0xFFFF && WordAt(data, k) == 0)
  {
    StoreTotal(data, k, w);
    CheckZero(data);
    CheckZero(Store(data, k, w));
    Exchanged(Total(data), WordAt(data, k), w);
  }

  lemma Exchanged(t: nat, v: nat, w: nat)
    requires t % 65535 == 0 && t >= v && v < 0x10000 && w < 0x10000 && v != w
    ensures (t - v + w) % 65535 == 0 <==> (w == 0 && v == 0xFFFF) || (w == 0xFFFF && v == 0)
  {
    var q, m := t / 65535, (t - v + w) / 65535;
    assert t == 65535 * q;
    if (t - v + w) % 65535 == 0 {
      assert w - v == 65535 * (m - q);
    }
  }

  /** For odd lengths the value differs from that of the data padded with a zero byte, unless the last byte is 0. */
  lemma OddLength(data: seq<Byte>)
    requires |data| % 2 == 1
    ensures Check(data) == Check(data + [0]) <==> data[|data| - 1] == 0
  {
    PaddedTotal(data);
    var b: int := data[|data| - 1];
    var t := Total(data + [0]);
    ReduceExact(Total(data), t);
    assert Total(data) - t == Word16(0, b) - b;
  }

  lemma {:induction false} PaddedTotal(data: seq<Byte>)
    requires |data| % 2 == 1
    ensures var b: int := data[|data| - 1]; Total(data) == Total(data + [0]) + Word16(0, b) - b
    decreases |data|
  {
    if |data| == 1 {
      assert (data + [0])[2..] == [];
    } else {
      PaddedTotal(data[2..]);
      assert (data + [0])[2..] == data[2..] + [0];
    }
  }
}
