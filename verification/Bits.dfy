/** 64-bit words, least significant bit first, with C's bitwise operators. */
module Bits {

  type Word = w: seq<bool> | |w| == 64 witness seq(64, i => false)

  function Zero(): (w: Word)
    ensures forall k :: 0 <= k < 64 ==> !w[k]
  {
    seq(64, k => false)
  }

  function Full(): (w: Word)
    ensures forall k :: 0 <= k < 64 ==> w[k]
  {
    seq(64, k => true)
  }

  /** 1ULL << j. */
  function Mask(j: nat): (m: Word)
    ensures forall k :: 0 <= k < 64 ==> m[k] == (k == j)
  {
    seq(64, k => k == j)
  }

  function Or(a: Word, b: Word): (r: Word)
    ensures forall k :: 0 <= k < 64 ==> r[k] == (a[k] || b[k])
  {
    seq(64, k requires 0 <= k < 64 => a[k] || b[k])
  }

  function And(a: Word, b: Word): (r: Word)
    ensures forall k :: 0 <= k < 64 ==> r[k] == (a[k] && b[k])
  {
    seq(64, k requires 0 <= k < 64 => a[k] && b[k])
  }

  function Not(a: Word): (r: Word)
    ensures forall k :: 0 <= k < 64 ==> r[k] == !a[k]
  {
    seq(64, k requires 0 <= k < 64 => !a[k])
  }

  /** The test `w & (1ULL << j)`. */
  predicate Test(w: Word, j: nat) {
    And(w, Mask(j)) != Zero()
  }

  /** A 64-bit value converted to `int` keeps its low 32 bits. */
  function Low32(w: Word): (r: Word)
    ensures forall k :: 0 <= k < 64 ==> r[k] == (k < 32 && w[k])
  {
    seq(64, k requires 0 <= k < 64 => k < 32 && w[k])
  }

  /** The same test where its value passes through `int` first. */
  predicate TestInt(w: Word, j: nat) {
    Low32(And(w, Mask(j))) != Zero()
  }

  /** `w |= 1ULL << j`. */
  function Set(w: Word, j: nat): (r: Word) {
    Or(w, Mask(j))
  }

  /** `w &= ~(1ULL << j)`. */
  function Clear(w: Word, j: nat): (r: Word) {
    And(w, Not(Mask(j)))
  }

  /** The test looks at bit `j` and nothing else. */
  lemma TestBit(w: Word, j: nat)
    requires j < 64
    ensures Test(w, j) <==> w[j]
  {
    if w[j] {
      assert And(w, Mask(j))[j] && !Zero()[j];
    } else {
      assert And(w, Mask(j)) == Zero();
    }
  }

  /** Through `int`, the upper half of the word is invisible. */
  lemma TestIntBit(w: Word, j: nat)
    requires j < 64
    ensures TestInt(w, j) <==> j < 32 && Test(w, j)
  {
    TestBit(w, j);
    if j < 32 && w[j] {
      assert Low32(And(w, Mask(j)))[j] && !Zero()[j];
    } else {
      assert Low32(And(w, Mask(j))) == Zero();
    }
  }

  /** Setting a bit changes that bit only. */
  lemma TestSet(w: Word, j: nat, k: nat)
    requires j < 64 && k < 64
    ensures Test(Set(w, j), k) <==> j == k || Test(w, k)
  {
    TestBit(w, k);
    TestBit(Set(w, j), k);
  }

  /** Clearing a bit changes that bit only. */
  lemma TestClear(w: Word, j: nat, k: nat)
    requires j < 64 && k < 64
    ensures Test(Clear(w, j), k) <==> j != k && Test(w, k)
  {
    TestBit(w, k);
    TestBit(Clear(w, j), k);
  }

  lemma TestFull(j: nat)
    requires j < 64
    ensures Test(Full(), j)
  {
    TestBit(Full(), j);
  }
}
