/** Sizes of finite sets. */
module Sizes {

  /** Sets that share no element add up. */
  lemma UnionSize<T>(a: set<T>, b: set<T>, c: set<T>)
    requires a !! b && c == a + b
    ensures |c| == |a| + |b|
  {
  }

  /** A part is no larger than the whole. */
  lemma SubsetSize<T>(a: set<T>, b: set<T>)
    requires a <= b
    ensures |a| <= |b|
  {
    UnionSize(a, b - a, b);
  }

  /** The numbers below `n`. */
  ghost function Range(n: nat): (r: set<int>)
    ensures |r| == n && forall p :: p in r <==> 0 <= p < n
  {
    if n == 0 then {} else Range(n - 1) + {n - 1}
  }

  /** A set of numbers below `n` has at most `n` elements. */
  lemma BoundedSize(s: set<int>, n: nat)
    requires forall p :: p in s ==> 0 <= p < n
    ensures |s| <= n
  {
    SubsetSize(s, Range(n));
  }

  /** Sets whose elements correspond one to one have the same size. */
  lemma {:induction false} SameSize<T, U>(a: set<T>, b: set<U>, f: map<T, U>, g: map<U, T>)
    requires forall x :: x in a ==> x in f && f[x] in b && f[x] in g && g[f[x]] == x
    requires forall y :: y in b ==> y in g && g[y] in a && g[y] in f && f[g[y]] == y
    ensures |a| == |b|
    decreases a
  {
    if a == {} {
      assert b == {};
    } else {
      var x :| x in a;
      SameSize(a - {x}, b - {f[x]}, f, g);
    }
  }
}
