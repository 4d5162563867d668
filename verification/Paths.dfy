/** Strings split at slashes, and what prefixes of strings mean for their components. */
module Paths {

  /** The components of a string: what lies between its slashes, empty components included. */
  function Split(s: string): (r: seq<string>)
    ensures r != []
  {
    if s == [] then [[]]
    else
      var r := Split(s[1..]);
      if s[0] == '/' then [[]] + r else [[s[0]] + r[0]] + r[1..]
  }

  /** The string with the given components. */
  function Join(cs: seq<string>): (s: string) {
    if |cs| == 0 then [] else if |cs| == 1 then cs[0] else cs[0] + "/" + Join(cs[1..])
  }

  predicate NoSlash(c: string) {
    '/' !in c
  }

  lemma {:induction false} JoinSplit(s: string)
    ensures Join(Split(s)) == s
    ensures forall i :: 0 <= i < |Split(s)| ==> NoSlash(Split(s)[i])
  {
    if s != [] {
      var r := Split(s[1..]);
      JoinSplit(s[1..]);
      if s[0] == '/' {
        assert Split(s)[1..] == r;
        assert Join(Split(s)) == [] + "/" + s[1..];
      } else {
        var q := Split(s);
        assert q[1..] == r[1..];
        assert Join(q) == [s[0]] + Join(r);
        forall i | 0 <= i < |q| ensures NoSlash(q[i]) {
          assert NoSlash(r[i]);
        }
      }
    }
  }

  /** Splitting behind a component without slashes. */
  lemma {:induction false} SplitCons(c: string, s: string)
    requires NoSlash(c)
    ensures Split(c + "/" + s) == [c] + Split(s)
  {
    if c == [] {
      assert c + "/" + s == "/" + s;
      assert ("/" + s)[1..] == s;
    } else {
      assert (c + "/" + s)[1..] == c[1..] + "/" + s;
      SplitCons(c[1..], s);
      assert [c[0]] + c[1..] == c;
    }
  }

  lemma {:induction false} SplitOne(c: string)
    requires NoSlash(c)
    ensures Split(c) == [c]
  {
    if c != [] {
      SplitOne(c[1..]);
      assert [c[0]] + c[1..] == c;
    }
  }

  lemma {:induction false} SplitJoin(cs: seq<string>)
    requires cs != [] && forall i :: 0 <= i < |cs| ==> NoSlash(cs[i])
    ensures Split(Join(cs)) == cs
  {
    assert NoSlash(cs[0]);
    if |cs| == 1 {
      SplitOne(cs[0]);
    } else {
      SplitJoin(cs[1..]);
      SplitCons(cs[0], Join(cs[1..]));
      assert [cs[0]] + cs[1..] == cs;
    }
  }

  /** `m` ends in `p` at the end of a component. */
  predicate Boundary(m: string, p: string) {
    m <= p && (|m| == |p| || p[|m|] == '/')
  }

  /**
   One path is a prefix of another by whole components exactly when it is one by characters and ends at a
   boundary.
   */
  lemma {:induction false} PrefixByComponents(m: string, p: string)
    ensures Split(m) <= Split(p) <==> Boundary(m, p)
  {
    if m == [] {
      if p != [] {
        assert Split(p)[0] == [] <==> p[0] == '/';
      }
    } else if p != [] {
      var r, q := Split(m[1..]), Split(p[1..]);
      PrefixByComponents(m[1..], p[1..]);
      assert m == [m[0]] + m[1..] && p == [p[0]] + p[1..];
      assert m <= p <==> m[0] == p[0] && m[1..] <= p[1..];
      if m[0] == p[0] {
        assert Boundary(m, p) <==> Boundary(m[1..], p[1..]);
      }
      if m[0] == '/' && p[0] == '/' {
        assert Split(m)[1..] == r && Split(p)[1..] == q;
        ConsPrefix([], [], r, q);
      } else if m[0] != '/' && p[0] != '/' {
        HeadPrefix(m[0], p[0], r, q);
      } else {
        assert Split(m)[0] != Split(p)[0];
      }
    } else {
      assert Split(p) == [[]];
      assert Split(m)[0] != [] || |Split(m)| > 1;
    }
  }

  lemma ConsPrefix(a: string, b: string, r: seq<string>, q: seq<string>)
    ensures [a] + r <= [b] + q <==> a == b && r <= q
  {
    if [a] + r <= [b] + q {
      assert ([a] + r)[0] == a && ([b] + q)[0] == b;
      forall i | 0 <= i < |r| ensures r[i] == q[i] {
        assert ([a] + r)[i + 1] == r[i] && ([b] + q)[i + 1] == q[i];
      }
    }
  }

  /** Putting a character in front of the first component of both sides. */
  lemma HeadPrefix(a: char, b: char, r: seq<string>, q: seq<string>)
    requires r != [] && q != []
    ensures [[a] + r[0]] + r[1..] <= [[b] + q[0]] + q[1..] <==> a == b && r <= q
  {
    ConsPrefix([a] + r[0], [b] + q[0], r[1..], q[1..]);
    assert ([a] + r[0])[1..] == r[0] && ([b] + q[0])[1..] == q[0];
    assert [a] + r[0] == [b] + q[0] <==> a == b && r[0] == q[0];
    assert r == [r[0]] + r[1..] && q == [q[0]] + q[1..];
    ConsPrefix(r[0], q[0], r[1..], q[1..]);
  }
}
