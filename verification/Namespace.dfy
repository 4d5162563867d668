/** The loops of ns.c over path texts, against the definitions of NsModel. */
module Namespace {
  import opened Basics
  import opened Paths
  import opened NsModel

  // ---------- normalisation ----------

  /** `n` is the text without its trailing slashes, with `a` for `A` to `z` for `Z` and nothing else changed. */
  ghost predicate LowerCased(path: string, n: string) {
    && |n| <= |path| && (n != [] ==> n[|n| - 1] != '/')
    && (forall i :: |n| <= i < |path| ==> path[i] == '/')
    && (forall i :: 0 <= i < |n| ==>
          if 'A' <= path[i] <= 'Z' then n[i] as int == path[i] as int + 32 else n[i] == path[i])
  }

  lemma NormalMeans(path: string)
    ensures Normal(path).None? <==> |path| >= 256
    ensures Normal(path).Some? ==> LowerCased(path, Normal(path).value)
  {
    StripsSlashes(LowerAll(path));
    assert forall i :: 0 <= i < |path| && LowerAll(path)[i] == '/' ==> path[i] == '/';
  }

  lemma {:induction false} StripsSlashes(s: string)
    ensures Strip(s) <= s && forall i :: |Strip(s)| <= i < |s| ==> s[i] == '/'
  {
    if s != [] && s[|s| - 1] == '/' {
      StripsSlashes(s[..|s| - 1]);
    }
  }

  /** `ns_normalize`: lower case, no trailing slashes; it fails for texts of 256 characters and more. */
  method Normalize(path: string) returns (r: Option<string>)
    ensures r == Normal(path)
    ensures r.None? <==> |path| >= 256
    ensures r.Some? ==> LowerCased(path, r.value)
  {
    NormalMeans(path);
    var out: string := [];
    var i := 0;
    while i < |path| && i < MAX_PATH - 1
      invariant 0 <= i <= |path| && i < MAX_PATH && out == LowerAll(path[..i])
    {
      out := out + [Lower(path[i])];
      i := i + 1;
    }
    if i < |path| {
      return None;
    }
    assert path[..i] == path;
    while |out| > 0 && out[|out| - 1] == '/'
      invariant Strip(out) == Strip(LowerAll(path))
    {
      out := out[..|out| - 1];
    }
    return Some(out);
  }

  /** Normalising twice changes nothing. */
  lemma NormalTwice(path: string)
    requires Normal(path).Some?
    ensures Normal(Normal(path).value) == Normal(path)
  {
    var n := Normal(path).value;
    assert LowerAll(n) == n;
  }

  // ---------- grammar ----------

  /** What the scan of `ns_parse_valid` knows: finished components, and the one it is in. */
  ghost predicate Scanned(cs: seq<string>, depth: nat, length: nat, nondot: bool) {
    && |cs| == depth + 1 && depth <= MAX_DEPTH
    && (forall j :: 0 <= j < depth ==> ValidComponent(cs[j]))
    && AllValid(cs[depth]) && length == |cs[depth]| && (nondot <==> !OnlyDots(cs[depth]))
  }

  lemma ScanChar(s: string, c: char, depth: nat, length: nat, nondot: bool)
    requires Scanned(Split(s), depth, length, nondot) && ValidChar(c)
    ensures Scanned(Split(s + [c]), depth, length + 1, nondot || c != '.')
  {
    var cs := Split(s);
    SplitConcat(s, [c]);
    SplitOne([c]);
    assert Glue(cs, [[c]]) == cs[..depth] + [cs[depth] + [c]];
    var w := cs[depth] + [c];
    assert w[|w| - 1] == c && forall i :: 0 <= i < |cs[depth]| ==> w[i] == cs[depth][i];
  }

  lemma ScanSlash(s: string, depth: nat, length: nat)
    requires Scanned(Split(s), depth, length, true) && depth + 1 <= MAX_DEPTH
    ensures Scanned(Split(s + "/"), depth + 1, 0, false)
  {
    var cs := Split(s);
    SplitConcat(s, "/");
    assert Split("/") == [[], []] by {
      assert "/"[1..] == [];
    }
    assert cs[depth] + [] == cs[depth];
    assert Glue(cs, [[], []]) == cs[..depth] + [cs[depth]] + [[]] == cs + [[]];
  }

  lemma SplitThree(text: string, root: string, s: string, t: string)
    requires NoSlash(root) && text == root + "/" + (s + t)
    ensures Split(text) == [root] + Glue(Split(s), Split(t))
  {
    SplitCons(root, s + t);
    SplitConcat(s, t);
  }

  lemma Reassemble(norm: string, i: nat)
    requires 2 <= i <= |norm| && norm[1] == '/'
    ensures norm == norm[..1] + "/" + (norm[2..i] + norm[i..])
  {
  }

  /** The components of the whole text, from those of the part scanned. */
  lemma ScanWhole(norm: string, i: nat)
    requires 2 <= i <= |norm| && Digit(norm[0]) && norm[1] == '/'
    ensures Split(norm) == [norm[..1]] + Glue(Split(norm[2..i]), Split(norm[i..])) && IsRoot(norm[..1])
  {
    Reassemble(norm, i);
    SplitThree(norm, norm[..1], norm[2..i], norm[i..]);
  }

  lemma ScanDone(norm: string, depth: nat, length: nat)
    requires |norm| >= 2 && Digit(norm[0]) && norm[1] == '/' && Scanned(Split(norm[2..|norm|]), depth, length, true)
    requires depth < MAX_DEPTH
    ensures Grammatical(norm)
  {
    var i := |norm|;
    ScanWhole(norm, i);
    var cs := Split(norm[2..i]);
    assert Split(norm[i..]) == [[]] && cs[depth] + [] == cs[depth];
    assert Glue(cs, [[]]) == cs;
    assert forall j :: 1 <= j < |Split(norm)| ==> Split(norm)[j] == cs[j - 1];
  }

  /** A component that ends empty or with dots only, or one too many, spoils the text. */
  lemma ScanStops(norm: string, i: nat, depth: nat, length: nat, nondot: bool)
    requires 2 <= i <= |norm| && Digit(norm[0]) && norm[1] == '/' && Scanned(Split(norm[2..i]), depth, length, nondot)
    requires i == |norm| || norm[i] == '/'
    requires length == 0 || !nondot || depth == MAX_DEPTH
    ensures !Grammatical(norm)
  {
    ScanWhole(norm, i);
    var cs := Split(norm[2..i]);
    assert Split(norm[i..])[0] == [] && cs[depth] + [] == cs[depth];
    assert Split(norm)[depth + 1] == cs[depth];
  }

  lemma ScanIllegal(norm: string, i: nat, depth: nat, length: nat, nondot: bool)
    requires 2 <= i < |norm| && Digit(norm[0]) && norm[1] == '/' && Scanned(Split(norm[2..i]), depth, length, nondot)
    requires norm[i] != '/' && !ValidChar(norm[i])
    ensures !Grammatical(norm)
  {
    ScanWhole(norm, i);
    var cs, b := Split(norm[2..i]), Split(norm[i..]);
    assert b[0][0] == norm[i];
    var w := cs[depth] + b[0];
    assert Split(norm)[depth + 1] == w && w[|cs[depth]|] == norm[i];
  }

  lemma NoRoot(norm: string)
    requires norm == [] || !Digit(norm[0]) || (|norm| > 1 && norm[1] != '/')
    ensures !Grammatical(norm)
  {
    if norm != [] {
      var r := Split(norm[1..]);
      if |norm| > 1 && norm[1] != '/' && norm[0] != '/' {
        assert |r[0]| > 0;
      }
    }
  }

  lemma BareRoot(norm: string)
    requires |norm| == 1 && Digit(norm[0])
    ensures Grammatical(norm)
  {
    SplitOne(norm);
  }

  const LETTERS: string := "abcdefghijklmnopqrstuvwxyz"
  const DIGITS: string := "0123456789"

  lemma DigitSet(c: char)
    ensures Digit(c) <==> c in DIGITS
  {
    if '0' <= c <= '9' {
      assert DIGITS[c as int - '0' as int] == c;
    }
  }

  lemma LetterSet(c: char)
    ensures 'a' <= c <= 'z' <==> c in LETTERS
  {
    if 'a' <= c <= 'z' {
      assert LETTERS[c as int - 'a' as int] == c;
    }
  }

  /** The characters of a component: lower-case letters, digits, and three signs. */
  lemma CharSet(c: char)
    ensures ValidChar(c) <==> c in LETTERS || c in DIGITS || c in ['-', '_', '.']
  {
    LetterSet(c);
    DigitSet(c);
  }

  /** No component of a valid path leads nowhere or upwards. */
  lemma NoDotDot(n: string, i: nat)
    requires Grammatical(n) && 1 <= i < |Split(n)|
    ensures var c := Split(n)[i]; c != [] && c != "." && c != ".." && exists j :: 0 <= j < |c| && c[j] != '.'
  {
    assert ValidComponent(Split(n)[i]);
  }

  /** `ns_parse_valid` accepts exactly the texts whose normal form has the component grammar. */
  method ParseValid(path: string) returns (ok: bool)
    ensures ok <==> Normal(path).Some? && Grammatical(Normal(path).value)
  {
    var n := Normalize(path);
    if n == None {
      return false;
    }
    var norm := n.value;
    if |norm| < 1 || !Digit(norm[0]) {
      NoRoot(norm);
      return false;
    }
    if |norm| == 1 {
      BareRoot(norm);
      return true;
    }
    if norm[1] != '/' {
      NoRoot(norm);
      return false;
    }
    ok := ScanComponents(norm);
  }

  /** The scan of `ns_parse_valid` behind the root. */
  method ScanComponents(norm: string) returns (ok: bool)
    requires |norm| >= 2 && Digit(norm[0]) && norm[1] == '/'
    ensures ok <==> Grammatical(norm)
  {
    var depth, length, nondot := 0, 0, false;
    var i := 2;
    assert norm[2..2] == [];
    while true
      invariant 2 <= i <= |norm| && Scanned(Split(norm[2..i]), depth, length, nondot)
      decreases |norm| - i
    {
      if i == |norm| || norm[i] == '/' {
        if length == 0 || !nondot {
          ScanStops(norm, i, depth, length, nondot);
          return false;
        }
        if depth + 1 > MAX_DEPTH {
          ScanStops(norm, i, depth, length, nondot);
          return false;
        }
        if i == |norm| {
          ScanDone(norm, depth, length);
          return true;
        }
        ScanSlash(norm[2..i], depth, length);
        depth, length, nondot := depth + 1, 0, false;
        assert norm[2..i + 1] == norm[2..i] + "/";
      } else if ValidChar(norm[i]) {
        ScanChar(norm[2..i], norm[i], depth, length, nondot);
        length, nondot := length + 1, nondot || norm[i] != '.';
        assert norm[2..i + 1] == norm[2..i] + [norm[i]];
      } else {
        ScanIllegal(norm, i, depth, length, nondot);
        return false;
      }
      i := i + 1;
    }
  }

  // ---------- components ----------

  /** The components of a text, without the empty one behind a trailing slash. */
  function Pieces(s: string): seq<string> {
    var cs := Split(s);
    if s == [] || s[|s| - 1] == '/' then cs[..|cs| - 1] else cs
  }

  lemma SplitAt(s: string, k: nat)
    requires k <= |s| && NoSlash(s[..k]) && (k == |s| || s[k] == '/')
    ensures Split(s) == if k == |s| then [s] else [s[..k]] + Split(s[k + 1..])
  {
    if k == |s| {
      assert s[..k] == s;
      SplitOne(s);
    } else {
      assert s == s[..k] + "/" + s[k + 1..];
      SplitCons(s[..k], s[k + 1..]);
    }
  }

  lemma PiecesAt(s: string, k: nat)
    requires s != [] && k <= |s| && NoSlash(s[..k]) && (k == |s| || s[k] == '/')
    ensures Pieces(s) == if k == |s| then [s] else [s[..k]] + Pieces(s[k + 1..])
  {
    SplitAt(s, k);
    if k == |s| {
      assert s[..k] == s;
    } else {
      var t := s[k + 1..];
      assert t != [] ==> t[|t| - 1] == s[|s| - 1];
    }
  }

  /** The index of the next slash from `p`, or the end of the text. */
  method NextSlash(s: string, p: nat) returns (q: nat)
    requires p <= |s|
    ensures p <= q <= |s| && NoSlash(s[p..q]) && (q == |s| || s[q] == '/')
  {
    q := p;
    while q < |s| && s[q] != '/'
      invariant p <= q <= |s| && NoSlash(s[p..q])
    {
      q := q + 1;
    }
  }

  /** The step of the loop in `ns_split` from position `p` to `q`. */
  lemma PieceTaken(buf: string, p: nat, q: nat)
    requires p < |buf| && p <= q <= |buf| && NoSlash(buf[p..q]) && (q == |buf| || buf[q] == '/')
    ensures Pieces(buf[p..]) == [buf[p..q]] + Pieces(if q < |buf| then buf[q + 1..] else [])
  {
    var s := buf[p..];
    assert s[..q - p] == buf[p..q];
    PiecesAt(s, q - p);
    if q < |buf| {
      assert s[q - p + 1..] == buf[q + 1..];
    } else {
      assert buf[p..q] == s;
    }
  }

  lemma Shift(all: seq<string>, done: seq<string>, c: string, rest: seq<string>)
    requires all == done + ([c] + rest)
    ensures all == (done + [c]) + rest
  {
  }

  /** `ns_split`: the components, at most `max` of them. */
  method SplitPath(buf: string, max: nat) returns (comps: seq<string>)
    ensures comps == First(Pieces(buf), max)
  {
    comps := [];
    var p := 0;
    ghost var all, rest := Pieces(buf), Pieces(buf);
    assert buf[0..] == buf;
    while p < |buf| && |comps| < max
      invariant 0 <= p <= |buf| && |comps| <= max && all == comps + rest && rest == Pieces(buf[p..])
    {
      var q := NextSlash(buf, p);
      PieceTaken(buf, p, q);
      rest := Pieces(if q < |buf| then buf[q + 1..] else []);
      Shift(all, comps, buf[p..q], rest);
      comps := comps + [buf[p..q]];
      p := if q < |buf| then q + 1 else q;
    }
    assert p == |buf| ==> rest == [];
  }

  // ---------- aliases ----------

  /** The search for an alias that is a prefix of `work` up to a component boundary. */
  method FindAlias(work: string) returns (a: nat)
    ensures a <= |ALIASES| && (a < |ALIASES| ==> Boundary(Join(ALIASES[a].short), work))
    ensures forall b :: 0 <= b < a ==> !Boundary(Join(ALIASES[b].short), work)
  {
    a := 0;
    while a < |ALIASES|
      invariant 0 <= a <= |ALIASES| && forall b :: 0 <= b < a ==> !Boundary(Join(ALIASES[b].short), work)
    {
      var s := Join(ALIASES[a].short);
      if s <= work && (|work| == |s| || work[|s|] == '/') {
        return;
      }
      a := a + 1;
    }
  }

  lemma AliasMatches(a: Alias, work: string)
    requires a in ALIASES
    ensures Boundary(Join(a.short), work) <==> a.short <= Split(work)
  {
    AliasFacts(a);
    SpelledNormal(a.short);
    PrefixByComponents(Join(a.short), work);
  }

  /** Replacing the alias at the front of a text expands its components. */
  lemma ReplaceAlias(short: seq<string>, full: seq<string>, work: string)
    requires IsAlias(short, full) && Boundary(Join(short), work)
    ensures Split(Join(full) + work[|Join(short)|..]) == Expanded(Split(work)) && Expanded(Split(work)) != Split(work)
  {
    var y := work[|Join(short)|..];
    assert work == Join(short) + y;
    AliasSuffix(short, full, y);
  }

  lemma NoAlias(work: string)
    requires forall b :: 0 <= b < |ALIASES| ==> !Boundary(Join(ALIASES[b].short), work)
    ensures Expanded(Split(work)) == Split(work)
  {
    var cs := Split(work);
    forall b | 0 <= b < |ALIASES| ensures !(ALIASES[b].short <= cs) {
      AliasMatches(ALIASES[b], work);
    }
    NotExpanded(cs);
  }

  lemma NotExpanded(cs: seq<string>)
    requires forall b :: 0 <= b < |ALIASES| ==> !(ALIASES[b].short <= cs)
    ensures Expanded(cs) == cs
  {
    if |cs| >= 2 && cs[0] == "0" {
      assert !(ALIASES[0].short <= cs) && !(ALIASES[1].short <= cs) && !(ALIASES[2].short <= cs);
      assert cs == ["0"] + [cs[1]] + cs[2..];
    }
  }

  /**
   The expansion loop of `ns_canonical`.  At most one of its eight rounds replaces anything.
   */
  method ExpandAliases(path: string) returns (r: Option<string>, ghost rounds: nat)
    requires |path| < MAX_PATH
    ensures rounds <= 1
    ensures r == var e := Join(Expanded(Split(path))); if |e| < MAX_PATH then Some(e) else None
  {
    var work := path;
    var pass := 0;
    rounds := 0;
    JoinSplit(path);
    while pass < 8
      invariant 0 <= pass <= 1 && rounds == pass && |work| < MAX_PATH
      invariant Split(work) == (if pass == 0 then Split(path) else Expanded(Split(path)))
      decreases 8 - pass
    {
      var a := FindAlias(work);
      ExpandedTwice(Split(path));
      JoinSplit(work);
      if a == |ALIASES| {
        NoAlias(work);
        break;
      }
      AliasFacts(ALIASES[a]);
      ReplaceAlias(ALIASES[a].short, ALIASES[a].full, work);
      var rest := work[|Join(ALIASES[a].short)|..];
      JoinSplit(Join(ALIASES[a].full) + rest);
      if |Join(ALIASES[a].full)| + |rest| >= MAX_PATH {
        return None, rounds;
      }
      work := Join(ALIASES[a].full) + rest;
      rounds := rounds + 1;
      pass := pass + 1;
    }
    return Some(work), rounds;
  }

  /** `ns_canonical`. */
  method CanonicalPath(path: string, max: nat) returns (r: Option<string>)
    ensures r == Canonical(path, max)
    ensures r.Some? ==> |path| < 256 && |r.value| < 256 && |r.value| < max
    ensures r.None? ==>
      || |path| >= 256 || !Grammatical(Strip(LowerAll(path)))
      || var e := Join(Expanded(Split(Strip(LowerAll(path))))); |e| >= 256 || |e| >= max
  {
    var n := Normalize(path);
    if n == None {
      return None;
    }
    NormalTwice(path);
    var ok := ParseValid(n.value);
    if !ok {
      return None;
    }
    ghost var rounds;
    r, rounds := ExpandAliases(n.value);
    if r.Some? && |r.value| >= max {
      return None;
    }
  }

  // ---------- resources ----------

  lemma {:induction false} DecimalGrows(s: string, i: nat)
    requires AllDigits(s) && i <= |s|
    ensures AllDigits(s[..i]) && Decimal(s[..i]) <= Decimal(s)
    decreases |s|
  {
    if i == |s| {
      assert s[..i] == s;
    } else {
      var t := s[..|s| - 1];
      DecimalGrows(t, i);
      assert t[..i] == s[..i];
    }
  }

  /** `parse_index`: a decimal number from 1 to 1000000. */
  method ParseIndex(s: string) returns (r: Option<nat>)
    ensures r == Index(s)
    ensures r.Some? <==> s != [] && AllDigits(s) && 1 <= Decimal(s) <= 1000000
    ensures r.Some? ==> r.value == Decimal(s)
  {
    if |s| == 0 {
      return None;
    }
    var v, i := 0, 0;
    while i < |s|
      invariant 0 <= i <= |s| && AllDigits(s[..i]) && v == Decimal(s[..i]) <= 1000000
    {
      if !Digit(s[i]) {
        return None;
      }
      assert s[..i + 1][..i] == s[..i];
      v := v * 10 + (s[i] as int - '0' as int);
      i := i + 1;
      if v > 1000000 {
        if AllDigits(s) {
          DecimalGrows(s, i);
        }
        return None;
      }
    }
    assert s[..i] == s;
    if v < 1 {
      return None;
    }
    return Some(v);
  }

  function Power10(n: nat): nat {
    if n == 0 then 1 else 10 * Power10(n - 1)
  }

  lemma TimesTen(a: int, p: int)
    ensures a * (10 * p) == a * p * 10
  {
  }

  /** Numbers are read in decimal: the leading digit counts a power of ten for each digit behind it. */
  lemma {:induction false} LeadingDigit(s: string)
    requires s != [] && AllDigits(s)
    ensures Decimal(s) == (s[0] as int - '0' as int) * Power10(|s| - 1) + Decimal(s[1..])
  {
    if |s| > 1 {
      var t := s[..|s| - 1];
      var a, p := s[0] as int - '0' as int, Power10(|s| - 2);
      LeadingDigit(t);
      assert s[1..][..|s| - 2] == t[1..] && s[1..][|s| - 2] == s[|s| - 1];
      TimesTen(a, p);
    }
  }

  /** `ns_resolve`; `owner` is the class of the detected storage device. */
  method ResolvePath(path: string, owner: Option<string>) returns (r: Resolution)
    ensures r == Resolve(path, owner)
  {
    var canon := CanonicalPath(path, MAX_PATH);
    if canon == None {
      return Malformed;
    }
    var comps := SplitPath(canon.value, MAX_DEPTH);
    CanonicalPieces(path);
    var index := None;
    if |comps| >= 6 {
      index := ParseIndex(comps[5]);
    }
    return Resolved(canon.value, Classify(comps, owner, index));
  }

  lemma CanonicalPieces(path: string)
    requires Canonical(path, MAX_PATH).Some?
    ensures var e := Canonical(path, MAX_PATH).value; Pieces(e) == Split(e) && IsRoot(Split(e)[0])
  {
    var e := Canonical(path, MAX_PATH).value;
    CanonicalIsNormal(path, MAX_PATH);
    SpelledNoSlash(Split(e));
    JoinClean(Split(e));
    JoinSplit(e);
  }

  // ---------- filesystem paths ----------

  /** `skip_components`: what lies behind the first `n` components. */
  method SkipComponents(s: string, n: nat) returns (rest: string)
    ensures rest == Rest(s, n)
  {
    ghost var cs := Split(s);
    rest := s;
    var k := 0;
    assert cs[0..] == cs;
    while k < n
      invariant 0 <= k <= n && (if k < |cs| then Split(rest) == cs[k..] else rest == [])
    {
      var q := NextSlash(rest, 0);
      assert rest[0..q] == rest[..q];
      SplitAt(rest, q);
      if k < |cs| {
        assert cs[k..][1..] == cs[k + 1..];
      }
      rest := if q < |rest| then rest[q + 1..] else [];
      k := k + 1;
    }
    JoinSplit(rest);
  }

  /** `ns_to_fs_path`. */
  method ToFsPath(input: string, max: nat, vols: Volumes) returns (r: FsResult)
    ensures r == FsPath(input, max, vols)
  {
    if max == 0 {
      return ParseError;
    }
    if |input| < 2 || !Digit(input[0]) || input[1] != '/' {
      return NotNamespace;
    }
    var res := ResolvePath(input, vols.owner);
    if res == Malformed {
      return ParseError;
    }
    var kind, tail := res.resource.kind, res.canonical;
    if kind == Unresolved {
      return UnknownResource;
    }
    if kind == Partition {
      if !Mounted(res.resource.part, vols) {
        return OtherVolume;
      }
      tail := SkipComponents(res.canonical, 6);
    } else if kind == UserStore {
      tail := SkipComponents(res.canonical, 2);
    } else if !Content(kind) {
      return NoFilesystem;
    }
    if max < |tail| + 2 {
      return ParseError;
    }
    return Fs("/" + tail);
  }
}
