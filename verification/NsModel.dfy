/**
 The path language of ns.c on values: normalisation, the grammar in terms of components, alias
 expansion, classification, and the translation to filesystem paths.
 */
module NsModel {
  import opened Basics
  import opened Paths

  const MAX_PATH: nat := 256
  const MAX_DEPTH: nat := 16

  // ---------- normalisation ----------

  function Lower(c: char): char {
    if 'A' <= c <= 'Z' then (c as int - 'A' as int + 'a' as int) as char else c
  }

  function LowerAll(s: string): string {
    seq(|s|, i requires 0 <= i < |s| => Lower(s[i]))
  }

  /** The text without its trailing slashes. */
  function Strip(s: string): (r: string)
    ensures r <= s
    ensures r != [] ==> r[|r| - 1] != '/'
  {
    if s != [] && s[|s| - 1] == '/' then Strip(s[..|s| - 1]) else s
  }

  function Normal(path: string): Option<string> {
    if |path| >= MAX_PATH then None else Some(Strip(LowerAll(path)))
  }

  lemma LowerConcat(s: string, t: string)
    ensures LowerAll(s + t) == LowerAll(s) + LowerAll(t)
  {
  }

  lemma {:induction false} StripSuffix(s: string, t: string)
    requires s != [] && s[|s| - 1] != '/'
    ensures Strip(s + t) == s + Strip(t)
  {
    if t == [] {
      assert s + t == s;
    } else if t[|t| - 1] == '/' {
      StripSuffix(s, t[..|t| - 1]);
      assert (s + t)[..|s + t| - 1] == s + t[..|t| - 1];
    }
  }

  /** A slash in front goes too when nothing is left behind it. */
  lemma {:induction false} StripSlash(t: string)
    ensures Strip("/" + t) == if Strip(t) == [] then [] else "/" + Strip(t)
  {
    if t == [] {
      assert "/" + t == "/";
      assert "/"[..0] == [];
    } else if t[|t| - 1] == '/' {
      StripSlash(t[..|t| - 1]);
      assert ("/" + t)[..|t|] == "/" + t[..|t| - 1];
    }
  }

  // ---------- grammar ----------

  predicate Digit(c: char) {
    '0' <= c <= '9'
  }

  predicate ValidChar(c: char) {
    'a' <= c <= 'z' || Digit(c) || c == '-' || c == '_' || c == '.'
  }

  predicate AllValid(c: string) {
    forall i :: 0 <= i < |c| ==> ValidChar(c[i])
  }

  predicate OnlyDots(c: string) {
    forall i :: 0 <= i < |c| ==> c[i] == '.'
  }

  /** A component: valid characters, and not nothing but dots. */
  predicate ValidComponent(c: string) {
    AllValid(c) && !OnlyDots(c)
  }

  predicate IsRoot(c: string) {
    |c| == 1 && Digit(c[0])
  }

  /** A digit and components below it. */
  predicate Spelled(cs: seq<string>) {
    |cs| >= 1 && IsRoot(cs[0]) && forall i :: 1 <= i < |cs| ==> ValidComponent(cs[i])
  }

  /** What `ns_parse_valid` accepts of a normalised path. */
  predicate Grammatical(n: string) {
    Spelled(Split(n)) && |Split(n)| - 1 <= MAX_DEPTH
  }

  // ---------- splitting longer texts ----------

  /** Component lists run together, as the texts they come from are. */
  function Glue(a: seq<string>, b: seq<string>): seq<string>
    requires a != [] && b != []
  {
    a[..|a| - 1] + [a[|a| - 1] + b[0]] + b[1..]
  }

  lemma GlueSlash(q: seq<string>, b: seq<string>)
    requires q != [] && b != []
    ensures Glue([[]] + q, b) == [[]] + Glue(q, b)
  {
    assert ([[]] + q)[..|q|] == [[]] + q[..|q| - 1];
  }

  lemma GlueChar(c: char, q: seq<string>, b: seq<string>)
    requires q != [] && b != []
    ensures Glue([[c] + q[0]] + q[1..], b) == [[c] + Glue(q, b)[0]] + Glue(q, b)[1..]
  {
    var a := [[c] + q[0]] + q[1..];
    if |q| == 1 {
      assert ([c] + q[0]) + b[0] == [c] + (q[0] + b[0]);
    } else {
      assert a[..|a| - 1] == [[c] + q[0]] + q[1..|q| - 1];
      assert Glue(q, b)[1..] == q[1..|q| - 1] + [q[|q| - 1] + b[0]] + b[1..];
    }
  }

  /** Splitting a concatenation: the last component of the first part grows by the first of the second. */
  lemma {:induction false} SplitConcat(s: string, t: string)
    ensures Split(s + t) == Glue(Split(s), Split(t))
  {
    var b := Split(t);
    if s == [] {
      assert s + t == t;
      assert [] + b[0] == b[0];
      assert Glue([[]], b) == b;
    } else {
      var q := Split(s[1..]);
      SplitConcat(s[1..], t);
      assert (s + t)[1..] == s[1..] + t && (s + t)[0] == s[0];
      if s[0] == '/' {
        GlueSlash(q, b);
      } else {
        GlueChar(s[0], q, b);
      }
    }
  }

  /** A suffix that starts a new component adds its components behind. */
  lemma SplitSuffix(s: string, y: string)
    requires y == [] || y[0] == '/'
    ensures Split(s + y) == Split(s) + Split(y)[1..]
  {
    SplitConcat(s, y);
    var a := Split(s);
    assert Split(y)[0] == [];
    assert a[|a| - 1] + [] == a[|a| - 1];
    assert a == a[..|a| - 1] + [a[|a| - 1]];
  }

  // ---------- spelled paths are their own normal form ----------

  predicate Clean(s: string) {
    (forall i :: 0 <= i < |s| ==> Lower(s[i]) == s[i]) && s != [] && s[|s| - 1] != '/'
  }

  lemma CleanIsNormal(s: string)
    requires Clean(s)
    ensures Strip(LowerAll(s)) == s
  {
    assert LowerAll(s) == s;
  }

  lemma SpelledNoSlash(cs: seq<string>)
    requires Spelled(cs)
    ensures forall i :: 0 <= i < |cs| ==> NoSlash(cs[i]) && Clean(cs[i])
  {
    forall i | 0 <= i < |cs| ensures NoSlash(cs[i]) && Clean(cs[i]) {
      assert i > 0 ==> ValidComponent(cs[i]);
    }
  }

  lemma {:induction false} JoinClean(cs: seq<string>)
    requires cs != [] && forall i :: 0 <= i < |cs| ==> Clean(cs[i])
    ensures Clean(Join(cs))
  {
    if |cs| > 1 {
      assert forall i :: 0 <= i < |cs[1..]| ==> cs[1..][i] == cs[i + 1];
      JoinClean(cs[1..]);
      assert Clean(cs[0]);
    }
  }

  lemma SpelledNormal(cs: seq<string>)
    requires Spelled(cs)
    ensures Split(Join(cs)) == cs && Strip(LowerAll(Join(cs))) == Join(cs)
  {
    SpelledNoSlash(cs);
    SplitJoin(cs);
    JoinClean(cs);
    CleanIsNormal(Join(cs));
  }

  // ---------- aliases ----------

  /** An alias and what it stands for, by components. */
  datatype Alias = Alias(short: seq<string>, full: seq<string>)

  const ALIASES: seq<Alias> := [
    Alias(["0", "hmr"], ["0", "hardware", "memory", "ram"]),
    Alias(["0", "hsh"], ["0", "hardware", "storage", "hdd"]),
    Alias(["0", "hss"], ["0", "hardware", "storage", "ssd"])
  ]

  /** What a component directly below machine 0 stands for. */
  function Expansion(c: string): (r: seq<string>)
    ensures r != []
  {
    if c == "hmr" then ["hardware", "memory", "ram"]
    else if c == "hsh" then ["hardware", "storage", "hdd"]
    else if c == "hss" then ["hardware", "storage", "ssd"]
    else [c]
  }

  function Expanded(cs: seq<string>): seq<string> {
    if |cs| >= 2 && cs[0] == "0" then ["0"] + Expansion(cs[1]) + cs[2..] else cs
  }

  /** One round of expansion is enough. */
  lemma ExpandedTwice(cs: seq<string>)
    ensures Expanded(Expanded(cs)) == Expanded(cs)
  {
    if |cs| >= 2 && cs[0] == "0" {
      var e := Expanded(cs);
      assert e[1] == Expansion(cs[1])[0];
      assert e == ["0"] + [e[1]] + e[2..];
    }
  }

  /** The facts about an alias: two components for four, and no second expansion. */
  ghost predicate IsAlias(short: seq<string>, full: seq<string>) {
    && |short| == 2 && |full| == 4 && |Join(short)| < |Join(full)|
    && Expanded(short) == full == Expanded(full) && Spelled(short) && Spelled(full)
  }

  lemma AliasFacts(a: Alias)
    requires a in ALIASES
    ensures IsAlias(a.short, a.full)
  {
    var c, d, e := a.short[1], a.full[2], a.full[3];
    assert a.short == ["0", c] && a.full == ["0", "hardware", d, e];
    assert Expansion(c) == ["hardware", d, e] && |c| == 3;
    AliasWords(c, d, e);
    assert ["0"] + ["hardware", d, e] + [] == a.full;
    assert ["0"] + Expansion("hardware") + [d, e] == a.full;
    assert a.full[1..][1..] == [d, e];
  }

  predicate Letters(c: string) {
    c != [] && forall i :: 0 <= i < |c| ==> 'a' <= c[i] <= 'z'
  }

  lemma LettersWord(c: string)
    requires Letters(c)
    ensures ValidComponent(c) && NoSlash(c) && Clean(c)
  {
    assert c[0] != '.';
  }

  lemma AliasWords(c: string, d: string, e: string)
    requires Expansion(c) == ["hardware", d, e]
    ensures Spelled(["0", c]) && Spelled(["0", "hardware", d, e])
  {
    assert Letters(c) && Letters("hardware");
    assert Letters(["hardware", d, e][1]) && Letters(["hardware", d, e][2]);
    LettersWord(c);
    LettersWord("hardware");
    LettersWord(d);
    LettersWord(e);
  }

  predicate Components(t: seq<string>) {
    forall i :: 0 <= i < |t| ==> ValidComponent(t[i])
  }

  lemma SpelledConcat(cs: seq<string>, t: seq<string>)
    requires cs != []
    ensures Spelled(cs + t) <==> Spelled(cs) && Components(t)
  {
    var r := cs + t;
    assert forall i :: 0 <= i < |cs| ==> r[i] == cs[i];
    assert forall i :: 0 <= i < |t| ==> r[|cs| + i] == t[i];
    if Spelled(cs) && Components(t) {
      forall i | 1 <= i < |r| ensures ValidComponent(r[i]) {
        if i >= |cs| {
          assert r[i] == t[i - |cs|];
        }
      }
    }
  }

  lemma ExpandedConcat(cs: seq<string>, t: seq<string>)
    requires |cs| >= 2
    ensures Expanded(cs + t) == Expanded(cs) + t
  {
    assert (cs + t)[2..] == cs[2..] + t;
  }

  /** The components of a path under an alias and under what it stands for. */
  lemma AliasSuffix(short: seq<string>, full: seq<string>, y: string)
    requires IsAlias(short, full) && (y == [] || y[0] == '/')
    ensures Expanded(Split(Join(short) + y)) == Split(Join(full) + y) == Expanded(Split(Join(full) + y))
    ensures |Split(Join(short) + y)| < |Split(Join(full) + y)|
    ensures Spelled(Split(Join(full) + y)) <==> Spelled(Split(Join(short) + y))
  {
    var t := Split(y)[1..];
    SpelledNormal(short);
    SpelledNormal(full);
    SplitSuffix(Join(short), y);
    SplitSuffix(Join(full), y);
    ExpandedConcat(short, t);
    ExpandedConcat(full, t);
    SpelledConcat(short, t);
    SpelledConcat(full, t);
  }

  // ---------- canonical paths ----------

  function Canonical(path: string, max: nat): Option<string> {
    match Normal(path)
    case None => None
    case Some(n) => CanonicalOf(n, max)
  }

  /** The canonical form of a normalised path. */
  function CanonicalOf(n: string, max: nat): Option<string> {
    if !Grammatical(n) then None
    else
      var e := Join(Expanded(Split(n)));
      if |e| >= MAX_PATH || |e| >= max then None else Some(e)
  }

  lemma ExpandedSpelled(cs: seq<string>)
    requires Spelled(cs)
    ensures Spelled(Expanded(cs))
  {
    if |cs| >= 2 && cs[0] == "0" {
      var x := Expansion(cs[1]);
      var two := cs[..2];
      assert cs == two + cs[2..] && two[2..] == [];
      SpelledConcat(two, cs[2..]);
      if |x| == 3 {
        AliasWords(cs[1], x[1], x[2]);
        assert ["0"] + x == ["0", "hardware", x[1], x[2]];
      } else {
        assert ["0"] + x == two;
      }
      SpelledConcat(["0"] + x, cs[2..]);
    }
  }

  /**
   The canonical path is a normal form: it is its own canonical path exactly when it respects the depth
   limit, which is enforced before expansion only.
   */
  lemma CanonicalIsNormal(path: string, max: nat)
    requires Canonical(path, max).Some?
    ensures var e := Canonical(path, max).value;
      && Spelled(Split(e)) && Expanded(Split(e)) == Split(e)
      && Canonical(e, max) == if |Split(e)| - 1 <= MAX_DEPTH then Some(e) else None
  {
    var cs := Split(Strip(LowerAll(path)));
    ExpandedSpelled(cs);
    SpelledNormal(Expanded(cs));
    ExpandedTwice(cs);
  }

  /** A canonical path beyond the depth limit has no canonical form of its own. */
  lemma TooDeep(cs: seq<string>)
    requires Spelled(cs) && |cs| - 1 <= MAX_DEPTH < |Expanded(cs)| - 1
    requires |Join(cs)| < MAX_PATH && |Join(Expanded(cs))| < MAX_PATH
    ensures Canonical(Join(cs), MAX_PATH) == Some(Join(Expanded(cs)))
    ensures Canonical(Join(Expanded(cs)), MAX_PATH) == None
  {
    SpelledNormal(cs);
    ExpandedSpelled(cs);
    SpelledNormal(Expanded(cs));
  }

  /** A path of the greatest depth below an alias is an instance. */
  lemma CanonicalTooDeep(path: string)
    requires path == Join(["0", "hmr"] + seq(15, i => "a"))
    ensures Canonical(path, MAX_PATH).Some? && Canonical(Canonical(path, MAX_PATH).value, MAX_PATH) == None
  {
    var t := seq(15, i => "a");
    var cs := ["0", "hmr"] + t;
    forall i | 1 <= i < |cs| ensures ValidComponent(cs[i]) {
      assert cs[i][0] != '.';
    }
    assert cs[2..] == t;
    JoinLength(cs);
    JoinLength(Expanded(cs));
    TooDeep(cs);
  }

  lemma {:induction false} JoinLength(cs: seq<string>)
    requires forall i :: 0 <= i < |cs| ==> |cs[i]| <= 8
    ensures |Join(cs)| <= 9 * |cs|
  {
    if |cs| > 1 {
      JoinLength(cs[1..]);
    }
  }

  /** An alias and what it stands for give the same canonical path, before any suffix the longer spelling admits. */
  lemma AliasAgrees(a: Alias, x: string, max: nat)
    requires a in ALIASES && (x == [] || x[0] == '/') && Canonical(Join(a.full) + x, max).Some?
    ensures Canonical(Join(a.short) + x, max) == Canonical(Join(a.full) + x, max)
  {
    AliasFacts(a);
    SameCanonical(a.short, a.full, x, max);
  }

  lemma SameCanonical(short: seq<string>, full: seq<string>, x: string, max: nat)
    requires IsAlias(short, full) && (x == [] || x[0] == '/') && Canonical(Join(full) + x, max).Some?
    ensures Canonical(Join(short) + x, max) == Canonical(Join(full) + x, max)
  {
    SpelledNoSlash(short);
    SpelledNoSlash(full);
    JoinClean(short);
    JoinClean(full);
    NormalSuffix(Join(short), x);
    NormalSuffix(Join(full), x);
    SameCanonicalOf(short, full, Strip(LowerAll(x)), max);
  }

  lemma SameCanonicalOf(short: seq<string>, full: seq<string>, y: string, max: nat)
    requires IsAlias(short, full) && (y == [] || y[0] == '/') && CanonicalOf(Join(full) + y, max).Some?
    ensures CanonicalOf(Join(short) + y, max) == CanonicalOf(Join(full) + y, max)
  {
    AliasSuffix(short, full, y);
  }

  /** Normalising behind a clean path. */
  lemma NormalSuffix(s: string, x: string)
    requires Clean(s) && (x == [] || x[0] == '/')
    ensures Strip(LowerAll(s + x)) == s + Strip(LowerAll(x))
    ensures var y := Strip(LowerAll(x)); y == [] || y[0] == '/'
  {
    LowerConcat(s, x);
    assert LowerAll(s) == s;
    StripSuffix(s, LowerAll(x));
  }

  // ---------- classification ----------

  datatype Kind = Unresolved | Root | HardwareDir | MemoryRam | HwInfo | StorageDevice | PartitionsDir | Partition
                | Cpu | SystemDir | SystemNode | DevDir | DevShim | UserStore

  datatype Resource = Resource(kind: Kind, domain: int, part: int, device: Option<string>)

  datatype Resolution = Malformed | Resolved(canonical: string, resource: Resource)

  predicate AllDigits(s: string) {
    forall i :: 0 <= i < |s| ==> Digit(s[i])
  }

  function Decimal(s: string): (v: nat)
    requires AllDigits(s)
  {
    if s == [] then 0 else Decimal(s[..|s| - 1]) * 10 + (s[|s| - 1] as int - '0' as int)
  }

  /** A partition number: 1 to 1000000 in decimal. */
  function Index(s: string): Option<nat> {
    if s != [] && AllDigits(s) && 1 <= Decimal(s) <= 1000000 then Some(Decimal(s)) else None
  }

  function First(cs: seq<string>, max: nat): seq<string> {
    if |cs| <= max then cs else cs[..max]
  }

  function ClassifyHardware(cs: seq<string>, owner: Option<string>, index: Option<nat>): Resource
    requires |cs| >= 3 && cs[0] != []
  {
    var n, d := |cs|, cs[0][0] as int - '0' as int;
    var none := Resource(Unresolved, d, -1, None);
    if cs[2] == "memory" then
      if n == 3 then Resource(HardwareDir, d, -1, None)
      else if n == 4 && cs[3] == "ram" then Resource(MemoryRam, d, -1, None)
      else if n == 4 && cs[3] == "info" then Resource(HwInfo, d, -1, None)
      else none
    else if cs[2] == "storage" then
      if n == 3 then Resource(HardwareDir, d, -1, None)
      else if (cs[3] != "hdd" && cs[3] != "ssd") || owner != Some(cs[3]) then none
      else if n == 4 then Resource(StorageDevice, d, -1, Some(cs[3]))
      else if cs[4] != "partitions" then none
      else if n == 5 then Resource(PartitionsDir, d, -1, Some(cs[3]))
      else if index.None? then none
      else Resource(Partition, d, index.value, Some(cs[3]))
    else if cs[2] == "cpu" then
      if n == 3 then Resource(Cpu, d, -1, None)
      else if n == 4 && cs[3] == "id" then Resource(HwInfo, d, -1, None)
      else none
    else if n == 3 && (cs[2] == "platform" || cs[2] == "pci") then Resource(HwInfo, d, -1, None)
    else none
  }

  /** The node walk of `ns_resolve`; `owner` is the class of the detected storage device. */
  function Classify(cs: seq<string>, owner: Option<string>, index: Option<nat>): Resource
    requires |cs| >= 1 && cs[0] != []
  {
    var n, d := |cs|, cs[0][0] as int - '0' as int;
    if n == 1 then Resource(Root, d, -1, None)
    else if cs[1] == "hardware" then
      if n == 2 then Resource(HardwareDir, d, -1, None) else ClassifyHardware(cs, owner, index)
    else if cs[1] == "system" then Resource(if n == 2 then SystemDir else SystemNode, d, -1, None)
    else if cs[1] == "dev" then Resource(if n == 2 then DevDir else DevShim, d, -1, None)
    else if cs[1] == "user" then Resource(UserStore, d, -1, None)
    else Resource(Unresolved, d, -1, None)
  }

  /** The resource with these components. */
  function Named(cs: seq<string>, owner: Option<string>): Resource
    requires |cs| >= 1 && cs[0] != []
  {
    Classify(cs, owner, if |cs| >= 6 then Index(cs[5]) else None)
  }

  function Resolve(path: string, owner: Option<string>): Resolution {
    match Canonical(path, MAX_PATH)
    case None => Malformed
    case Some(e) =>
      var cs := First(Split(e), MAX_DEPTH);
      if cs[0] == [] then Malformed
      else Resolved(e, Named(cs, owner))
  }

  /** An alias and what it stands for name the same resource. */
  lemma AliasResolves(a: Alias, x: string, owner: Option<string>)
    requires a in ALIASES && (x == [] || x[0] == '/') && Canonical(Join(a.full) + x, MAX_PATH).Some?
    ensures Resolve(Join(a.short) + x, owner) == Resolve(Join(a.full) + x, owner) != Malformed
  {
    AliasAgrees(a, x, MAX_PATH);
    CanonicalIsNormal(Join(a.full) + x, MAX_PATH);
  }

  // ---------- filesystem paths ----------

  /** The storage class present, the first sectors of the listed partitions, and that of the mounted volume. */
  datatype Volumes = Volumes(owner: Option<string>, starts: seq<nat>, base: nat)

  datatype FsResult = NotNamespace | Fs(path: string) | ParseError | UnknownResource | OtherVolume | NoFilesystem

  predicate Mounted(i: int, vols: Volumes) {
    1 <= i <= |vols.starts| && vols.starts[i - 1] == vols.base && vols.base != 0
  }

  /** What is left of a path behind its first `n` components. */
  function Rest(path: string, n: nat): string {
    var cs := Split(path);
    if n <= |cs| then Join(cs[n..]) else []
  }

  predicate Content(k: Kind) {
    k == SystemNode || k == DevShim || k == HwInfo || k == MemoryRam || k == Cpu
  }

  function FsTail(canonical: string, r: Resource, vols: Volumes): FsResult {
    if r.kind == Partition then (if Mounted(r.part, vols) then Fs(Rest(canonical, 6)) else OtherVolume)
    else if r.kind == UserStore then Fs(Rest(canonical, 2))
    else if Content(r.kind) then Fs(canonical)
    else NoFilesystem
  }

  function FsOf(res: Resolution, max: nat, vols: Volumes): FsResult {
    match res
    case Malformed => ParseError
    case Resolved(canonical, r) =>
      if r.kind == Unresolved then UnknownResource
      else match FsTail(canonical, r, vols)
        case Fs(tail) => if max < |tail| + 2 then ParseError else Fs("/" + tail)
        case e => e
  }

  predicate Addressed(input: string) {
    |input| >= 2 && Digit(input[0]) && input[1] == '/'
  }

  function FsPath(input: string, max: nat, vols: Volumes): FsResult {
    if max == 0 then ParseError
    else if !Addressed(input) then NotNamespace
    else FsOf(Resolve(input, vols.owner), max, vols)
  }

  function Under(front: string, c: string): string {
    front + "/" + c
  }

  lemma UnderAddressed(front: string, c: string)
    ensures Addressed(front) ==> Addressed(Under(front, c))
  {
  }

  lemma UnderSplit(front: string, c: string)
    requires Clean(front) && Clean(c) && NoSlash(c)
    ensures Split(Under(front, c)) == Split(front) + [c] && Clean(Under(front, c))
  {
    var y := "/" + c;
    assert Under(front, c) == front + y && y[1..] == c;
    SplitSuffix(front, y);
    SplitOne(c);
    assert Split(y)[1..] == [c];
  }

  /** The components of a normalised suffix. */
  function Below(x: string): seq<string> {
    var z := Strip(LowerAll(x));
    if z == [] then [] else Split(z)
  }

  lemma BelowSuffix(x: string)
    ensures var y := Strip(LowerAll("/" + x)); (y == [] || y[0] == '/') && Split(y)[1..] == Below(x)
    ensures Join(Below(x)) == Strip(LowerAll(x))
  {
    var z := Strip(LowerAll(x));
    LowerConcat("/", x);
    assert LowerAll("/") == "/";
    StripSlash(LowerAll(x));
    if z != [] {
      JoinSplit(z);
      assert ("/" + z)[1..] == z;
    }
  }

  /** A path that continues `front` with `x`, in components. */
  lemma NormalUnder(front: string, x: string)
    requires Clean(front)
    ensures Split(Strip(LowerAll(Under(front, x)))) == Split(front) + Below(x)
  {
    assert Under(front, x) == front + ("/" + x);
    NormalSuffix(front, "/" + x);
    BelowSuffix(x);
    SplitSuffix(front, Strip(LowerAll("/" + x)));
  }

  lemma ClassifyUser(cs: seq<string>, owner: Option<string>, index: Option<nat>)
    requires |cs| >= 2 && cs[0] != [] && cs[1] == "user"
    ensures Classify(cs, owner, index).kind == UserStore
  {
  }

  lemma ClassifyPartition(cs: seq<string>, dev: string, index: nat)
    requires |cs| >= 6 && cs[0] != [] && cs[1] == "hardware" && cs[2] == "storage" && cs[3] == dev
    requires cs[4] == "partitions"
    requires dev == "hdd" || dev == "ssd"
    ensures var r := Classify(cs, Some(dev), Some(index)); r.kind == Partition && r.part == index
  {
  }

  /** What a path resolves to when its expanded components are known. */
  lemma ResolveAs(path: string, cs: seq<string>, owner: Option<string>)
    requires Canonical(path, MAX_PATH).Some? && cs == Expanded(Split(Strip(LowerAll(path))))
    ensures Spelled(cs) && Canonical(path, MAX_PATH).value == Join(cs) && Split(Join(cs)) == cs
    ensures var first := First(cs, MAX_DEPTH);
      first[0] != [] && Resolve(path, owner) == Resolved(Join(cs), Named(first, owner))
  {
    ExpandedSpelled(Split(Strip(LowerAll(path))));
    SpelledNormal(cs);
  }

  /** The last steps of the translation, once the resource and the components are known. */
  lemma TailPath(e: string, cs: seq<string>, b: seq<string>, max: nat, vols: Volumes, r: Resource)
    requires Split(e) == cs && max >= |Join(b)| + 2
    requires (r.kind == UserStore && |cs| >= 2 && cs[2..] == b) ||
      (r.kind == Partition && Mounted(r.part, vols) && |cs| >= 6 && cs[6..] == b)
    ensures FsOf(Resolved(e, r), max, vols) == Fs("/" + Join(b))
  {
    var n := if r.kind == UserStore then 2 else 6;
    assert Rest(e, n) == Join(b);
    assert FsTail(e, r, vols) == Fs(Join(b));
  }

  lemma UserResource(path: string, front: seq<string>, b: seq<string>, max: nat, vols: Volumes)
    requires Canonical(path, MAX_PATH).Some? && max >= |Join(b)| + 2 && |front| == 2 && front[1] == "user"
    requires front + b == Expanded(Split(Strip(LowerAll(path))))
    ensures FsOf(Resolve(path, vols.owner), max, vols) == Fs("/" + Join(b))
  {
    var cs := front + b;
    ResolveAs(path, cs, vols.owner);
    var first := First(cs, MAX_DEPTH);
    assert first[1] == cs[1] == front[1];
    ClassifyUser(first, vols.owner, if |first| >= 6 then Index(first[5]) else None);
    assert cs[2..] == b;
    TailPath(Join(cs), cs, b, max, vols, Named(first, vols.owner));
  }

  lemma UserFront()
    ensures Clean(Under("0", "user")) && Split(Under("0", "user")) == ["0", "user"] == Expanded(["0", "user"])
  {
    SplitOne("0");
    UnderSplit("0", "user");
    assert ["0", "user"][2..] == [] && Expansion("user") == ["user"];
  }

  /** The expanded components of a path that continues `front` with `x`. */
  lemma ExpandedUnder(front: string, x: string)
    requires Clean(front) && |Split(front)| >= 2
    ensures Expanded(Split(Strip(LowerAll(Under(front, x))))) == Expanded(Split(front)) + Below(x)
  {
    NormalUnder(front, x);
    ExpandedConcat(Split(front), Below(x));
  }

  /** A path below 0/user is a path of the mounted filesystem. */
  lemma UserPath(x: string, max: nat, vols: Volumes)
    requires Canonical(Under(Under("0", "user"), x), MAX_PATH).Some? && max >= |Strip(LowerAll(x))| + 2
    ensures FsPath(Under(Under("0", "user"), x), max, vols) == Fs("/" + Strip(LowerAll(x)))
  {
    var path := Under(Under("0", "user"), x);
    UserFront();
    ExpandedUnder(Under("0", "user"), x);
    BelowSuffix(x);
    UserResource(path, ["0", "user"], Below(x), max, vols);
    assert path[0] == '0' && path[1] == '/';
  }

  /** The spellings of a storage device. */
  predicate Spells(front: string, dev: string) {
    || (dev == "hdd" && (front == Join(ALIASES[1].short) || front == Join(ALIASES[1].full)))
    || (dev == "ssd" && (front == Join(ALIASES[2].short) || front == Join(ALIASES[2].full)))
  }

  lemma DeviceComponents(front: string, dev: string)
    requires Spells(front, dev)
    ensures Clean(front) && Expanded(Split(front)) == ["0", "hardware", "storage", dev] && |Split(front)| >= 2
    ensures Addressed(front)
  {
    var a := if dev == "hdd" then ALIASES[1] else ALIASES[2];
    AliasFacts(a);
    assert a.full == ["0", "hardware", "storage", dev];
    DeviceOf(a.short, a.full, front);
  }

  lemma DeviceOf(short: seq<string>, full: seq<string>, front: string)
    requires IsAlias(short, full) && (front == Join(short) || front == Join(full)) && short[0] == full[0] == "0"
    ensures Clean(front) && Expanded(Split(front)) == full && |Split(front)| >= 2
    ensures Addressed(front)
  {
    SpelledNormal(short);
    SpelledNormal(full);
    SpelledNoSlash(short);
    SpelledNoSlash(full);
    JoinClean(short);
    JoinClean(full);
  }

  lemma PartitionResource(path: string, cs: seq<string>, dev: string, number: string, x: string, max: nat,
                          vols: Volumes)
    requires (dev == "hdd" || dev == "ssd") && vols.owner == Some(dev) && Index(number).Some?
    requires Mounted(Index(number).value, vols)
    requires Canonical(path, MAX_PATH).Some? && max >= |Join(Below(x))| + 2
    requires cs == ["0", "hardware", "storage", dev] + ["partitions", number] + Below(x)
    requires cs == Expanded(Split(Strip(LowerAll(path))))
    ensures FsOf(Resolve(path, vols.owner), max, vols) == Fs("/" + Join(Below(x)))
  {
    ResolveAs(path, cs, vols.owner);
    PartitionFirst(cs, dev, number, Below(x));
    var r := Classify(First(cs, MAX_DEPTH), vols.owner, Index(number));
    TailPath(Join(cs), cs, Below(x), max, vols, r);
  }

  lemma PartitionFirst(cs: seq<string>, dev: string, number: string, b: seq<string>)
    requires (dev == "hdd" || dev == "ssd") && Index(number).Some?
    requires cs == ["0", "hardware", "storage", dev] + ["partitions", number] + b
    ensures cs[6..] == b
    ensures var first := First(cs, MAX_DEPTH);
      && |first| >= 6 && first[5] == number && first[0] != []
      && var r := Classify(first, Some(dev), Index(number)); r.kind == Partition && r.part == Index(number).value
  {
    var first := First(cs, MAX_DEPTH);
    assert forall i :: 0 <= i < 6 ==> first[i] == cs[i];
    ClassifyPartition(first, dev, Index(number).value);
  }

  /** Partition `number` of the device spelled `front`. */
  function Volume(front: string, number: string): string {
    Under(Under(front, "partitions"), number)
  }

  lemma VolumeSplit(front: string, number: string)
    requires Clean(front) && number != [] && AllDigits(number)
    ensures Split(Volume(front, number)) == Split(front) + ["partitions", number] && Clean(Volume(front, number))
  {
    LettersWord("partitions");
    UnderSplit(front, "partitions");
    UnderSplit(Under(front, "partitions"), number);
    assert Split(front) + ["partitions"] + [number] == Split(front) + ["partitions", number];
  }

  lemma PartitionComponents(front: string, number: string, x: string)
    requires Clean(front) && |Split(front)| >= 2 && number != [] && AllDigits(number)
    ensures Expanded(Split(Strip(LowerAll(Under(Volume(front, number), x))))) ==
      Expanded(Split(front)) + ["partitions", number] + Below(x)
  {
    VolumeSplit(front, number);
    NormalUnder(Volume(front, number), x);
    var f, v, b := Split(front), ["partitions", number], Below(x);
    ExpandedConcat(f + v, b);
    ExpandedConcat(f, v);
  }

  /** A path below the mounted partition of the present device is a path of the mounted filesystem. */
  lemma PartitionPath(front: string, dev: string, number: string, x: string, max: nat, vols: Volumes)
    requires Spells(front, dev) && vols.owner == Some(dev) && Index(number).Some? && Mounted(Index(number).value, vols)
    requires Canonical(Under(Volume(front, number), x), MAX_PATH).Some? && max >= |Strip(LowerAll(x))| + 2
    ensures FsPath(Under(Volume(front, number), x), max, vols) == Fs("/" + Strip(LowerAll(x)))
  {
    var path := Under(Volume(front, number), x);
    DeviceComponents(front, dev);
    PartitionComponents(front, number, x);
    BelowSuffix(x);
    PartitionResource(path, ["0", "hardware", "storage", dev] + ["partitions", number] + Below(x), dev, number, x, max,
                      vols);
    UnderAddressed(front, "partitions");
    UnderAddressed(Under(front, "partitions"), number);
    UnderAddressed(Volume(front, number), x);
  }

  /** Both spellings of a file on the mounted volume give the same filesystem path, no longer than either. */
  lemma SamePath(front: string, dev: string, number: string, x: string, max: nat, vols: Volumes)
    requires Spells(front, dev) && vols.owner == Some(dev) && Index(number).Some? && Mounted(Index(number).value, vols)
    requires Canonical(Under(Volume(front, number), x), MAX_PATH).Some?
    requires Canonical(Under(Under("0", "user"), x), MAX_PATH).Some?
    requires max >= |Strip(LowerAll(x))| + 2
    ensures var r := FsPath(Under(Under("0", "user"), x), max, vols);
      && r == FsPath(Under(Volume(front, number), x), max, vols) == Fs("/" + Strip(LowerAll(x)))
      && |r.path| <= |Under(Under("0", "user"), x)| && |r.path| <= |Under(Volume(front, number), x)|
  {
    UserPath(x, max, vols);
    PartitionPath(front, dev, number, x, max, vols);
  }

  /** For other resources the result can be longer than the input. */
  lemma ContentPathGrows(path: string, vols: Volumes)
    requires path == Join(["0", "system", "x"])
    ensures FsPath(path, MAX_PATH, vols) == Fs("/" + path)
  {
    var cs := ["0", "system", "x"];
    assert "system"[0] != '.' && "x"[0] != '.';
    assert ValidComponent("system") && ValidComponent("x");
    SpelledNormal(cs);
    assert cs[2..] == ["x"] && Expansion("system") == ["system"];
    assert ["0"] + ["system"] + ["x"] == cs;
    assert cs[1..][1..] == ["x"];
    assert path == "0" + "/" + ("system" + "/" + "x");
    ResolveAs(path, cs, vols.owner);
  }

  /** By how much expansion lengthens a path with these components. */
  function Growth(cs: seq<string>): int {
    |Join(Expanded(cs))| - |Join(cs)|
  }

  /** Only an alias grows: 0/hmr by 16 characters, the other two by 17. */
  lemma GrowthOf(cs: seq<string>)
    ensures Growth(cs) ==
      if |cs| >= 2 && cs[0] == "0" && cs[1] == "hmr" then 16
      else if |cs| >= 2 && cs[0] == "0" && (cs[1] == "hsh" || cs[1] == "hss") then 17
      else 0
  {
    if |cs| >= 2 && cs[0] == "0" {
      var x, t := Expansion(cs[1]), cs[2..];
      assert cs == ["0", cs[1]] + t && Expanded(cs) == (["0"] + x) + t;
      JoinLengths(["0", cs[1]], t);
      JoinLengths(["0"] + x, t);
      JoinLengths(["0"], x);
      JoinLengths(["0"], [cs[1]]);
      assert ["0", cs[1]] == ["0"] + [cs[1]];
      if |x| == 3 {
        assert x == [x[0]] + [x[1], x[2]] && [x[1], x[2]] == [x[1]] + [x[2]];
        JoinLengths([x[0]], [x[1], x[2]]);
        JoinLengths([x[1]], [x[2]]);
      }
    }
  }

  lemma {:induction false} JoinLengths(a: seq<string>, t: seq<string>)
    requires a != []
    ensures |Join(a + t)| == |Join(a)| + if t == [] then 0 else 1 + |Join(t)|
  {
    if |a| == 1 {
      assert (a + t)[1..] == t;
    } else {
      assert (a + t)[1..] == a[1..] + t;
      JoinLengths(a[1..], t);
    }
  }

  /**
   For namespace content the result is no longer than the input exactly when the trailing slashes of the
   input make up for the slash in front and the growth of an alias.
   */
  lemma ContentPathLength(input: string, max: nat, vols: Volumes)
    requires Resolve(input, vols.owner).Resolved? && Content(Resolve(input, vols.owner).resource.kind)
    requires FsPath(input, max, vols).Fs?
    ensures var n := Strip(LowerAll(input));
      |FsPath(input, max, vols).path| <= |input| <==> |n| + Growth(Split(n)) + 1 <= |input|
  {
    ContentTail(Resolve(input, vols.owner), max, vols);
    ResolvedLength(input, vols.owner);
  }

  lemma ResolvedLength(input: string, owner: Option<string>)
    requires Resolve(input, owner).Resolved?
    ensures var n := Strip(LowerAll(input)); |Resolve(input, owner).canonical| == |n| + Growth(Split(n))
  {
    JoinSplit(Strip(LowerAll(input)));
  }

  lemma ContentTail(res: Resolution, max: nat, vols: Volumes)
    requires res.Resolved? && Content(res.resource.kind) && FsOf(res, max, vols).Fs?
    ensures FsOf(res, max, vols) == Fs("/" + res.canonical)
  {
  }

  // ---------- the namespace is a tree ----------

  /** A resource whose whole subtree belongs to it. */
  predicate Subtree(k: Kind) {
    k == SystemNode || k == DevShim || k == UserStore || k == Partition
  }

  /** A node exists only below nodes that exist. */
  lemma NamedParent(cs: seq<string>, t: seq<string>, owner: Option<string>)
    requires |cs| >= 1 && cs[0] != [] && Named(cs + t, owner).kind != Unresolved
    ensures Named(cs, owner).kind != Unresolved
  {
    assert forall i :: 0 <= i < |cs| ==> (cs + t)[i] == cs[i];
  }

  lemma NamedBelow(cs: seq<string>, t: seq<string>, owner: Option<string>)
    requires |cs| >= 1 && cs[0] != [] && Subtree(Named(cs, owner).kind)
    ensures Named(cs + t, owner) == Named(cs, owner)
  {
    assert forall i :: 0 <= i < |cs| ==> (cs + t)[i] == cs[i];
  }

  lemma GrowthBelow(a: seq<string>, t: seq<string>)
    requires a != []
    ensures Growth(a) <= Growth(a + t)
  {
    GrowthOf(a);
    GrowthOf(a + t);
  }

  lemma FirstBelow(a: seq<string>, t: seq<string>) returns (r: seq<string>)
    requires |a| >= 2
    ensures First(Expanded(a + t), MAX_DEPTH) == First(Expanded(a), MAX_DEPTH) + r
  {
    ExpandedConcat(a, t);
    r := First(Expanded(a) + t, MAX_DEPTH)[|First(Expanded(a), MAX_DEPTH)|..];
  }

  /** The components of a clean path and of a path below it. */
  lemma SplitBelow(s: string, x: string) returns (t: seq<string>)
    requires Clean(s) && (x == [] || x[0] == '/')
    ensures Strip(LowerAll(s)) == s && s <= Strip(LowerAll(s + x))
    ensures Split(Strip(LowerAll(s + x))) == Split(s) + t
  {
    var y := Strip(LowerAll(x));
    NormalSuffix(s, x);
    CleanIsNormal(s);
    SplitSuffix(s, y);
    t := Split(y)[1..];
  }

  lemma CanonicalOfAbove(s: string, n: string, t: seq<string>)
    requires s != [] && s <= n && Split(n) == Split(s) + t && CanonicalOf(n, MAX_PATH).Some?
    ensures CanonicalOf(s, MAX_PATH).Some?
  {
    SpelledConcat(Split(s), t);
    JoinSplit(s);
    JoinSplit(n);
    GrowthBelow(Split(s), t);
  }

  /** The resource of a valid path by its components. */
  lemma ResourceOf(path: string, cs: seq<string>, owner: Option<string>)
    requires Canonical(path, MAX_PATH).Some? && cs == Split(Strip(LowerAll(path)))
    ensures var first := First(Expanded(cs), MAX_DEPTH);
      && first != [] && first[0] != [] && Resolve(path, owner).Resolved?
      && Resolve(path, owner).resource == Named(first, owner)
  {
    ResolveAs(path, Expanded(cs), owner);
  }

  /** What a path and a path below it resolve to, by components; a single component is a machine root. */
  lemma ResolveBelow(s: string, x: string, owner: Option<string>) returns (p: seq<string>, t: seq<string>)
    requires Clean(s) && (x == [] || x[0] == '/') && Canonical(s + x, MAX_PATH).Some?
    ensures p != [] && p[0] != [] && Resolve(s, owner).Resolved? && Resolve(s, owner).resource == Named(p, owner)
    ensures |p| > 1 ==> Resolve(s + x, owner).Resolved? && Resolve(s + x, owner).resource == Named(p + t, owner)
  {
    t := SplitBelow(s, x);
    CanonicalOfAbove(s, Strip(LowerAll(s + x)), t);
    ResourceOf(s, Split(s), owner);
    ResourceOf(s + x, Split(s) + t, owner);
    p := First(Expanded(Split(s)), MAX_DEPTH);
    if |Split(s)| >= 2 {
      t := FirstBelow(Split(s), t);
    }
  }

  /** Behind a text, a suffix that starts a new component is stripped alone unless nothing of it is left. */
  lemma {:induction false} StripBehind(a: string, b: string)
    requires b == [] || b[0] == '/'
    ensures Strip(a + b) == if Strip(b) == [] then Strip(a) else a + Strip(b)
    decreases |b|
  {
    if b == [] {
      assert a + b == a;
    } else if b[|b| - 1] == '/' {
      StripBehind(a, b[..|b| - 1]);
      assert (a + b)[..|a + b| - 1] == a + b[..|b| - 1];
    }
  }

  /** A text that is empty or ends in a slash has an empty component where something follows it. */
  lemma EmptyComponent(a: string, y: string)
    requires y != [] && y[0] == '/' && (a == [] || a[|a| - 1] == '/')
    ensures !Spelled(Split(a + y))
  {
    SplitSuffix(a, y);
    if a != [] {
      var n := |a| - 1;
      assert a == a[..n] + "/";
      SplitSuffix(a[..n], "/");
      assert "/"[1..] == [];
      assert Split("/") == [[], []];
      assert Split(a)[|Split(a[..n])|] == [];
      assert Split(a + y)[|Split(a[..n])|] == [];
    }
  }

  /** The two parts of a spelled path are stripped one by one. */
  lemma StripParts(a: string, b: string)
    requires (b == [] || b[0] == '/') && Spelled(Split(Strip(a + b)))
    ensures Strip(a) != [] && Strip(a + b) == Strip(a) + Strip(b)
  {
    StripBehind(a, b);
    if Strip(b) == [] {
      assert Strip(a) + Strip(b) == Strip(a);
      assert Split([]) == [[]];
    } else if a == [] || a[|a| - 1] == '/' {
      EmptyComponent(a, Strip(b));
    }
  }

  lemma StripClean(s: string)
    requires Strip(LowerAll(s)) != []
    ensures Clean(Strip(LowerAll(s)))
  {
    var c := Strip(LowerAll(s));
    assert forall i :: 0 <= i < |c| ==> c[i] == Lower(s[i]);
  }

  /** The two parts of a valid path, normalised, are the parts of the normalised path. */
  lemma NormalParts(s: string, x: string) returns (c: string, y: string)
    requires (x == [] || x[0] == '/') && Canonical(s + x, MAX_PATH).Some?
    ensures c == Strip(LowerAll(s)) && Clean(c) && (y == [] || y[0] == '/') && |c + y| <= |s + x|
    ensures Strip(LowerAll(s + x)) == c + y
  {
    c, y := Strip(LowerAll(s)), Strip(LowerAll(x));
    LowerConcat(s, x);
    StripParts(LowerAll(s), LowerAll(x));
    StripClean(s);
  }

  /** What a path resolves to depends on its normal form only. */
  lemma SameNormal(p: string, q: string, owner: Option<string>)
    requires |p| < MAX_PATH && |q| < MAX_PATH && Strip(LowerAll(p)) == Strip(LowerAll(q))
    ensures Canonical(p, MAX_PATH) == Canonical(q, MAX_PATH) && Resolve(p, owner) == Resolve(q, owner)
  {
  }

  /** A normal form is its own normal form. */
  lemma NormalAgain(n: string, p: string)
    requires n == Strip(LowerAll(p))
    ensures Strip(LowerAll(n)) == n
  {
    assert forall i :: 0 <= i < |n| ==> Lower(n[i]) == n[i];
    assert LowerAll(n) == n;
  }

  /** Both parts of a path may be replaced by their normal forms. */
  lemma NormalPartsResolve(s: string, x: string, owner: Option<string>) returns (c: string, y: string)
    requires (x == [] || x[0] == '/') && Canonical(s + x, MAX_PATH).Some?
    ensures Clean(c) && (y == [] || y[0] == '/') && Canonical(c + y, MAX_PATH).Some?
    ensures Resolve(s, owner) == Resolve(c, owner) && Resolve(s + x, owner) == Resolve(c + y, owner)
  {
    c, y := NormalParts(s, x);
    CleanIsNormal(c);
    NormalAgain(c + y, s + x);
    SameNormal(s, c, owner);
    SameNormal(s + x, c + y, owner);
  }

  /** If a path resolves, so does every path above it. */
  lemma ParentResolves(s: string, x: string, owner: Option<string>)
    requires x == [] || x[0] == '/'
    requires Resolve(s + x, owner).Resolved? && Resolve(s + x, owner).resource.kind != Unresolved
    ensures Resolve(s, owner).Resolved? && Resolve(s, owner).resource.kind != Unresolved
  {
    var c, y := NormalPartsResolve(s, x, owner);
    var p, t := ResolveBelow(c, y, owner);
    if |p| > 1 {
      NamedParent(p, t, owner);
    }
  }

  /** Below a volume, a user store or namespace content every valid path is the same resource. */
  lemma BelowResolves(s: string, x: string, owner: Option<string>)
    requires (x == [] || x[0] == '/') && Canonical(s + x, MAX_PATH).Some?
    requires Resolve(s, owner).Resolved? && Subtree(Resolve(s, owner).resource.kind)
    ensures Resolve(s + x, owner).Resolved? && Resolve(s + x, owner).resource == Resolve(s, owner).resource
  {
    var c, y := NormalPartsResolve(s, x, owner);
    var p, t := ResolveBelow(c, y, owner);
    NamedBelow(p, t, owner);
  }
}
