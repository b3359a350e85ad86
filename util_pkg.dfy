/**
 * Package version checking (util_pkg): version strings split into tagged
 * components, and requirement specs such as "numpy>=1.20.0" checked against
 * the installed version.
 */
module UtilPkg {
  import opened Wrappers
  import opened PyCompare

  // ---------------------------------------------------------------------
  // Components and their order

  /** A version component: the pair (0, int) for an all-digit piece, (1, str) otherwise. */
  datatype Comp = Num(n: nat) | Str(s: string)

  /** The first element of the pair. */
  function Tag(c: Comp): int {
    if c.Num? then 0 else 1
  }

  /** Python compares characters by code point. */
  function CharOp(op: Op, c: char, d: char): bool {
    IntOp(op, c as int, d as int)
  }

  function CharLess(c: char, d: char): bool {
    c < d
  }

  /** Python's comparison of two strings. */
  function StrOp(op: Op, s: string, t: string): bool {
    SeqOp(op, s, t, CharOp)
  }

  /**
   * Python's comparison of two pairs (tag, value). Different tags decide by
   * the tags; equal tags mean values of one kind, compared as ints or as
   * strings, so an int is never compared with a string.
   */
  function CompOp(op: Op, a: Comp, b: Comp): (r: bool)
    ensures r == Decide(op, CompLess(a, b), a == b, CompLess(b, a))
  {
    match (a, b)
    case (Num(x), Num(y)) => IntOp(op, x, y)
    case (Str(s), Str(t)) =>
      CharOrder();
      SeqOpDecides(op, s, t, CharOp, CharLess);
      StrOp(op, s, t)
    case _ => IntOp(op, Tag(a), Tag(b))
  }

  /** The intended order of components: numbers by value, then strings lexicographically. */
  function CompLess(a: Comp, b: Comp): bool {
    match (a, b)
    case (Num(x), Num(y)) => x < y
    case (Str(s), Str(t)) => LexLess(s, t, CharLess)
    case (Num(_), Str(_)) => true
    case (Str(_), Num(_)) => false
  }

  /** Python's comparison of two parsed versions (tuples of pairs). */
  function VersionOp(op: Op, a: seq<Comp>, b: seq<Comp>): (r: bool)
    ensures r == Decide(op, VersionLess(a, b), a == b, VersionLess(b, a))
  {
    CompAgrees();
    SeqOpDecides(op, a, b, CompOp, CompLess);
    SeqOp(op, a, b, CompOp)
  }

  /** The intended order of versions: lexicographic on components, a proper prefix first. */
  function VersionLess(a: seq<Comp>, b: seq<Comp>): bool {
    LexLess(a, b, CompLess)
  }

  lemma CharOrder()
    ensures StrictTotalOrder(CharLess) && Agrees(CharOp, CharLess)
  {
  }

  /** Comparing the (tag, value) pairs answers every operator as the component order dictates. */
  lemma CompAgrees()
    ensures Agrees(CompOp, CompLess)
  {
  }

  lemma CompOrder()
    ensures StrictTotalOrder(CompLess)
  {
    CharOrder();
    forall a ensures !CompLess(a, a) {
      if a.Str? {
        LexIrreflexive(a.s, CharLess);
      }
    }
    forall a, b, c | CompLess(a, b) && CompLess(b, c) ensures CompLess(a, c) {
      if a.Str? && b.Str? && c.Str? {
        LexTransitive(a.s, b.s, c.s, CharLess);
      }
    }
    forall a, b | a != b ensures CompLess(a, b) || CompLess(b, a) {
      if a.Str? && b.Str? {
        LexConnected(a.s, b.s, CharLess);
      }
    }
  }

  /** Exactly one of a < b, a == b, b < a holds. */
  lemma VersionTrichotomy(a: seq<Comp>, b: seq<Comp>)
    ensures VersionLess(a, b) || a == b || VersionLess(b, a)
    ensures !(VersionLess(a, b) && VersionLess(b, a))
    ensures !(VersionLess(a, b) && a == b)
  {
    CompOrder();
    if a != b {
      LexConnected(a, b, CompLess);
    }
    if VersionLess(a, b) && VersionLess(b, a) {
      LexTransitive(a, b, a, CompLess);
      LexIrreflexive(a, CompLess);
    }
    LexIrreflexive(a, CompLess);
  }

  lemma VersionLessTransitive(a: seq<Comp>, b: seq<Comp>, c: seq<Comp>)
    requires VersionLess(a, b) && VersionLess(b, c)
    ensures VersionLess(a, c)
  {
    CompOrder();
    LexTransitive(a, b, c, CompLess);
  }

  /** >= is the negation of <, <= of >, != of ==, and > is < with the operands swapped. */
  lemma ComplementaryOperators(a: seq<Comp>, b: seq<Comp>)
    ensures VersionOp(Ge, a, b) == !VersionOp(Lt, a, b)
    ensures VersionOp(Le, a, b) == !VersionOp(Gt, a, b)
    ensures VersionOp(Ne, a, b) == !VersionOp(Eq, a, b)
    ensures VersionOp(Gt, a, b) == VersionOp(Lt, b, a)
    ensures VersionOp(Eq, a, b) == (a == b)
  {
    VersionTrichotomy(a, b);
  }

  /** After a common prefix, a numeric component orders before a string component. */
  lemma NumbersBeforeStrings(p: seq<Comp>, n: nat, s: string, x: seq<Comp>, y: seq<Comp>)
    ensures VersionOp(Lt, p + [Num(n)] + x, p + [Str(s)] + y)
  {
    assert p + [Num(n)] + x == p + ([Num(n)] + x);
    assert p + [Str(s)] + y == p + ([Str(s)] + y);
    LexAfterPrefix(p, [Num(n)] + x, [Str(s)] + y, CompLess);
  }

  /** After a common prefix, the first differing components decide every operator but == and !=. */
  lemma {:induction false} FirstDifferenceDecides(op: Op, p: seq<Comp>, a: Comp, b: Comp, x: seq<Comp>, y: seq<Comp>)
    requires a != b
    ensures VersionOp(op, p + [a] + x, p + [b] + y) == (if op == Eq then false else if op == Ne then true else CompOp(op, a, b))
    decreases |p|
  {
    var u, v := p + [a] + x, p + [b] + y;
    if p == [] {
      assert u == [a] + x && v == [b] + y;
      assert u[0] == a && v[0] == b;
    } else {
      assert u[0] == v[0] == p[0];
      assert u[1..] == p[1..] + [a] + x && v[1..] == p[1..] + [b] + y;
      FirstDifferenceDecides(op, p[1..], a, b, x, y);
    }
  }

  /** A version that properly extends another compares greater. */
  lemma LongerIsGreater(a: seq<Comp>, x: seq<Comp>)
    requires x != []
    ensures VersionOp(Gt, a + x, a) && !VersionOp(Eq, a + x, a)
  {
    LexPrefixLess(a, x, CompLess);
    assert |a + x| != |a|;
  }

  // ---------------------------------------------------------------------
  // Parsing a version string

  predicate IsSeparator(c: char) {
    c == '.' || c == '-'
  }

  predicate NoSeparator(p: string) {
    forall i :: 0 <= i < |p| ==> !IsSeparator(p[i])
  }

  /** The pieces between separators, '.' and '-' alike; empty pieces included. */
  function SplitVersion(s: string): (parts: seq<string>)
    ensures |parts| >= 1
    decreases |s|
  {
    if s == [] then [""]
    else
      var rest := SplitVersion(s[1..]);
      if IsSeparator(s[0]) then [""] + rest
      else [[s[0]] + rest[0]] + rest[1..]
  }

  /** No piece contains a separator. */
  lemma {:induction false} SplitPieces(s: string)
    ensures forall p <- SplitVersion(s) :: NoSeparator(p)
    decreases |s|
  {
    if s != [] {
      var rest := SplitVersion(s[1..]);
      SplitPieces(s[1..]);
      if !IsSeparator(s[0]) {
        assert rest[0] in rest;
        assert forall i :: 1 <= i < |rest[0]| + 1 ==> ([s[0]] + rest[0])[i] == rest[0][i - 1];
        assert NoSeparator([s[0]] + rest[0]);
      }
    }
  }

  /** The pieces joined with '.'. */
  function JoinDots(parts: seq<string>): string
    requires |parts| >= 1
    decreases |parts|
  {
    if |parts| == 1 then parts[0] else parts[0] + "." + JoinDots(parts[1..])
  }

  /** s with every '-' written as '.'. */
  function Dotted(s: string): (d: string)
    ensures |d| == |s|
    decreases |s|
  {
    if s == [] then [] else [if s[0] == '-' then '.' else s[0]] + Dotted(s[1..])
  }

  predicate IsDigit(c: char) {
    '0' <= c <= '9'
  }

  /** Python's str.isdigit, over ASCII digits: non-empty and all digits. */
  predicate IsDigits(p: string) {
    p != [] && forall i :: 0 <= i < |p| ==> IsDigit(p[i])
  }

  /** Python's int of a string of digits (leading zeros allowed). */
  function DigitsValue(p: string): nat
    requires forall i :: 0 <= i < |p| ==> IsDigit(p[i])
    decreases |p|
  {
    if p == [] then 0
    else
      assert IsDigit(p[|p| - 1]);
      DigitsValue(p[..|p| - 1]) * 10 + (p[|p| - 1] as int - '0' as int)
  }

  function DigitChar(d: nat): (c: char)
    requires d < 10
    ensures IsDigit(c) && c as int - '0' as int == d
  {
    ('0' as int + d) as char
  }

  /** Python's str of a natural number: its decimal digits, which int reads back. */
  function Decimal(n: nat): (s: string)
    ensures IsDigits(s) && DigitsValue(s) == n
    decreases n
  {
    if n < 10 then [DigitChar(n)]
    else
      var prefix, last := Decimal(n / 10), DigitChar(n % 10);
      assert (prefix + [last])[..|prefix|] == prefix;
      prefix + [last]
  }

  /** (0, int(p)) when p is all digits, (1, p) otherwise. */
  function TagComponent(p: string): (c: Comp)
    ensures c.Num? <==> IsDigits(p)
    ensures c.Num? ==> c.n == DigitsValue(p)
    ensures c.Str? ==> c.s == p
  {
    if IsDigits(p) then Num(DigitsValue(p)) else Str(p)
  }

  /** A string component holds a piece that is neither numeric nor split further. */
  predicate WellFormedComp(c: Comp) {
    c.Str? ==> NoSeparator(c.s) && !IsDigits(c.s)
  }

  predicate WellFormedVersion(v: seq<Comp>) {
    |v| >= 1 && forall i :: 0 <= i < |v| ==> WellFormedComp(v[i])
  }

  /** Each piece tagged, in order. */
  function TagAll(parts: seq<string>): (v: seq<Comp>)
    ensures |v| == |parts|
  {
    if parts == [] then [] else [TagComponent(parts[0])] + TagAll(parts[1..])
  }

  /** The tagged components of a version string: one per piece, so never none. */
  function ParseVersion(s: string): (v: seq<Comp>)
    ensures |v| == |SplitVersion(s)| && |v| >= 1
  {
    TagAll(SplitVersion(s))
  }

  /** Component i of a parsed version is piece i, tagged. */
  lemma ParseVersionComponents(s: string)
    ensures forall i :: 0 <= i < |ParseVersion(s)| ==> ParseVersion(s)[i] == TagComponent(SplitVersion(s)[i])
  {
    forall i | 0 <= i < |ParseVersion(s)| ensures ParseVersion(s)[i] == TagComponent(SplitVersion(s)[i]) {
      TagAllAt(SplitVersion(s), i);
    }
  }

  lemma {:induction false} TagAllAt(parts: seq<string>, i: nat)
    requires i < |parts|
    ensures TagAll(parts)[i] == TagComponent(parts[i])
  {
    if i > 0 {
      TagAllAt(parts[1..], i - 1);
    }
  }

  lemma {:induction false} TagAllAppend(p: seq<string>, q: seq<string>)
    ensures TagAll(p + q) == TagAll(p) + TagAll(q)
  {
    if p != [] {
      assert (p + q)[0] == p[0] && (p + q)[1..] == p[1..] + q;
      TagAllAppend(p[1..], q);
    } else {
      assert p + q == q;
    }
  }

  /** Every parsed version is well formed, and so is written out and parsed back unchanged. */
  lemma ParseVersionWellFormed(s: string)
    ensures WellFormedVersion(ParseVersion(s))
    ensures ParseVersion(Render(ParseVersion(s))) == ParseVersion(s)
  {
    var parts := SplitVersion(s);
    var v := ParseVersion(s);
    SplitPieces(s);
    forall i | 0 <= i < |v| ensures WellFormedComp(v[i]) {
      TagAllAt(parts, i);
      assert parts[i] in parts;
    }
    ParseRender(v);
  }

  function RenderComp(c: Comp): string {
    match c
    case Num(n) => Decimal(n)
    case Str(s) => s
  }

  function RenderAll(v: seq<Comp>): (parts: seq<string>)
    ensures |parts| == |v|
  {
    if v == [] then [] else [RenderComp(v[0])] + RenderAll(v[1..])
  }

  /** A version written out: components as text, joined with '.'. */
  function Render(v: seq<Comp>): string
    requires |v| >= 1
  {
    JoinDots(RenderAll(v))
  }

  /** Splitting a piece with no separator in front of s extends the first piece of s. */
  lemma {:induction false} SplitPrefix(w: string, s: string)
    requires NoSeparator(w)
    ensures SplitVersion(w + s) == [w + SplitVersion(s)[0]] + SplitVersion(s)[1..]
    decreases |w|
  {
    if w != [] {
      var S := SplitVersion(s);
      assert (w + s)[0] == w[0] && !IsSeparator(w[0]);
      assert (w + s)[1..] == w[1..] + s;
      SplitPrefix(w[1..], s);
      var R := SplitVersion(w[1..] + s);
      assert R[0] == w[1..] + S[0] && R[1..] == S[1..];
      assert SplitVersion(w + s) == [[w[0]] + R[0]] + R[1..];
      assert [w[0]] + (w[1..] + S[0]) == w + S[0];
    } else {
      var S := SplitVersion(s);
      assert w + s == s && w + S[0] == S[0];
      assert S == [S[0]] + S[1..];
    }
  }

  /** Splitting undoes joining with '.'. */
  lemma {:induction false} SplitOfJoin(parts: seq<string>)
    requires |parts| >= 1 && forall p <- parts :: NoSeparator(p)
    ensures SplitVersion(JoinDots(parts)) == parts
    decreases |parts|
  {
    if |parts| == 1 {
      SplitPrefix(parts[0], "");
      assert parts[0] + "" == parts[0];
    } else {
      var tail := JoinDots(parts[1..]);
      SplitOfJoin(parts[1..]);
      assert SplitVersion("." + tail) == [""] + parts[1..];
      assert parts[0] + "." + tail == parts[0] + ("." + tail);
      SplitPrefix(parts[0], "." + tail);
      assert parts[0] + "" == parts[0];
      assert parts == [parts[0]] + parts[1..];
    }
  }

  /** Joining the pieces with '.' gives back s, with every '-' written as '.'. */
  lemma {:induction false} JoinOfSplit(s: string)
    ensures JoinDots(SplitVersion(s)) == Dotted(s)
    decreases |s|
  {
    if s != [] {
      var rest := SplitVersion(s[1..]);
      JoinOfSplit(s[1..]);
      if !IsSeparator(s[0]) {
        var parts := [[s[0]] + rest[0]] + rest[1..];
        if |rest| > 1 {
          assert parts[1..] == rest[1..];
          assert JoinDots(rest) == rest[0] + "." + JoinDots(rest[1..]);
        }
      }
    }
  }

  /** A separator-free piece is a single component. */
  lemma ParseVersionPiece(w: string)
    requires NoSeparator(w)
    ensures ParseVersion(w) == [TagComponent(w)]
  {
    SplitPrefix(w, "");
    assert w + "" == w;
    assert SplitVersion(w) == [w];
  }

  /** SplitVersion on a string given by its first character and the rest. */
  lemma SplitCons(c: char, s: string)
    ensures SplitVersion([c] + s)
      == if IsSeparator(c) then [""] + SplitVersion(s) else [[c] + SplitVersion(s)[0]] + SplitVersion(s)[1..]
  {
    assert ([c] + s)[0] == c && ([c] + s)[1..] == s;
  }

  /** Splitting at a separator splits both sides independently. */
  lemma {:induction false} SplitAppend(s: string, sep: char, t: string)
    requires IsSeparator(sep)
    ensures SplitVersion(s + [sep] + t) == SplitVersion(s) + SplitVersion(t)
    decreases |s|
  {
    if s == [] {
      assert s + [sep] + t == [sep] + t;
      SplitCons(sep, t);
    } else {
      var c, r := s[0], s[1..];
      var u := r + [sep] + t;
      assert s + [sep] + t == [c] + u by {
        assert s == [c] + r;
      }
      SplitAppend(r, sep, t);
      SplitCons(c, u);
      assert SplitVersion(s) == SplitVersion([c] + r) by {
        assert s == [c] + r;
      }
      SplitCons(c, r);
    }
  }

  /** The components of two versions joined by a separator are those of each, in order. */
  lemma ParseVersionAppend(s: string, sep: char, t: string)
    requires IsSeparator(sep)
    ensures ParseVersion(s + [sep] + t) == ParseVersion(s) + ParseVersion(t)
  {
    SplitAppend(s, sep, t);
    TagAllAppend(SplitVersion(s), SplitVersion(t));
  }

  /** '.' and '-' are interchangeable: versions that differ only in which separator they use parse alike. */
  lemma SeparatorsInterchangeable(s: string, t: string)
    requires Dotted(s) == Dotted(t)
    ensures ParseVersion(s) == ParseVersion(t)
  {
    JoinOfSplit(s);
    JoinOfSplit(t);
    SplitPieces(s);
    SplitPieces(t);
    SplitOfJoin(SplitVersion(s));
    SplitOfJoin(SplitVersion(t));
  }

  /** Parsing undoes writing out, for every well-formed version. */
  lemma ParseRender(v: seq<Comp>)
    requires WellFormedVersion(v)
    ensures ParseVersion(Render(v)) == v
  {
    RenderTag(v);
    SplitOfJoin(RenderAll(v));
  }

  /** Written-out well-formed components are separator-free pieces that tag back to themselves. */
  lemma {:induction false} RenderTag(v: seq<Comp>)
    requires forall i :: 0 <= i < |v| ==> WellFormedComp(v[i])
    ensures forall p <- RenderAll(v) :: NoSeparator(p)
    ensures TagAll(RenderAll(v)) == v
  {
    if v != [] {
      RenderTag(v[1..]);
      assert WellFormedComp(v[0]);
      var p := RenderComp(v[0]);
      if v[0].Num? {
        assert IsDigits(p);
      }
      assert TagComponent(p) == v[0];
      assert RenderAll(v) == [p] + RenderAll(v[1..]);
    }
  }

  // ---------------------------------------------------------------------
  // Parsing a requirement spec

  /** The characters of [a-zA-Z0-9_-]. */
  predicate IsNameChar(c: char) {
    'a' <= c <= 'z' || 'A' <= c <= 'Z' || '0' <= c <= '9' || c == '_' || c == '-'
  }

  /** The length of the longest prefix of name characters. */
  function NameLength(s: string): (n: nat)
    ensures n <= |s|
    ensures forall i :: 0 <= i < n ==> IsNameChar(s[i])
    ensures n < |s| ==> !IsNameChar(s[n])
    decreases |s|
  {
    if s == [] || !IsNameChar(s[0]) then 0 else 1 + NameLength(s[1..])
  }

  function Token(op: Op): string {
    match op
    case Ge => ">="
    case Le => "<="
    case Gt => ">"
    case Lt => "<"
    case Eq => "=="
    case Ne => "!="
  }

  /** The operator alternation, in the order it is tried. */
  const Operators: seq<Op> := [Ge, Le, Gt, Lt, Eq, Ne]

  /**
   * What `(.+)$` matches at the start of s: at least one character other
   * than a newline, up to the end of s or up to a newline that ends s.
   */
  function MatchTail(s: string): (r: Option<string>)
    ensures r.Some? ==> r.value != [] && '\n' !in r.value && (s == r.value || s == r.value + "\n")
    ensures s != [] && '\n' !in s ==> r == Some(s)
  {
    if s != [] && '\n' !in s then Some(s)
    else if |s| >= 2 && s[|s| - 1] == '\n' && '\n' !in s[..|s| - 1] then
      assert s == s[..|s| - 1] + "\n";
      Some(s[..|s| - 1])
    else None
  }

  /** The tail after op, when rest starts with op's token and `(.+)$` accepts what follows. */
  function TryOperator(rest: string, op: Op): (r: Option<string>)
    ensures r.Some? ==>
      && r.value != [] && '\n' !in r.value
      && (rest == Token(op) + r.value || rest == Token(op) + r.value + "\n")
  {
    var token := Token(op);
    if |token| <= |rest| && rest[..|token|] == token then
      var tail := MatchTail(rest[|token|..]);
      if tail.Some? then
        assert rest == token + rest[|token|..];
        assert token + tail.value + "\n" == token + (tail.value + "\n");
        tail
      else None
    else None
  }

  /** op is an entry of ops that TryOperator accepts with every entry before it refused. */
  predicate FirstAccepted(rest: string, ops: seq<Op>, op: Op) {
    exists k :: 0 <= k < |ops| && ops[k] == op && TryOperator(rest, op).Some?
      && forall i :: 0 <= i < k ==> TryOperator(rest, ops[i]).None?
  }

  /** The first operator of ops, in order, that TryOperator accepts, with its tail. */
  function MatchOperator(rest: string, ops: seq<Op>): (r: Option<(Op, string)>)
    ensures r.Some? ==> r.value.0 in ops && TryOperator(rest, r.value.0) == Some(r.value.1)
    ensures r.None? ==> forall op <- ops :: TryOperator(rest, op).None?
    decreases |ops|
  {
    if ops == [] then None
    else
      match TryOperator(rest, ops[0])
      case Some(tail) => Some((ops[0], tail))
      case None =>
        var r := MatchOperator(rest, ops[1..]);
        assert forall op <- ops :: op == ops[0] || op in ops[1..];
        r
  }

  /** The operator matched is the first of ops, in order, that TryOperator accepts. */
  lemma {:induction false} MatchOperatorFirst(rest: string, ops: seq<Op>)
    ensures MatchOperator(rest, ops).Some? ==> FirstAccepted(rest, ops, MatchOperator(rest, ops).value.0)
    decreases |ops|
  {
    var r := MatchOperator(rest, ops);
    if ops != [] && r.Some? {
      if TryOperator(rest, ops[0]).Some? {
        assert ops[0] == r.value.0;
      } else {
        MatchOperatorFirst(rest, ops[1..]);
        var k :| 0 <= k < |ops[1..]| && ops[1..][k] == r.value.0 && TryOperator(rest, r.value.0).Some?
          && forall i :: 0 <= i < k ==> TryOperator(rest, ops[1..][i]).None?;
        forall i | 0 <= i < k + 1 ensures TryOperator(rest, ops[i]).None? {
          if i > 0 {
            assert ops[i] == ops[1..][i - 1];
          }
        }
        assert ops[k + 1] == r.value.0;
      }
    }
  }

  /** A parsed requirement: package name, operator, required version text. */
  datatype Spec = Spec(name: string, op: Op, version: string)

  /**
   * The groups of `^([a-zA-Z0-9_\-]+)(>=|<=|>|<|==|!=)(.+)$` in spec, if it
   * matches: the name is the longest run of name characters, and the
   * operators are tried in order until the rest is accepted.
   */
  function ParseSpec(spec: string): (r: Option<Spec>)
    ensures r.Some? ==>
      && r.value.name != [] && (forall i :: 0 <= i < |r.value.name| ==> IsNameChar(r.value.name[i]))
      && r.value.version != [] && '\n' !in r.value.version
      && (spec == r.value.name + Token(r.value.op) + r.value.version
          || spec == r.value.name + Token(r.value.op) + r.value.version + "\n")
  {
    var n := NameLength(spec);
    if n == 0 then None
    else
      match MatchOperator(spec[n..], Operators)
      case None => None
      case Some((op, version)) =>
        SplitAtName(spec, n, Token(op), version);
        Some(Spec(spec[..n], op, version))
  }

  /** spec is its first n characters followed by the rest, so a rest of token + version rebuilds spec. */
  lemma SplitAtName(spec: string, n: nat, token: string, version: string)
    requires n <= |spec|
    requires spec[n..] == token + version || spec[n..] == token + version + "\n"
    ensures spec == spec[..n] + token + version || spec == spec[..n] + token + version + "\n"
  {
    var name, rest := spec[..n], spec[n..];
    assert spec == name + rest;
    assert name + (token + version) == name + token + version;
    assert name + (token + version + "\n") == name + token + version + "\n";
  }

  /** The name of name + rest is name when rest does not start with a name character. */
  lemma {:induction false} NameLengthOf(name: string, rest: string)
    requires forall i :: 0 <= i < |name| ==> IsNameChar(name[i])
    requires rest != [] ==> !IsNameChar(rest[0])
    ensures NameLength(name + rest) == |name|
    decreases |name|
  {
    if name != [] {
      assert (name + rest)[1..] == name[1..] + rest;
      NameLengthOf(name[1..], rest);
    }
  }

  /** An operator that TryOperator accepts, with none accepted before it, is the one matched. */
  lemma {:induction false} MatchOperatorAt(rest: string, ops: seq<Op>, k: nat)
    requires k < |ops|
    requires forall i :: 0 <= i < k ==> TryOperator(rest, ops[i]).None?
    requires TryOperator(rest, ops[k]).Some?
    ensures MatchOperator(rest, ops) == Some((ops[k], TryOperator(rest, ops[k]).value))
    decreases k
  {
    if k > 0 {
      MatchOperatorAt(rest, ops[1..], k - 1);
    }
  }

  /** TryOperator accepts op's token followed by a newline-free, non-empty tail. */
  lemma TryOperatorAccepts(op: Op, version: string)
    requires version != [] && '\n' !in version
    ensures TryOperator(Token(op) + version, op) == Some(version)
  {
    var rest := Token(op) + version;
    assert rest[..|Token(op)|] == Token(op) && rest[|Token(op)|..] == version;
  }

  /** TryOperator refuses op when rest does not start with its token. */
  lemma TryOperatorRefuses(rest: string, op: Op)
    requires (rest != [] && rest[0] != Token(op)[0]) || (|rest| >= 2 && |Token(op)| == 2 && rest[1] != Token(op)[1])
    ensures TryOperator(rest, op).None?
  {
  }

  /** The operator match on the token of >=, <=, == or != followed by a newline-free version. */
  lemma MatchTwoCharOperator(op: Op, version: string)
    requires op in {Ge, Le, Eq, Ne}
    requires version != [] && '\n' !in version
    ensures MatchOperator(Token(op) + version, Operators) == Some((op, version))
  {
    var rest := Token(op) + version;
    TryOperatorAccepts(op, version);
    assert rest[0] == Token(op)[0];
    assert Operators == [Ge, Le, Gt, Lt, Eq, Ne];
    if op == Ge {
      MatchOperatorAt(rest, Operators, 0);
    } else if op == Le {
      TryOperatorRefuses(rest, Ge);
      MatchOperatorAt(rest, Operators, 1);
    } else {
      TryOperatorRefuses(rest, Ge);
      TryOperatorRefuses(rest, Le);
      TryOperatorRefuses(rest, Gt);
      TryOperatorRefuses(rest, Lt);
      if op == Eq {
        MatchOperatorAt(rest, Operators, 4);
      } else {
        TryOperatorRefuses(rest, Eq);
        MatchOperatorAt(rest, Operators, 5);
      }
    }
  }

  /**
   * The operator match on the token of > or < followed by a newline-free
   * version: the operator itself unless the version starts with '=', which
   * then may read as part of >= or <=.
   */
  lemma MatchOneCharOperator(op: Op, version: string)
    requires op == Gt || op == Lt
    requires version != [] && '\n' !in version
    ensures MatchOperator(Token(op) + version, Operators).Some?
    ensures version[0] != '=' ==> MatchOperator(Token(op) + version, Operators) == Some((op, version))
  {
    TryOperatorAccepts(op, version);
    assert Operators == [Ge, Le, Gt, Lt, Eq, Ne];
    if op == Gt {
      MatchGreater(version, Operators);
    } else {
      MatchLess(version, Operators);
    }
  }

  /** The case of MatchOneCharOperator for >: only >= is tried before it. */
  lemma MatchGreater(version: string, ops: seq<Op>)
    requires version != [] && '\n' !in version
    requires TryOperator(Token(Gt) + version, Gt) == Some(version)
    requires |ops| > 2 && ops[0] == Ge && ops[1] == Le && ops[2] == Gt
    ensures MatchOperator(Token(Gt) + version, ops).Some?
    ensures version[0] != '=' ==> MatchOperator(Token(Gt) + version, ops) == Some((Gt, version))
  {
    var rest := Token(Gt) + version;
    assert rest[0] == '>' && rest[1] == version[0];
    if version[0] == '=' && TryOperator(rest, Ge).Some? {
      MatchOperatorAt(rest, ops, 0);
    } else {
      if version[0] != '=' {
        TryOperatorRefuses(rest, Ge);
      }
      TryOperatorRefuses(rest, Le);
      MatchOperatorAt(rest, ops, 2);
    }
  }

  /** The case of MatchOneCharOperator for <: >= is refused and only <= is tried before it. */
  lemma MatchLess(version: string, ops: seq<Op>)
    requires version != [] && '\n' !in version
    requires TryOperator(Token(Lt) + version, Lt) == Some(version)
    requires |ops| > 3 && ops[0] == Ge && ops[1] == Le && ops[2] == Gt && ops[3] == Lt
    ensures MatchOperator(Token(Lt) + version, ops).Some?
    ensures version[0] != '=' ==> MatchOperator(Token(Lt) + version, ops) == Some((Lt, version))
  {
    var rest := Token(Lt) + version;
    assert rest[0] == '<' && rest[1] == version[0];
    TryOperatorRefuses(rest, Ge);
    if version[0] == '=' && TryOperator(rest, Le).Some? {
      MatchOperatorAt(rest, ops, 1);
    } else {
      if version[0] != '=' {
        TryOperatorRefuses(rest, Le);
      }
      TryOperatorRefuses(rest, Gt);
      MatchOperatorAt(rest, ops, 3);
    }
  }

  /**
   * Every name, operator and newline-free version form a spec that parses;
   * it parses back to the same three parts unless the version starts with '='
   * (then "a>" + "=1" reads as "a" ">=" "1").
   */
  lemma ParseSpecComplete(name: string, op: Op, version: string)
    requires name != [] && forall i :: 0 <= i < |name| ==> IsNameChar(name[i])
    requires version != [] && '\n' !in version
    ensures ParseSpec(name + Token(op) + version).Some?
    ensures version[0] != '=' ==> ParseSpec(name + Token(op) + version) == Some(Spec(name, op, version))
  {
    var rest := Token(op) + version;
    var spec := name + rest;
    assert spec == name + Token(op) + version;
    assert rest[0] == Token(op)[0];
    NameLengthOf(name, rest);
    assert spec[|name|..] == rest && spec[..|name|] == name;
    if op == Gt || op == Lt {
      MatchOneCharOperator(op, version);
    } else {
      MatchTwoCharOperator(op, version);
    }
  }

  /** No operator token can start rest. */
  predicate NoOperatorAhead(rest: string) {
    rest == [] || (rest[0] != '>' && rest[0] != '<' && rest[0] != '=' && rest[0] != '!')
  }

  /**
   * A spec is refused when it has no name, or when the run of name
   * characters is followed by anything but an operator token.
   */
  lemma ParseSpecRefuses(name: string, rest: string)
    requires forall i :: 0 <= i < |name| ==> IsNameChar(name[i])
    requires rest != [] ==> !IsNameChar(rest[0])
    requires name == [] || NoOperatorAhead(rest)
    ensures ParseSpec(name + rest).None?
  {
    NameLengthOf(name, rest);
    var spec := name + rest;
    if name != [] {
      assert spec[|name|..] == rest;
      forall op ensures TryOperator(rest, op).None? {
        if rest != [] {
          TryOperatorRefuses(rest, op);
        }
      }
    }
  }

  /** ">" is tried before ">=" can fail: name followed by ">=" alone reads as name > "=". */
  lemma GreaterThanEquals(name: string)
    requires name != [] && forall i :: 0 <= i < |name| ==> IsNameChar(name[i])
    ensures ParseSpec(name + ">=") == Some(Spec(name, Gt, "="))
  {
    var rest := ">=";
    assert MatchOperator(rest, Operators) == Some((Gt, "=")) by {
      assert TryOperator(rest, Ge).None? by {
        assert rest[|Token(Ge)|..] == "";
      }
      TryOperatorRefuses(rest, Le);
      TryOperatorAccepts(Gt, "=");
      assert Operators == [Ge, Le, Gt, Lt, Eq, Ne];
      MatchOperatorAt(rest, Operators, 2);
    }
    NameLengthOf(name, rest);
    assert (name + rest)[|name|..] == rest && (name + rest)[..|name|] == name;
  }

  // ---------------------------------------------------------------------
  // Checking a requirement

  datatype VersionError = ValueError(spec: string) | PackageNotFoundError(name: string)

  /**
   * Whether the installed version of the named package satisfies spec.
   * installedVersion stands for the package metadata lookup: None when the
   * package is not installed.
   */
  function CheckVersion(spec: string, installedVersion: string -> Option<string>): (r: Result<bool, VersionError>)
    ensures ParseSpec(spec).None? <==> r == Failure(ValueError(spec))
    ensures ParseSpec(spec).Some? ==>
      var sp := ParseSpec(spec).value;
      match installedVersion(sp.name)
      case None => r == Failure(PackageNotFoundError(sp.name))
      case Some(v) =>
        var installed, required := ParseVersion(v), ParseVersion(sp.version);
        r == Success(Decide(sp.op, VersionLess(installed, required), installed == required, VersionLess(required, installed)))
  {
    match ParseSpec(spec)
    case None => Failure(ValueError(spec))
    case Some(sp) =>
      var required := ParseVersion(sp.version);
      match installedVersion(sp.name)
      case None => Failure(PackageNotFoundError(sp.name))
      case Some(v) =>
        var installed := ParseVersion(v);
        Success(VersionOp(sp.op, installed, required))
  }
}
