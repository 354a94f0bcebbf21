/** What a format string means: literals and placeholders. */
module FormatSpec {
  import opened Wrappers

  // ---------------------------------------------------------------- text and groups

  /** A piece of a format: text copied as it is, or a brace pair with no brace inside. */
  datatype Segment = Lit(text: string) | Group(body: string)

  /** No opening brace comes before a closing one within the first `b` characters. */
  ghost predicate NoGroupBefore(t: string, b: nat) {
    forall i, k | 0 <= i < k < b && k < |t| :: t[i] == '{' ==> t[k] != '}'
  }

  ghost predicate NoGroup(t: string) {
    NoGroupBefore(t, |t|)
  }

  ghost predicate BraceFree(t: string) {
    forall i | 0 <= i < |t| :: t[i] != '{' && t[i] != '}'
  }

  /** The last opening brace. */
  function LastOpen(t: string): (r: Option<nat>)
    ensures r.Some? ==> r.value < |t| && t[r.value] == '{' && forall i | r.value < i < |t| :: t[i] != '{'
    ensures r.None? ==> forall i | 0 <= i < |t| :: t[i] != '{'
  {
    if t == [] then None
    else if t[|t| - 1] == '{' then Some(|t| - 1)
    else LastOpen(t[..|t| - 1])
  }

  /** The innermost brace pair that closes first: its opening and closing positions. */
  function FirstGroup(t: string): Option<(nat, nat)> {
    if t == [] then None
    else
      var u := t[..|t| - 1];
      var r := FirstGroup(u);
      if r.Some? then r
      else if t[|t| - 1] == '}' && LastOpen(u).Some? then Some((LastOpen(u).value, |u|))
      else None
  }

  ghost predicate IsFirstGroup(t: string, j: nat, b: nat) {
    && j < b < |t| && t[j] == '{' && t[b] == '}'
    && (forall i | j < i < b :: t[i] != '{' && t[i] != '}')
    && NoGroupBefore(t, b)
  }

  lemma {:induction false} FirstGroupIs(t: string)
    ensures FirstGroup(t).Some? ==> IsFirstGroup(t, FirstGroup(t).value.0, FirstGroup(t).value.1)
    ensures FirstGroup(t).None? <==> NoGroup(t)
  {
    if t != [] {
      var u := t[..|t| - 1];
      FirstGroupIs(u);
      assert forall i | 0 <= i < |u| :: u[i] == t[i];
    }
  }

  lemma {:induction false} FirstGroupUnique(t: string, j: nat, b: nat)
    requires IsFirstGroup(t, j, b)
    ensures FirstGroup(t) == Some((j, b))
  {
    FirstGroupIs(t);
  }

  /** The format as literals and groups. */
  function Parse(t: string): seq<Segment>
    decreases |t|
  {
    var g := FirstGroup(t);
    if g.Some? && g.value.0 < g.value.1 < |t| then
      [Lit(t[..g.value.0]), Group(t[g.value.0 + 1..g.value.1])] + Parse(t[g.value.1 + 1..])
    else [Lit(t)]
  }

  function Unparse(segs: seq<Segment>): string {
    if segs == [] then ""
    else (if segs[0].Lit? then segs[0].text else "{" + segs[0].body + "}") + Unparse(segs[1..])
  }

  /** A way of cutting a format up that leaves no placeholder hidden in the literals. */
  ghost predicate Canonical(segs: seq<Segment>) {
    && (forall i | 0 <= i < |segs| :: if segs[i].Lit? then NoGroup(segs[i].text) else BraceFree(segs[i].body))
    && (forall i | 0 <= i < |segs| - 1 :: segs[i].Lit? ==> segs[i + 1].Group?)
  }

  /** Every format has such a cut. */
  lemma {:induction false} ParseCanonical(t: string)
    ensures Canonical(Parse(t)) && Unparse(Parse(t)) == t
    decreases |t|
  {
    hide Canonical, Unparse, NoGroup, BraceFree, NoGroupBefore, FirstGroup, Parse;
    FirstGroupIs(t);
    var g := FirstGroup(t);
    if g.Some? {
      var (j, b) := g.value;
      ParseGroup(t, j, b);
      ParseCanonical(t[b + 1..]);
      AroundGroup(t, j, b);
      ConsCanonical(t[..j], t[j + 1..b], Parse(t[b + 1..]));
    } else {
      ParsePlain(t);
      OneLiteral(t);
    }
  }

  lemma {:induction false} ParseGroup(t: string, j: nat, b: nat)
    requires FirstGroup(t) == Some((j, b)) && j < b < |t|
    ensures Parse(t) == [Lit(t[..j]), Group(t[j + 1..b])] + Parse(t[b + 1..])
  {
    hide FirstGroup;
  }

  lemma {:induction false} ParsePlain(t: string)
    requires FirstGroup(t).None?
    ensures Parse(t) == [Lit(t)]
  {
  }

  lemma AroundGroup(t: string, j: nat, b: nat)
    requires IsFirstGroup(t, j, b)
    ensures NoGroup(t[..j]) && BraceFree(t[j + 1..b])
    ensures t == t[..j] + ("{" + t[j + 1..b] + "}" + t[b + 1..])
  {
  }

  lemma OneLiteral(t: string)
    requires NoGroup(t)
    ensures Canonical([Lit(t)]) && Unparse([Lit(t)]) == t
  {
    assert Unparse([Lit(t)]) == t + Unparse([]);
  }

  lemma {:induction false} ConsCanonical(x: string, body: string, segs: seq<Segment>)
    requires NoGroup(x) && BraceFree(body) && Canonical(segs)
    ensures Canonical([Lit(x), Group(body)] + segs)
    ensures Unparse([Lit(x), Group(body)] + segs) == x + ("{" + body + "}" + Unparse(segs))
  {
    var all := [Lit(x), Group(body)] + segs;
    assert all[1..] == [Group(body)] + segs;
    assert all[1..][1..] == segs;
    assert forall i | 2 <= i < |all| :: all[i] == segs[i - 2];
  }

  // ---------------------------------------------------------------- one placeholder

  datatype FormatType =
    NoType | Char | Str | UInt | UInt64 | Int | Int64 | Float | Double | Bool | BoolString | Hex | HexBase

  /** `GetTypeFromString`. */
  function TypeOf(s: string): FormatType {
    if s == "c" then Char else if s == "s" then Str else if s == "u" then UInt
    else if s == "i" then Int else if s == "f" then Float else if s == "d" then Double
    else if s == "b" then Bool else if s == "x" then Hex
    else if s == "u64" then UInt64 else if s == "i64" then Int64
    else if s == "bs" then BoolString else if s == "xb" then HexBase
    else NoType
  }

  predicate IsDigit(c: char) { '0' <= c <= '9' }

  predicate IsAlnum(c: char) { IsDigit(c) || 'a' <= c <= 'z' || 'A' <= c <= 'Z' }

  predicate All(s: string, ok: char -> bool) {
    forall i | 0 <= i < |s| :: ok(s[i])
  }

  function DigitValue(c: char): nat
    requires IsDigit(c)
  {
    c as nat - '0' as nat
  }

  /** The digits below `base` at the front of `s`, as a number; `n` is what has been read so far. */
  function ReadNumber(s: string, base: nat, n: nat): nat {
    if s != "" && IsDigit(s[0]) && DigitValue(s[0]) < base
    then ReadNumber(s[1..], base, n * base + DigitValue(s[0]))
    else n
  }

  /** (size_t)-1: no width or precision given. */
  const UNSET: nat := 0xFFFF_FFFF_FFFF_FFFF

  /** `atoi`: strtoull with base detection, cut to 32 bits, returned as int, widened to size_t. */
  function Atoi(s: string): nat {
    var v := ReadNumber(s, if s != "" && s[0] == '0' then 8 else 10, 0);
    var u := if v > UNSET then UNSET else v;
    var w := u % 0x1_0000_0000;
    if w < 0x8000_0000 then w else w + (UNSET + 1 - 0x1_0000_0000)
  }

  /** The part of `s` before the first character of `stops`. */
  function Before(s: string, stops: string): (r: string)
    ensures |r| <= |s|
  {
    if s == "" || s[0] in stops then "" else [s[0]] + Before(s[1..], stops)
  }

  lemma {:induction false} BeforeIs(s: string, stops: string)
    ensures Before(s, stops) == s[..|Before(s, stops)|]
    ensures forall i | 0 <= i < |Before(s, stops)| :: s[i] !in stops
    ensures |Before(s, stops)| < |s| ==> s[|Before(s, stops)|] in stops
  {
    if s != "" && s[0] !in stops {
      BeforeIs(s[1..], stops);
    }
  }

  /** What follows the argument number: type, width and precision, or text on which the scanner
      never gets past some character. */
  datatype Spec = Spec(ty: FormatType, len: nat, per: nat) | Stuck

  function Size(s: string): nat {
    if s == "" then UNSET else Atoi(s)
  }

  function ParseSpec(s: string): Spec {
    if |s| > 1 && s[0] == ',' then
      var w := Before(s[1..], ".:");
      if All(w, IsDigit) then ParsePrecision(s[1 + |w|..], Size(w)) else Stuck
    else ParsePrecision(s, UNSET)
  }

  function ParsePrecision(s: string, len: nat): Spec {
    if |s| > 1 && s[0] == '.' then
      var p := Before(s[1..], ":");
      if All(p, IsDigit) then ParseType(s[1 + |p|..], len, Size(p)) else Stuck
    else ParseType(s, len, UNSET)
  }

  function ParseType(s: string, len: nat, per: nat): Spec {
    if |s| > 1 && s[0] == ':' then
      var ty := Before(s[1..], ":");
      if All(ty, IsAlnum) then Spec(TypeOf(ty), len, per) else Stuck
    else Spec(NoType, len, per)
  }

  // ---------------------------------------------------------------- rendering

  /** One argument: how it prints for a type, width and precision. */
  type Arg = (FormatType, nat, nat) -> string

  /** The string, or the scanner's never returning. */
  datatype Outcome = Done(text: string) | Diverges

  function Then(prefix: string, o: Outcome): Outcome {
    if o.Done? then Done(prefix + o.text) else Diverges
  }

  function Braced(body: string): string {
    "{" + body + "}"
  }

  /** Whether a brace pair is a placeholder for one of `n` arguments. */
  predicate IsHole(body: string, n: nat) {
    body != "" && IsDigit(body[0]) && DigitValue(body[0]) < n
  }

  function RenderGroup(body: string, args: seq<Arg>): Outcome {
    if IsHole(body, |args|) then
      var spec := ParseSpec(body[1..]);
      if spec.Stuck? then Diverges else Done(args[DigitValue(body[0])](spec.ty, spec.len, spec.per))
    else Done(Braced(body))
  }

  function Render(segs: seq<Segment>, args: seq<Arg>): Outcome {
    if segs == [] then Done("")
    else if segs[0].Lit? then Then(segs[0].text, Render(segs[1..], args))
    else
      var g := RenderGroup(segs[0].body, args);
      if g.Diverges? then Diverges else Then(g.text, Render(segs[1..], args))
  }
}
