/** Properties of the meaning of a format: any cut of it renders alike, stray braces are copied, and
    which formats the scanner gets through. */
module FormatMeaning {
  import opened Wrappers
  import opened FormatSpec

  // ---------------------------------------------------------------- the meaning of a remaining format

  function Meaning(t: string, args: seq<Arg>): Outcome {
    Render(Parse(t), args)
  }

  lemma ThenThen(p: string, q: string, o: Outcome)
    ensures Then(p, Then(q, o)) == Then(p + q, o)
  {
    if o.Done? {
      assert p + (q + o.text) == p + q + o.text;
    }
  }

  lemma {:induction false} ParseFirst(t: string, j: nat, b: nat, args: seq<Arg>)
    requires IsFirstGroup(t, j, b)
    ensures Meaning(t, args) ==
            var g := RenderGroup(t[j + 1..b], args);
            if g.Diverges? then Diverges else Then(t[..j] + g.text, Meaning(t[b + 1..], args))
  {
    FirstGroupUnique(t, j, b);
    var rest := Parse(t[b + 1..]);
    var segs := [Lit(t[..j]), Group(t[j + 1..b])] + rest;
    assert Parse(t) == segs;
    assert segs[1..] == [Group(t[j + 1..b])] + rest;
    assert segs[1..][1..] == rest;
    var g := RenderGroup(t[j + 1..b], args);
    assert Render(segs, args) == Then(t[..j], Render(segs[1..], args));
    if g.Done? {
      assert Render(segs[1..], args) == Then(g.text, Render(rest, args));
      ThenThen(t[..j], g.text, Render(rest, args));
    }
  }

  /** A format without groups is copied. */
  lemma PlainMeaning(t: string, args: seq<Arg>)
    requires NoGroup(t)
    ensures Meaning(t, args) == Done(t)
  {
    FirstGroupIs(t);
    assert Parse(t) == [Lit(t)];
    assert Render([Lit(t)], args) == Then(t, Render([], args));
    assert t + "" == t;
  }

  /** No group starts in `p` and ends outside it, or starts and ends in it. */
  ghost predicate Inert(p: string, v: string) {
    (forall i | 0 <= i < |p| :: p[i] != '{') || ((forall i | 0 <= i < |p| :: p[i] != '}') && v != "" && v[0] == '{')
  }

  /** Such a prefix is copied. */
  lemma CopiedPrefix(p: string, v: string, args: seq<Arg>)
    requires Inert(p, v)
    ensures Meaning(p + v, args) == Then(p, Meaning(v, args))
  {
    FirstGroupIs(v);
    var t := p + v;
    if FirstGroup(v).Some? {
      var (j, b) := FirstGroup(v).value;
      InertPrefix(p, v, b);
      ShiftedGroup(p, v, j, b);
      CopiedBeforeGroup(p, v, j, b, args);
    } else {
      InertPrefix(p, v, |v|);
      PlainMeaning(t, args);
      PlainMeaning(v, args);
    }
  }

  lemma ShiftedGroup(p: string, v: string, j: nat, b: nat)
    requires IsFirstGroup(v, j, b) && NoGroupBefore(p + v, |p| + b)
    ensures IsFirstGroup(p + v, |p| + j, |p| + b)
  {
    var t := p + v;
    assert forall i | |p| <= i < |t| :: t[i] == v[i - |p|];
  }

  lemma CopiedBeforeGroup(p: string, v: string, j: nat, b: nat, args: seq<Arg>)
    requires IsFirstGroup(v, j, b) && IsFirstGroup(p + v, |p| + j, |p| + b)
    ensures Meaning(p + v, args) == Then(p, Meaning(v, args))
  {
    hide Meaning, RenderGroup, IsFirstGroup, Then;
    ShiftedSlices(p, v, j, b);
    ParseFirst(p + v, |p| + j, |p| + b, args);
    ParseFirst(v, j, b, args);
    var g := RenderGroup(v[j + 1..b], args);
    if g.Done? {
      ThenAssoc(p, v[..j], g.text, Meaning(v[b + 1..], args));
    } else {
      assert Then(p, Diverges) == Diverges by { ThenDiverges(p); }
    }
  }

  lemma ThenDiverges(p: string)
    ensures Then(p, Diverges) == Diverges
  {
  }

  lemma ThenAssoc(p: string, a: string, g: string, o: Outcome)
    ensures Then(p, Then(a + g, o)) == Then(p + a + g, o)
  {
    ThenThen(p, a + g, o);
    assert p + (a + g) == p + a + g;
  }

  lemma ShiftedSlices(p: string, v: string, j: nat, b: nat)
    requires IsFirstGroup(v, j, b)
    ensures j < b < |v|
    ensures (p + v)[|p| + j + 1..|p| + b] == v[j + 1..b]
    ensures (p + v)[..|p| + j] == p + v[..j]
    ensures (p + v)[|p| + b + 1..] == v[b + 1..]
  {
  }

  lemma InertPrefix(p: string, v: string, k: nat)
    requires Inert(p, v) && k <= |v| && NoGroupBefore(v, k)
    ensures NoGroupBefore(p + v, |p| + k)
  {
    var t := p + v;
    assert forall i | |p| <= i < |t| :: t[i] == v[i - |p|];
    assert forall i | 0 <= i < |p| :: t[i] == p[i];
  }

  /** A group at the front. */
  lemma FrontGroup(body: string, rest: string, args: seq<Arg>)
    requires BraceFree(body)
    ensures Meaning(Braced(body) + rest, args) ==
            var g := RenderGroup(body, args);
            if g.Diverges? then Diverges else Then(g.text, Meaning(rest, args))
  {
    var t := Braced(body) + rest;
    var b := |body| + 1;
    BracedParts(body, rest);
    BracedIsFirst(body, rest);
    hide Braced, RenderGroup, Meaning;
    ParseFirst(t, 0, b, args);
    var g := RenderGroup(body, args);
    if g.Done? {
      assert t[..0] + g.text == g.text;
    }
  }

  lemma BracedParts(body: string, rest: string)
    ensures var t := Braced(body) + rest; var b := |body| + 1;
            |t| == b + 1 + |rest| && t[0] == '{' && t[b] == '}' && t[1..b] == body && t[b + 1..] == rest
  {
    var t := Braced(body) + rest;
    assert t[1..|body| + 1] == Braced(body)[1..|body| + 1] == body;
  }

  lemma BracedIsFirst(body: string, rest: string)
    requires BraceFree(body)
    ensures IsFirstGroup(Braced(body) + rest, 0, |body| + 1)
  {
    var t := Braced(body) + rest;
    BracedParts(body, rest);
    assert forall i | 0 < i < |body| + 1 :: t[i] == body[i - 1];
  }

  // ---------------------------------------------------------------- segments and text agree

  lemma CanonicalTail(segs: seq<Segment>)
    requires Canonical(segs) && segs != []
    ensures Canonical(segs[1..])
  {
    var r := segs[1..];
    assert forall i | 0 <= i < |r| :: r[i] == segs[i + 1];
  }

  /** However a format is cut into literals that hide no placeholder and brace pairs, the result is
      the pieces rendered one after another: literals, stray braces among them, are copied, and text
      put in for a placeholder is never looked at again. */
  lemma {:induction false} AnyCutRenders(segs: seq<Segment>, args: seq<Arg>)
    requires Canonical(segs)
    ensures Meaning(Unparse(segs), args) == Render(segs, args)
    decreases |segs|
  {
    if segs == [] {
      PlainMeaning("", args);
    } else {
      CanonicalTail(segs);
      AnyCutRenders(segs[1..], args);
      var rest := Unparse(segs[1..]);
      if segs[0].Group? {
        FrontGroup(segs[0].body, rest, args);
      } else if |segs| == 1 {
        assert rest == "";
        assert segs[0].text + rest == segs[0].text;
        PlainMeaning(segs[0].text, args);
      } else {
        LiteralThenGroup(segs[0].text, segs[1].body, Unparse(segs[2..]), args);
        assert segs[1..][0] == segs[1] && segs[1..][1..] == segs[2..];
        assert rest == Braced(segs[1].body) + Unparse(segs[2..]);
      }
    }
  }

  lemma LiteralThenGroup(x: string, body: string, rest: string, args: seq<Arg>)
    requires NoGroup(x) && BraceFree(body)
    ensures Meaning(x + (Braced(body) + rest), args) == Then(x, Meaning(Braced(body) + rest, args))
  {
    var v := Braced(body) + rest;
    var t := x + v;
    var j, b := |x|, |x| + |body| + 1;
    assert t[j] == '{' && t[b] == '}' && t[j + 1..b] == body && t[..j] == x && t[b + 1..] == rest;
    assert forall i | 0 <= i < j :: t[i] == x[i];
    assert forall i | j < i < b :: t[i] == body[i - j - 1];
    ParseFirst(t, j, b, args);
    FrontGroup(body, rest, args);
    var g := RenderGroup(body, args);
    if g.Done? {
      ThenThen(x, g.text, Meaning(rest, args));
    }
  }

  // ---------------------------------------------------------------- with no arguments

  lemma {:induction false} NoHolesCopied(segs: seq<Segment>)
    ensures Render(segs, []) == Done(Unparse(segs))
  {
    if segs != [] {
      NoHolesCopied(segs[1..]);
    }
  }

  /** With an empty argument list every format comes back unchanged. */
  lemma NoArgsIdentity(t: string)
    ensures Meaning(t, []) == Done(t)
  {
    ParseCanonical(t);
    NoHolesCopied(Parse(t));
  }

  // ---------------------------------------------------------------- termination

  /** Every placeholder that names an argument has a specification the scanner gets through. */
  ghost predicate HolesFit(segs: seq<Segment>, n: nat) {
    forall i | 0 <= i < |segs| :: segs[i].Group? && IsHole(segs[i].body, n) ==> ParseSpec(segs[i].body[1..]) != Stuck
  }

  /** FormatString returns exactly for the formats all of whose placeholders fit. */
  lemma {:induction false} TerminatesIff(segs: seq<Segment>, args: seq<Arg>)
    ensures Render(segs, args).Done? <==> HolesFit(segs, |args|)
  {
    if segs != [] {
      TerminatesIff(segs[1..], args);
      assert forall i | 0 <= i < |segs| - 1 :: segs[1..][i] == segs[i + 1];
      var first := segs[0].Group? && IsHole(segs[0].body, |args|) ==> ParseSpec(segs[0].body[1..]) != Stuck;
      assert HolesFit(segs, |args|) <==> (first && HolesFit(segs[1..], |args|));
    }
  }

  lemma {:induction false} BeforeAll(s: string, stops: string, rest: string)
    requires forall i | 0 <= i < |s| :: s[i] !in stops
    requires rest == "" || rest[0] in stops
    ensures Before(s + rest, stops) == s
  {
    if s == "" {
      assert s + rest == rest;
    } else {
      assert (s + rest)[1..] == s[1..] + rest;
      BeforeAll(s[1..], stops, rest);
    }
  }

  /** The documented form after the argument number: `,L`, `.P` and `:T`, each of which may be absent. */
  function SpecText(len: Option<string>, per: Option<string>, ty: Option<string>): string {
    (if len.Some? then "," + len.value else "") + PerText(per, ty)
  }

  function PerText(per: Option<string>, ty: Option<string>): string {
    (if per.Some? then "." + per.value else "") + TyText(ty)
  }

  function TyText(ty: Option<string>): string {
    if ty.Some? then ":" + ty.value else ""
  }

  ghost predicate NumberText(n: Option<string>) {
    n.Some? ==> n.value != "" && All(n.value, IsDigit)
  }

  /** The documented placeholders fit, and mean what they say. */
  lemma SpecTextParses(len: Option<string>, per: Option<string>, ty: Option<string>)
    requires NumberText(len) && NumberText(per) && (ty.Some? ==> ty.value != "" && All(ty.value, IsAlnum))
    ensures ParseSpec(SpecText(len, per, ty)) ==
            Spec(if ty.Some? then TypeOf(ty.value) else NoType,
                 if len.Some? then Atoi(len.value) else UNSET,
                 if per.Some? then Atoi(per.value) else UNSET)
  {
    var n := if len.Some? then Atoi(len.value) else UNSET;
    PerTextParses(per, ty, n);
    var rest := PerText(per, ty);
    assert rest == "" || (rest[0] in ".:" && rest[0] != ',');
    hide PerText, ParsePrecision, TypeOf, Atoi;
    if len.Some? {
      ClauseParses(",", len.value, rest, ".:");
      assert SpecText(len, per, ty) == "," + len.value + rest;
    } else {
      assert SpecText(len, per, ty) == rest;
    }
  }

  lemma PerTextParses(per: Option<string>, ty: Option<string>, len: nat)
    requires NumberText(per) && (ty.Some? ==> ty.value != "" && All(ty.value, IsAlnum))
    ensures ParsePrecision(PerText(per, ty), len) ==
            Spec(if ty.Some? then TypeOf(ty.value) else NoType, len, if per.Some? then Atoi(per.value) else UNSET)
  {
    var n := if per.Some? then Atoi(per.value) else UNSET;
    TyTextParses(ty, len, n);
    var rest := TyText(ty);
    assert rest == "" || rest[0] == ':';
    hide TyText, ParseType, TypeOf, Atoi;
    if per.Some? {
      ClauseParses(".", per.value, rest, ":");
      assert PerText(per, ty) == "." + per.value + rest;
    } else {
      assert PerText(per, ty) == rest;
    }
  }

  /** What a clause leaves behind. */
  lemma {:induction false} ClauseParses(mark: string, digits: string, rest: string, stops: string)
    requires |mark| == 1 && digits != "" && All(digits, IsDigit) && (rest == "" || rest[0] in stops)
    requires forall i | 0 <= i < |stops| :: !IsDigit(stops[i])
    ensures var s := mark + digits + rest;
            |s| > 1 && s[0] == mark[0] && Before(s[1..], stops) == digits && s[1 + |digits|..] == rest
  {
    var s := mark + digits + rest;
    assert s[1..] == digits + rest;
    BeforeAll(digits, stops, rest);
  }

  lemma TyTextParses(ty: Option<string>, len: nat, per: nat)
    requires ty.Some? ==> ty.value != "" && All(ty.value, IsAlnum)
    ensures ParseType(TyText(ty), len, per) == Spec(if ty.Some? then TypeOf(ty.value) else NoType, len, per)
  {
    if ty.Some? {
      BeforeAll(ty.value, ":", "");
      assert ty.value + "" == ty.value;
      assert TyText(ty)[1..] == ty.value;
    }
  }

  /** A placeholder with a width that is not a number is never got past. */
  lemma BadWidthDiverges(args: seq<Arg>)
    requires |args| > 0
    ensures Meaning("{0,x}", args) == Diverges
  {
    var body := "0,x";
    assert Braced(body) + "" == "{0,x}";
    assert body[1..] == ",x" && ",x"[1..] == "x";
    assert Before("x", ".:") == "x" && "x"[0] == 'x';
    assert !All("x", IsDigit);
    assert ParseSpec(",x") == Stuck;
    hide Meaning, ParseSpec;
    FrontGroup(body, "", args);
  }
}
