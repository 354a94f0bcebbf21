/** What the scanner puts in for a placeholder, told from its text. */
module FormatRendered {
  import opened Wrappers
  import opened FormatSpec
  import opened FormatMeaning

  // ---------------------------------------------------------------- names and numbers

  /** The names of the types. */
  function NameOf(ty: FormatType): string
    requires ty != NoType
  {
    match ty
    case Char => "c"
    case Str => "s"
    case UInt => "u"
    case UInt64 => "u64"
    case Int => "i"
    case Int64 => "i64"
    case Float => "f"
    case Double => "d"
    case Bool => "b"
    case BoolString => "bs"
    case Hex => "x"
    case HexBase => "xb"
  }

  /** Every type has its name, and no other text names a type. */
  lemma TypeOfNames(ty: FormatType, s: string)
    requires ty != NoType
    ensures TypeOf(s) == ty <==> s == NameOf(ty)
    ensures All(NameOf(ty), IsAlnum) && NameOf(ty) != ""
  {
  }

  function DigitChar(d: nat): (c: char)
    requires d < 10
    ensures IsDigit(c) && DigitValue(c) == d
  {
    ('0' as int + d) as char
  }

  /** The digits of a number, without leading zeros. */
  function Digits(n: nat, base: nat): string
    requires 2 <= base <= 10
  {
    if n < base then [DigitChar(n)] else Digits(n / base, base) + [DigitChar(n % base)]
  }

  ghost predicate DigitsBelow(s: string, base: nat) {
    forall i | 0 <= i < |s| :: IsDigit(s[i]) && DigitValue(s[i]) < base
  }

  lemma {:induction false} ReadLast(s: string, c: char, base: nat, n: nat)
    requires IsDigit(c) && DigitsBelow(s + [c], base)
    ensures ReadNumber(s + [c], base, n) == ReadNumber(s, base, n) * base + DigitValue(c)
    decreases |s|
  {
    var t := s + [c];
    assert t[|s|] == c;
    if s == "" {
      assert t == [c];
      assert t[1..] == "";
    } else {
      assert t[0] == s[0] && t[1..] == s[1..] + [c];
      assert forall i | 0 <= i < |t| - 1 :: t[1..][i] == t[i + 1];
      ReadLast(s[1..], c, base, n * base + DigitValue(s[0]));
    }
  }

  lemma DivMod(n: nat, base: nat)
    requires 2 <= base <= 10
    ensures n / base * base + n % base == n && n % base < base && (n >= base ==> 0 < n / base < n)
  {
  }

  lemma {:induction false} DigitsRead(n: nat, base: nat)
    requires 2 <= base <= 10
    ensures DigitsBelow(Digits(n, base), base) && ReadNumber(Digits(n, base), base, 0) == n
    ensures Digits(n, base) != "" && (n > 0 ==> Digits(n, base)[0] != '0')
  {
    DivMod(n, base);
    if n < base {
      OneDigit(n, base);
    } else {
      var front, last := Digits(n / base, base), DigitChar(n % base);
      DigitsRead(n / base, base);
      assert Digits(n, base) == front + [last];
      hide Digits, ReadNumber, DigitChar;
      MoreDigits(front, last, base);
      ReadLast(front, last, base, 0);
    }
  }

  lemma {:induction false} OneDigit(n: nat, base: nat)
    requires n < base <= 10 && 2 <= base
    ensures Digits(n, base) == [DigitChar(n)] && DigitsBelow([DigitChar(n)], base) && ReadNumber([DigitChar(n)], base, 0) == n
  {
    assert [DigitChar(n)][1..] == "";
    assert ReadNumber([DigitChar(n)], base, 0) == ReadNumber("", base, n);
  }

  lemma {:induction false} MoreDigits(front: string, c: char, base: nat)
    requires DigitsBelow(front, base) && IsDigit(c) && DigitValue(c) < base && front != ""
    ensures DigitsBelow(front + [c], base) && front + [c] != "" && (front + [c])[0] == front[0]
  {
  }

  /** What is made of the number read. */
  lemma {:induction false} AtoiIs(s: string, v: nat)
    requires ReadNumber(s, if s != "" && s[0] == '0' then 8 else 10, 0) == v
    ensures v < 0x8000_0000 ==> Atoi(s) == v
    ensures 0x8000_0000 <= v < 0x1_0000_0000 ==> Atoi(s) == UNSET + 1 - (0x1_0000_0000 - v)
  {
    hide ReadNumber;
  }

  /** A number in decimal digits is read as itself up to what an int holds, as a negative int made
      unsigned up to 32 bits; 4294967295 is read as no number at all. */
  lemma {:induction false} AtoiDecimal(n: nat)
    ensures n < 0x8000_0000 ==> Atoi(Digits(n, 10)) == n
    ensures 0x8000_0000 <= n < 0x1_0000_0000 ==> Atoi(Digits(n, 10)) == UNSET + 1 - (0x1_0000_0000 - n)
    ensures n == 0xFFFF_FFFF ==> Atoi(Digits(n, 10)) == UNSET
  {
    DigitsRead(n, 10);
    if n == 0 {
      OneDigit(0, 10);
      OneDigit(0, 8);
    }
    hide Digits, ReadNumber, Atoi;
    AtoiIs(Digits(n, 10), n);
  }

  /** A leading nought means octal. */
  lemma {:induction false} AtoiOctal(n: nat)
    requires n < 0x8000_0000
    ensures Atoi("0" + Digits(n, 8)) == n
  {
    DigitsRead(n, 8);
    var s := "0" + Digits(n, 8);
    assert s[1..] == Digits(n, 8);
    assert ReadNumber(s, 8, 0) == ReadNumber(Digits(n, 8), 8, 0);
    hide Digits, ReadNumber, Atoi;
    AtoiIs(s, n);
  }

  lemma {:induction false} DigitsAreNumber(n: nat)
    ensures NumberText(Some(Digits(n, 10)))
  {
    DigitsRead(n, 10);
    hide Digits;
  }

  // ---------------------------------------------------------------- placeholders that fit

  lemma {:induction false} WholeFormat(body: string, args: seq<Arg>)
    requires BraceFree(body)
    ensures Meaning(Braced(body), args) == RenderGroup(body, args)
  {
    FrontGroup(body, "", args);
    PlainMeaning("", args);
    assert Braced(body) + "" == Braced(body);
    var g := RenderGroup(body, args);
    if g.Done? {
      assert g.text + "" == g.text;
    }
  }

  lemma {:induction false} SpecTextBraceFree(len: Option<string>, per: Option<string>, ty: Option<string>)
    requires NumberText(len) && NumberText(per) && (ty.Some? ==> All(ty.value, IsAlnum))
    ensures BraceFree(SpecText(len, per, ty))
  {
    PartBraceFree(",", len);
    PartBraceFree(".", per);
    PartBraceFree(":", ty);
    hide BraceFree;
    BraceFreeConcat(Part(".", per), Part(":", ty));
    BraceFreeConcat(Part(",", len), Part(".", per) + Part(":", ty));
  }

  function Part(mark: string, p: Option<string>): string {
    if p.Some? then mark + p.value else ""
  }

  lemma PartBraceFree(mark: string, p: Option<string>)
    requires mark in [",", ".", ":"] && (p.Some? ==> All(p.value, IsAlnum))
    ensures BraceFree(Part(mark, p))
  {
  }

  lemma BraceFreeConcat(a: string, b: string)
    requires BraceFree(a) && BraceFree(b)
    ensures BraceFree(a + b)
  {
  }

  /** Texts that parse alike are rendered alike. */
  lemma {:induction false} SameSpec(d: nat, a: string, b: string, args: seq<Arg>)
    requires d < 10 && d < |args| && BraceFree(a) && BraceFree(b) && ParseSpec(a) == ParseSpec(b)
    ensures Meaning(Braced([DigitChar(d)] + a), args) == Meaning(Braced([DigitChar(d)] + b), args)
  {
    hide Meaning, ParseSpec;
    SpecRendered(d, a, args);
    SpecRendered(d, b, args);
  }

  lemma {:induction false} SpecRendered(d: nat, spec: string, args: seq<Arg>)
    requires d < 10 && d < |args| && BraceFree(spec)
    ensures Meaning(Braced([DigitChar(d)] + spec), args) ==
            var p := ParseSpec(spec); if p.Stuck? then Diverges else Done(args[d](p.ty, p.len, p.per))
  {
    var body := [DigitChar(d)] + spec;
    assert body[0] == DigitChar(d) && body[1..] == spec;
    assert BraceFree(body) by {
      assert forall i | 1 <= i < |body| :: body[i] == spec[i - 1];
    }
    hide Meaning, BraceFree, ParseSpec;
    WholeFormat(body, args);
  }

  /** A documented placeholder is its argument rendered with the type of that name, the width after the
      comma and the precision after the dot; each of them may be absent. */
  lemma {:induction false} DocumentedRendered(d: nat, len: Option<string>, per: Option<string>, ty: Option<string>, args: seq<Arg>)
    requires d < 10 && d < |args|
    requires NumberText(len) && NumberText(per) && (ty.Some? ==> ty.value != "" && All(ty.value, IsAlnum))
    ensures Meaning(Braced([DigitChar(d)] + SpecText(len, per, ty)), args) ==
            Done(args[d](if ty.Some? then TypeOf(ty.value) else NoType,
                         if len.Some? then Atoi(len.value) else UNSET,
                         if per.Some? then Atoi(per.value) else UNSET))
  {
    hide SpecText, ParseSpec, TypeOf, Atoi, Meaning, BraceFree;
    SpecTextBraceFree(len, per, ty);
    SpecTextParses(len, per, ty);
    SpecRendered(d, SpecText(len, per, ty), args);
  }

  /** Width and precision in decimal digits, and a type by its name. */
  lemma {:induction false} NumbersRendered(d: nat, width: nat, precision: nat, ty: FormatType, args: seq<Arg>)
    requires d < 10 && d < |args| && width < 0x8000_0000 && precision < 0x8000_0000 && ty != NoType
    ensures Meaning(Braced([DigitChar(d)] + "," + Digits(width, 10) + "." + Digits(precision, 10) + ":" + NameOf(ty)), args) ==
            Done(args[d](ty, width, precision))
  {
    var len, per, name := Digits(width, 10), Digits(precision, 10), NameOf(ty);
    DigitsAreNumber(width);
    DigitsAreNumber(precision);
    AtoiDecimal(width);
    AtoiDecimal(precision);
    TypeOfNames(ty, name);
    hide Digits, NameOf, TypeOf, Atoi, Meaning;
    DocumentedRendered(d, Some(len), Some(per), Some(name), args);
    Regrouped([DigitChar(d)], len, per, name);
  }

  lemma Regrouped(d: string, len: string, per: string, ty: string)
    ensures d + SpecText(Some(len), Some(per), Some(ty)) == d + "," + len + "." + per + ":" + ty
  {
  }

  /** `{0,8.2:f}` is a float of width 8 with precision 2. */
  lemma {:induction false} FloatExample(args: seq<Arg>)
    requires |args| > 0
    ensures Meaning("{0,8.2:f}", args) == Done(args[0](Float, 8, 2))
  {
    assert Digits(8, 10) == "8" && Digits(2, 10) == "2" && DigitChar(0) == '0';
    assert "{0,8.2:f}" == Braced(['0'] + "," + "8" + "." + "2" + ":" + "f");
    hide Meaning;
    NumbersRendered(0, 8, 2, Float, args);
  }

  // ---------------------------------------------------------------- and those that do not

  /** A brace pair that does not begin with the number of an argument is copied. */
  lemma {:induction false} OtherBracesCopied(body: string, args: seq<Arg>)
    requires BraceFree(body)
    requires body == "" || !IsDigit(body[0]) || forall d | 0 <= d < 10 && d < |args| :: body[0] != DigitChar(d)
    ensures Meaning(Braced(body), args) == Done("{" + body + "}")
  {
    WholeFormat(body, args);
    if body != "" && IsDigit(body[0]) {
      assert DigitChar(DigitValue(body[0])) == body[0];
    }
    hide Meaning;
  }

  /** Text after the number that no clause begins is ignored. */
  lemma {:induction false} JunkIgnored(d: nat, junk: string, args: seq<Arg>)
    requires d < 10 && d < |args| && BraceFree(junk) && (|junk| <= 1 || junk[0] !in ",.:")
    ensures Meaning(Braced([DigitChar(d)] + junk), args) == Done(args[d](NoType, UNSET, UNSET))
  {
    hide Meaning, BraceFree;
    SpecRendered(d, junk, args);
  }

  lemma {:induction false} StuckDiverges(d: nat, spec: string, args: seq<Arg>)
    requires d < 10 && d < |args| && BraceFree(spec) && ParseSpec(spec) == Stuck
    ensures Meaning(Braced([DigitChar(d)] + spec), args) == Diverges
  {
    hide Meaning, BraceFree, ParseSpec;
    SpecRendered(d, spec, args);
  }

  ghost predicate NoneOf(s: string, stops: string) {
    forall i | 0 <= i < |s| :: s[i] !in stops
  }

  /** A width that is not a number is never got past. */
  lemma {:induction false} BadWidth(d: nat, w: string, rest: string, args: seq<Arg>)
    requires d < 10 && d < |args| && BraceFree("," + w + rest)
    requires NoneOf(w, ".:") && !All(w, IsDigit) && (rest == "" || rest[0] in ".:")
    ensures Meaning(Braced([DigitChar(d)] + ("," + w + rest)), args) == Diverges
  {
    var s := "," + w + rest;
    assert s[1..] == w + rest;
    BeforeAll(w, ".:", rest);
    hide Meaning, BraceFree, All;
    StuckDiverges(d, s, args);
  }

  /** Nor is such a precision. */
  lemma {:induction false} BadPrecision(d: nat, len: Option<string>, p: string, rest: string, args: seq<Arg>)
    requires d < 10 && d < |args| && NumberText(len) && BraceFree(Part(",", len) + ("." + p + rest))
    requires NoneOf(p, ":") && !All(p, IsDigit) && (rest == "" || rest[0] == ':')
    ensures Meaning(Braced([DigitChar(d)] + (Part(",", len) + ("." + p + rest))), args) == Diverges
  {
    var u := "." + p + rest;
    assert u[1..] == p + rest;
    BeforeAll(p, ":", rest);
    assert forall n: nat :: ParsePrecision(u, n) == Stuck;
    AfterWidth(len, u);
    hide Meaning, BraceFree, All, ParsePrecision;
    StuckDiverges(d, Part(",", len) + u, args);
  }

  /** Nor is a type that is not alphanumeric. */
  lemma {:induction false} BadType(d: nat, len: Option<string>, per: Option<string>, ty: string, rest: string, args: seq<Arg>)
    requires d < 10 && d < |args| && NumberText(len) && NumberText(per)
    requires BraceFree(Part(",", len) + (Part(".", per) + (":" + ty + rest)))
    requires NoneOf(ty, ":") && !All(ty, IsAlnum) && (rest == "" || rest[0] == ':')
    ensures Meaning(Braced([DigitChar(d)] + (Part(",", len) + (Part(".", per) + (":" + ty + rest)))), args) == Diverges
  {
    hide Meaning, BraceFree, All, ParseSpec, ParsePrecision, ParseType, NoneOf, Part;
    var u := ":" + ty + rest;
    TypeStuck(ty, rest);
    AfterPrecision(per, u, NumberOf(len));
    AfterWidth(len, Part(".", per) + u);
    StuckDiverges(d, Part(",", len) + (Part(".", per) + u), args);
  }

  lemma {:induction false} TypeStuck(ty: string, rest: string)
    requires NoneOf(ty, ":") && !All(ty, IsAlnum) && (rest == "" || rest[0] == ':')
    ensures forall n: nat, m: nat :: ParseType(":" + ty + rest, n, m) == Stuck
  {
    var u := ":" + ty + rest;
    assert u[1..] == ty + rest;
    BeforeAll(ty, ":", rest);
    hide All;
  }

  // ---------------------------------------------------------------- clause by clause

  function NumberOf(n: Option<string>): nat {
    if n.Some? then Size(n.value) else UNSET
  }

  lemma {:induction false} AfterWidth(len: Option<string>, u: string)
    requires NumberText(len) && u != "" && u[0] in ".:"
    ensures ParseSpec(Part(",", len) + u) == ParsePrecision(u, NumberOf(len))
  {
    hide ParsePrecision, Size;
    if len.Some? {
      ClauseParses(",", len.value, u, ".:");
    } else {
      assert Part(",", len) + u == u;
    }
  }

  lemma {:induction false} AfterPrecision(per: Option<string>, u: string, n: nat)
    requires NumberText(per) && u != "" && u[0] == ':'
    ensures ParsePrecision(Part(".", per) + u, n) == ParseType(u, n, NumberOf(per))
    ensures Part(".", per) + u != "" && (Part(".", per) + u)[0] in ".:"
  {
    hide ParseType, Size;
    if per.Some? {
      ClauseParses(".", per.value, u, ":");
    } else {
      assert Part(".", per) + u == u;
    }
  }

  /** A comma without digits is as good as none. */
  lemma {:induction false} EmptyWidth(d: nat, rest: string, args: seq<Arg>)
    requires d < 10 && d < |args| && BraceFree(rest) && rest != "" && rest[0] in ".:"
    ensures Meaning(Braced([DigitChar(d)] + ("," + rest)), args) == Meaning(Braced([DigitChar(d)] + rest), args)
  {
    assert ("," + rest)[1..] == rest;
    BraceFreeConcat(",", rest);
    hide Meaning, BraceFree, ParsePrecision;
    SameSpec(d, "," + rest, rest, args);
  }

  /** So is a dot without digits. */
  lemma {:induction false} EmptyPrecision(d: nat, len: Option<string>, rest: string, args: seq<Arg>)
    requires d < 10 && d < |args| && NumberText(len) && BraceFree(rest) && rest != "" && rest[0] == ':'
    ensures Meaning(Braced([DigitChar(d)] + (Part(",", len) + ("." + rest))), args) ==
            Meaning(Braced([DigitChar(d)] + (Part(",", len) + rest)), args)
  {
    assert ("." + rest)[1..] == rest;
    BraceFreeConcat(".", rest);
    PartBraceFree(",", len);
    hide Meaning, BraceFree, ParseType, Part, ParseSpec;
    assert forall n: nat :: ParsePrecision("." + rest, n) == ParsePrecision(rest, n);
    hide ParsePrecision;
    BraceFreeConcat(Part(",", len), "." + rest);
    BraceFreeConcat(Part(",", len), rest);
    AfterWidth(len, "." + rest);
    AfterWidth(len, rest);
    SameSpec(d, Part(",", len) + ("." + rest), Part(",", len) + rest, args);
  }

  /** What follows a second colon is ignored. */
  lemma {:induction false} AfterTypeIgnored(d: nat, len: Option<string>, per: Option<string>, ty: string, rest: string, args: seq<Arg>)
    requires d < 10 && d < |args| && NumberText(len) && NumberText(per) && ty != "" && All(ty, IsAlnum) && BraceFree(rest)
    ensures Meaning(Braced([DigitChar(d)] + (Part(",", len) + (Part(".", per) + (":" + ty + ":" + rest)))), args) ==
            Meaning(Braced([DigitChar(d)] + (Part(",", len) + (Part(".", per) + (":" + ty)))), args)
  {
    var u, v := ":" + ty + ":" + rest, ":" + ty;
    TypesAlike(ty, rest, NumberOf(len), NumberOf(per));
    PartsBraceFree(len, per, ty, rest);
    hide Meaning, BraceFree, All, ParseSpec, ParsePrecision, ParseType, Part, NumberOf, NumberText;
    AfterPrecision(per, u, NumberOf(len));
    AfterPrecision(per, v, NumberOf(len));
    AfterWidth(len, Part(".", per) + u);
    AfterWidth(len, Part(".", per) + v);
    SameSpec(d, Part(",", len) + (Part(".", per) + u), Part(",", len) + (Part(".", per) + v), args);
  }

  lemma {:induction false} PartsBraceFree(len: Option<string>, per: Option<string>, ty: string, rest: string)
    requires NumberText(len) && NumberText(per) && All(ty, IsAlnum) && BraceFree(rest)
    ensures BraceFree(Part(",", len) + (Part(".", per) + (":" + ty + ":" + rest)))
    ensures BraceFree(Part(",", len) + (Part(".", per) + (":" + ty)))
  {
    PartBraceFree(",", len);
    PartBraceFree(".", per);
    PartBraceFree(":", Some(ty));
    assert BraceFree(":");
    hide BraceFree, All;
    assert ":" + ty + ":" + rest == Part(":", Some(ty)) + (":" + rest);
    hide Part;
    BraceFreeConcat(":", rest);
    BraceFreeConcat(Part(":", Some(ty)), ":" + rest);
    BraceFreeConcat(Part(".", per), ":" + ty + ":" + rest);
    BraceFreeConcat(Part(",", len), Part(".", per) + (":" + ty + ":" + rest));
    BraceFreeConcat(Part(".", per), Part(":", Some(ty)));
    BraceFreeConcat(Part(",", len), Part(".", per) + Part(":", Some(ty)));
  }

  lemma {:induction false} TypesAlike(ty: string, rest: string, len: nat, per: nat)
    requires ty != "" && All(ty, IsAlnum)
    ensures ParseType(":" + ty + ":" + rest, len, per) == ParseType(":" + ty, len, per) == Spec(TypeOf(ty), len, per)
  {
    var u, v := ":" + ty + ":" + rest, ":" + ty;
    assert u[1..] == ty + (":" + rest) && v[1..] == ty && ty + "" == ty;
    BeforeAll(ty, ":", ":" + rest);
    BeforeAll(ty, ":", "");
    hide TypeOf;
  }
}
