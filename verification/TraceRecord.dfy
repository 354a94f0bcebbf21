/** Trace records: escaping, and building a record that fits a segment of the trace ring. */
module TraceRecord {
  import opened Wrappers
  import opened FormatSpec
  import opened FormatMeaning
  import opened FormatScanner
  import opened Subsequences

  const SEGMENT: nat := 512

  // ---------------------------------------------------------------- text arguments

  /** The C string that `s.c_str()` shows. */
  function UpToNul(s: string): (r: string)
    ensures |r| <= |s|
  {
    if s == "" || s[0] == '\0' then "" else [s[0]] + UpToNul(s[1..])
  }

  ghost predicate NoNul(s: string) {
    forall i | 0 <= i < |s| :: s[i] != '\0'
  }

  lemma {:induction false} UpToNulIs(s: string)
    ensures UpToNul(s) == s[..|UpToNul(s)|] && NoNul(UpToNul(s))
    ensures |UpToNul(s)| < |s| ==> s[|UpToNul(s)|] == '\0'
  {
    if s != "" && s[0] != '\0' {
      UpToNulIs(s[1..]);
    }
  }

  /** A string argument of a format, which prints alike whatever the type, as no width is ever given here. */
  function TextArg(s: string): Arg {
    (ty: FormatType, len: nat, per: nat) => UpToNul(s)
  }

  // ---------------------------------------------------------------- escaping

  function EscapeChar(c: char): string {
    if c == '"' || c == '\\' then ['\\', c] else if c == '\n' then "\\n" else if c == '\t' then "\\t" else [c]
  }

  function Escape(s: string): string {
    if s == "" then "" else EscapeChar(s[0]) + Escape(s[1..])
  }

  /** A text is escaped letter by letter: newline, tab, quote and backslash as two, any other as itself. */
  lemma {:induction false} EscapeByLetter(a: string, b: string, c: char)
    ensures Escape(a + b) == Escape(a) + Escape(b)
    ensures Escape("\n") == "\\n" && Escape("\t") == "\\t" && Escape("\"") == "\\\"" && Escape("\\") == "\\\\"
    ensures c !in "\n\t\"\\" ==> Escape([c]) == [c]
  {
    if a == "" {
      assert a + b == b;
    } else {
      assert (a + b)[1..] == a[1..] + b;
      EscapeByLetter(a[1..], b, c);
    }
    hide Escape;
    OneLetter('\n');
    OneLetter('\t');
    OneLetter('"');
    OneLetter('\\');
    OneLetter(c);
  }

  lemma {:induction false} OneLetter(c: char)
    ensures Escape([c]) == EscapeChar(c)
  {
    assert Escape([c]) == EscapeChar(c) + Escape("");
  }

  lemma {:induction false} EscapeSnoc(s: string, c: char)
    ensures Escape(s + [c]) == Escape(s) + EscapeChar(c)
  {
    if s == "" {
      assert Escape([c]) == EscapeChar(c) + Escape([]);
    } else {
      assert (s + [c])[1..] == s[1..] + [c];
      EscapeSnoc(s[1..], c);
    }
  }

  /** `cleanUpString`. */
  method CleanUpString(s: string) returns (out: string)
    ensures out == Escape(s)
  {
    out := "";
    for i := 0 to |s|
      invariant out == Escape(s[..i])
    {
      var c := s[i];
      assert s[..i + 1] == s[..i] + [c];
      EscapeSnoc(s[..i], c);
      if c == '"' || c == '\\' {
        out := out + "\\";
      }
      if c == '\n' {
        out := out + "\\n";
      } else if c == '\t' {
        out := out + "\\t";
      } else {
        out := out + [c];
      }
    }
    assert s[..|s|] == s;
  }

  lemma {:induction false} UpToNulConcat(a: string, b: string)
    requires NoNul(a)
    ensures UpToNul(a + b) == a + UpToNul(b)
  {
    if a == "" {
      assert a + b == b;
    } else {
      assert (a + b)[1..] == a[1..] + b;
      UpToNulConcat(a[1..], b);
    }
  }

  /** Escaping and cutting at a NUL commute. */
  lemma {:induction false} EscapeUpToNul(s: string)
    ensures UpToNul(Escape(s)) == Escape(UpToNul(s))
  {
    if s != "" {
      EscapeUpToNul(s[1..]);
      if s[0] == '\0' {
        assert (EscapeChar(s[0]) + Escape(s[1..]))[0] == '\0';
      } else {
        UpToNulConcat(EscapeChar(s[0]), Escape(s[1..]));
      }
    }
  }

  // ---------------------------------------------------------------- reading a quoted string

  function Unescaped(c: char): Option<char> {
    if c == '"' || c == '\\' then Some(c) else if c == 'n' then Some('\n') else if c == 't' then Some('\t') else None
  }

  /** Reads up to the first quote that is not escaped, and gives the text and what follows the quote.
      A raw newline or tab, or an escape other than the four, is refused. */
  function Unquote(t: string): (r: Option<(string, string)>)
    ensures r.Some? ==> |r.value.1| < |t|
  {
    if t == "" || t[0] == '\n' || t[0] == '\t' then None
    else if t[0] == '"' then Some(("", t[1..]))
    else if t[0] == '\\' then
      if |t| == 1 || Unescaped(t[1]).None? then None else Before1(Unescaped(t[1]).value, Unquote(t[2..]))
    else Before1(t[0], Unquote(t[1..]))
  }

  function Before1(c: char, r: Option<(string, string)>): Option<(string, string)> {
    if r.Some? then Some(([c] + r.value.0, r.value.1)) else None
  }

  lemma {:induction false} UnquoteChar(c: char, t: string)
    ensures Unquote(EscapeChar(c) + t) == Before1(c, Unquote(t))
  {
    var e := EscapeChar(c);
    assert (e + t)[|e|..] == t;
  }

  /** Every string survives escaping: what stands before the first unescaped quote decodes to it. */
  lemma {:induction false} EscapeReadsBack(s: string, rest: string)
    ensures Unquote(Escape(s) + "\"" + rest) == Some((s, rest))
  {
    if s == "" {
      assert (Escape(s) + "\"" + rest)[1..] == rest;
    } else {
      hide Unquote, EscapeChar;
      EscapeReadsBack(s[1..], rest);
      var t := Escape(s[1..]) + "\"" + rest;
      assert Escape(s) + "\"" + rest == EscapeChar(s[0]) + t;
      UnquoteChar(s[0], t);
      assert [s[0]] + s[1..] == s;
    }
  }

  lemma {:induction false} EscapeInjective(a: string, b: string)
    requires Escape(a) == Escape(b)
    ensures a == b
  {
    EscapeReadsBack(a, "");
    EscapeReadsBack(b, "");
  }

  /** A string that escaping would not change. */
  ghost predicate Clean(s: string) {
    forall i | 0 <= i < |s| :: s[i] != '"' && s[i] != '\\' && s[i] != '\n' && s[i] != '\t'
  }

  lemma {:induction false} CleanIffUnchanged(s: string)
    ensures Clean(s) <==> Escape(s) == s
  {
    if s != "" {
      CleanIffUnchanged(s[1..]);
      CleanCons(s);
      EscapeLonger(s[1..]);
      hide Clean;
      SameCons(s, EscapeChar(s[0]), Escape(s[1..]));
    }
  }

  lemma CleanCons(s: string)
    requires s != ""
    ensures Clean(s) <==> |EscapeChar(s[0])| == 1 && Clean(s[1..])
  {
    assert forall i | 0 < i < |s| :: s[i] == s[1..][i - 1];
    assert forall i | 0 <= i < |s| - 1 :: s[1..][i] == s[i + 1];
  }

  lemma SameCons(s: string, e: string, t: string)
    requires s != "" && |e| > 0 && |t| >= |s| - 1 && (|e| == 1 ==> e[0] == s[0])
    ensures e + t == s <==> |e| == 1 && t == s[1..]
  {
    if e + t == s {
      assert (e + t)[1..] == t;
    }
    if |e| == 1 && t == s[1..] {
      assert e == [s[0]];
      assert [s[0]] + s[1..] == s;
    }
  }

  lemma {:induction false} EscapeLonger(s: string)
    ensures |Escape(s)| >= |s|
  {
    if s != "" {
      EscapeLonger(s[1..]);
    }
  }

  /** Once a backslash has been taken for an escape, the text read can no longer be the text written. */
  lemma {:induction false} NeverCatchesUp(y: string, u: string, rest: string)
    requires y != "" && forall i | 0 <= i < |y| :: y[i] == '\\'
    ensures var r := Unquote(u + "\"" + rest); r.Some? ==> r.value.0 != y + u
    decreases |u|
  {
    var t := u + "\"" + rest;
    if |u| >= 2 && u[0] == '\\' && u[1] == '\\' {
      NeverCatchesUp(y[1..] + "\\\\", u[2..], rest);
      assert t[2..] == u[2..] + "\"" + rest;
      assert (y + u)[1..] == y[1..] + "\\\\" + u[2..];
    } else {
      assert (y + u)[0] == '\\';
    }
  }

  /** Text that is quoted without being escaped, as keys are, reads back exactly if it is clean. */
  lemma {:induction false} RawReadsBackIff(k: string, rest: string)
    ensures var r := Unquote(k + "\"" + rest); Clean(k) <==> r.Some? && r.value.0 == k
  {
    var t := k + "\"" + rest;
    if Clean(k) {
      CleanIffUnchanged(k);
      EscapeReadsBack(k, rest);
    } else {
      assert k != "";
      assert t[1..] == k[1..] + "\"" + rest;
      if k[0] == '\\' {
        if |k| >= 2 && k[1] == '\\' {
          NeverCatchesUp("\\", k[2..], rest);
          assert t[2..] == k[2..] + "\"" + rest;
          assert k[1..] == "\\" + k[2..];
        }
      } else if Clean([k[0]]) {
        RawReadsBackIff(k[1..], rest);
        assert !Clean(k[1..]) by {
          assert forall i | 0 < i < |k| :: k[i] == k[1..][i - 1];
          assert [k[0]][0] == k[0];
        }
      }
    }
  }

  // ---------------------------------------------------------------- records

  const MESSAGE := "{ \"message\": \""

  function Header(message: string): string {
    MESSAGE + UpToNul(Escape(message)) + "\""
  }

  function EntryText(e: (string, string)): string {
    ", \"" + UpToNul(e.0) + "\": \"" + UpToNul(Escape(e.1)) + "\""
  }

  function EntriesText(es: seq<(string, string)>): string {
    if es == [] then "" else EntriesText(es[..|es| - 1]) + EntryText(es[|es| - 1])
  }

  /** The entries with something in them. */
  function NonEmpty(es: seq<(string, string)>): seq<(string, string)> {
    if es == [] then [] else
      NonEmpty(es[..|es| - 1]) + if es[|es| - 1].1 == "" then [] else [es[|es| - 1]]
  }

  ghost predicate Fits(message: string, es: seq<(string, string)>) {
    |Header(message)| + |EntriesText(es)| + 2 <= SEGMENT
  }

  /** `kept` is the longest prefix of `es` whose record totals at most 512 characters. */
  ghost predicate LongestPrefix(message: string, kept: seq<(string, string)>, es: seq<(string, string)>) {
    && kept <= es
    && (kept == [] || Fits(message, kept))
    && (kept == es || !Fits(message, es[..|kept| + 1]))
  }

  function RecordText(message: string, kept: seq<(string, string)>): string {
    Header(message) + EntriesText(kept) + " }"
  }

  // ---------------------------------------------------------------- building a record

  lemma {:induction false} LitFirst(x: string, segs: seq<Segment>, args: seq<Arg>)
    ensures Render([Lit(x)] + segs, args) == Then(x, Render(segs, args))
    ensures Unparse([Lit(x)] + segs) == x + Unparse(segs)
  {
    assert ([Lit(x)] + segs)[1..] == segs;
  }

  lemma {:induction false} HoleFirst(body: string, x: string, segs: seq<Segment>, args: seq<Arg>)
    requires RenderGroup(body, args) == Done(x)
    ensures Render([Group(body)] + segs, args) == Then(x, Render(segs, args))
    ensures Unparse([Group(body)] + segs) == Braced(body) + Unparse(segs)
  {
    assert ([Group(body)] + segs)[1..] == segs;
  }

  lemma {:induction false} LastQuote(args: seq<Arg>)
    ensures Render([Lit("\"")], args) == Done("\"") && Unparse([Lit("\"")]) == "\""
  {
    LitFirst("\"", [], args);
    assert [Lit("\"")] + [] == [Lit("\"")];
    assert "\"" + "" == "\"";
  }

  lemma {:induction false} MessageFormat(x: string)
    ensures Meaning("{ \"message\": \"{0}\"", [TextArg(x)]) == Done(MESSAGE + UpToNul(x) + "\"")
  {
    hide Meaning, Render, Unparse, RenderGroup, UpToNul, ParseSpec;
    var args := [TextArg(x)];
    var segs := [Lit(MESSAGE)] + ([Group("0")] + [Lit("\"")]);
    RenderHole(x);
    LastQuote(args);
    HoleFirst("0", UpToNul(x), [Lit("\"")], args);
    LitFirst(MESSAGE, [Group("0")] + [Lit("\"")], args);
    AnyCutRenders(segs, args);
    assert Unparse(segs) == "{ \"message\": \"{0}\"";
    assert MESSAGE + (UpToNul(x) + "\"") == MESSAGE + UpToNul(x) + "\"";
  }

  lemma {:induction false} RenderHole(x: string)
    ensures RenderGroup("0", [TextArg(x)]) == Done(UpToNul(x))
  {
  }

  lemma {:induction false} RenderHoles(x: string, y: string)
    ensures RenderGroup("0", [TextArg(x), TextArg(y)]) == Done(UpToNul(x))
    ensures RenderGroup("1", [TextArg(x), TextArg(y)]) == Done(UpToNul(y))
  {
  }

  lemma {:induction false} EntryFormat(x: string, y: string)
    ensures Meaning(", \"{0}\": \"{1}\"", [TextArg(x), TextArg(y)]) ==
            Done(", \"" + UpToNul(x) + "\": \"" + UpToNul(y) + "\"")
  {
    hide Meaning, Render, Unparse, RenderGroup, UpToNul, ParseSpec, Canonical, TextArg;
    var args := [TextArg(x), TextArg(y)];
    RenderHoles(x, y);
    LastQuote(args);
    var s3 := [Group("1")] + [Lit("\"")];
    HoleFirst("1", UpToNul(y), [Lit("\"")], args);
    var s2 := [Lit("\": \"")] + s3;
    LitFirst("\": \"", s3, args);
    var s1 := [Group("0")] + s2;
    HoleFirst("0", UpToNul(x), s2, args);
    var segs := [Lit(", \"")] + s1;
    LitFirst(", \"", s1, args);
    EntryCanonical(segs);
    AnyCutRenders(segs, args);
    assert Unparse(segs) == ", \"{0}\": \"{1}\"";
    Associate(", \"", UpToNul(x), "\": \"", UpToNul(y), "\"");
  }

  lemma EntryCanonical(segs: seq<Segment>)
    requires segs == [Lit(", \"")] + ([Group("0")] + ([Lit("\": \"")] + ([Group("1")] + [Lit("\"")])))
    ensures Canonical(segs)
  {
  }

  lemma Associate(a: string, b: string, c: string, d: string, e: string)
    ensures a + (b + (c + (d + e))) == a + b + c + d + e
  {
  }

  /** The entries with something in them, in their order, and all of them. */
  lemma {:induction false} NonEmptyIs(es: seq<(string, string)>)
    ensures Subsequence(NonEmpty(es), es)
    ensures forall e :: e in NonEmpty(es) <==> e in es && e.1 != ""
  {
    if es == [] {
      NothingPicked<(string, string)>();
    } else {
      var rest, e := es[..|es| - 1], es[|es| - 1];
      assert es == rest + [e];
      NonEmptyIs(rest);
      NonEmptySnoc(rest, e);
      hide NonEmpty;
      NotPicked(NonEmpty(rest), rest, e);
      Picked(NonEmpty(rest), rest, e);
      hide Subsequence;
      assert NonEmpty(rest) + [] == NonEmpty(rest);
    }
  }

  lemma {:induction false} NonEmptySnoc(es: seq<(string, string)>, e: (string, string))
    ensures NonEmpty(es + [e]) == NonEmpty(es) + if e.1 == "" then [] else [e]
  {
    assert (es + [e])[..|es|] == es;
  }

  lemma {:induction false} NonEmptyConcat(a: seq<(string, string)>, b: seq<(string, string)>)
    ensures NonEmpty(a) <= NonEmpty(a + b)
    decreases |b|
  {
    if b == [] {
      assert a + b == a;
    } else {
      var u, e := b[..|b| - 1], b[|b| - 1];
      NonEmptyConcat(a, u);
      assert a + b == (a + u) + [e];
      hide NonEmpty;
      NonEmptySnoc(a + u, e);
    }
  }

  lemma {:induction false} NonEmptyStep(es: seq<(string, string)>, i: nat)
    requires i < |es|
    ensures NonEmpty(es[..i + 1]) == NonEmpty(es[..i]) + if es[i].1 == "" then [] else [es[i]]
    ensures NonEmpty(es[..i + 1]) <= NonEmpty(es)
  {
    hide NonEmpty;
    SplitAround(es, i);
    NonEmptyAround(es[..i], es[i], es[i + 1..]);
  }

  lemma SplitAround<T>(s: seq<T>, i: nat)
    requires i < |s|
    ensures s[..i + 1] == s[..i] + [s[i]]
    ensures s[..i] + [s[i]] + s[i + 1..] == s
  {
  }

  lemma {:induction false} NonEmptyAround(a: seq<(string, string)>, e: (string, string), b: seq<(string, string)>)
    ensures NonEmpty(a + [e]) == NonEmpty(a) + if e.1 == "" then [] else [e]
    ensures NonEmpty(a + [e]) <= NonEmpty(a + [e] + b)
  {
    hide NonEmpty;
    NonEmptySnoc(a, e);
    NonEmptyConcat(a + [e], b);
  }

  method MessageText(message: string) returns (out: string)
    ensures out == Header(message)
  {
    hide Meaning;
    var escaped := CleanUpString(message);
    var r := FormatString("{ \"message\": \"{0}\"", [TextArg(escaped)]);
    MessageFormat(escaped);
    out := r.text;
  }

  method OneEntry(e: (string, string)) returns (temp: string)
    ensures temp == EntryText(e)
  {
    hide Meaning;
    var escaped := CleanUpString(e.1);
    var r := FormatString(", \"{0}\": \"{1}\"", [TextArg(e.0), TextArg(escaped)]);
    EntryFormat(e.0, escaped);
    temp := r.text;
  }

  /** `formatTrace`: the entries of the map, in its order, as long as they fit. */
  method FormatTrace(message: string, es: seq<(string, string)>) returns (out: string, kept: seq<(string, string)>)
    ensures out == RecordText(message, kept)
    ensures LongestPrefix(message, kept, NonEmpty(es))
  {
    hide EntryText, EntriesText, Header, NonEmpty, LongestPrefix;
    out := MessageText(message);
    kept := [];
    NoEntries(message);
    for i := 0 to |es|
      invariant out == Header(message) + EntriesText(kept)
      invariant kept == NonEmpty(es[..i])
      invariant kept == [] || Fits(message, kept)
    {
      NonEmptyStep(es, i);
      var e := es[i];
      if |e.1| == 0 {
        continue;
      }
      var temp := OneEntry(e);
      EntriesSnoc(kept, e);
      if |out| + |temp| + 2 > SEGMENT {
        Stopped(message, kept, e, NonEmpty(es));
        out := out + " }";
        return;
      }
      assert Header(message) + EntriesText(kept) + EntryText(e) == Header(message) + (EntriesText(kept) + EntryText(e));
      out := out + temp;
      kept := kept + [e];
    }
    assert es[..|es|] == es;
    AllKept(message, kept);
    out := out + " }";
  }

  lemma NoEntries(message: string)
    ensures Header(message) == Header(message) + EntriesText([])
    ensures NonEmpty([]) == []
  {
  }

  lemma AllKept(message: string, kept: seq<(string, string)>)
    requires kept == [] || Fits(message, kept)
    ensures LongestPrefix(message, kept, kept)
  {
  }

  lemma {:induction false} EntriesSnoc(es: seq<(string, string)>, e: (string, string))
    ensures EntriesText(es + [e]) == EntriesText(es) + EntryText(e)
  {
    assert (es + [e])[..|es|] == es;
  }

  lemma Stopped(message: string, kept: seq<(string, string)>, e: (string, string), all: seq<(string, string)>)
    requires kept + [e] <= all && !Fits(message, kept + [e])
    requires kept == [] || Fits(message, kept)
    ensures LongestPrefix(message, kept, all)
  {
    assert all[..|kept| + 1] == kept + [e];
  }

  /** Only one prefix is the longest, so the record is determined by its message and its entries. */
  lemma LongestPrefixUnique(message: string, a: seq<(string, string)>, b: seq<(string, string)>, es: seq<(string, string)>)
    requires LongestPrefix(message, a, es) && LongestPrefix(message, b, es)
    ensures a == b
  {
    hide Fits;
    assert a == es[..|a|] && b == es[..|b|];
    if |a| < |b| {
      ShorterFits(message, es, |a| + 1, |b|);
    } else if |b| < |a| {
      ShorterFits(message, es, |b| + 1, |a|);
    }
  }

  lemma {:induction false} ShorterFits(message: string, es: seq<(string, string)>, i: nat, k: nat)
    requires i <= k <= |es| && Fits(message, es[..k])
    ensures Fits(message, es[..i])
    decreases k
  {
    if i < k {
      assert es[..k][..k - 1] == es[..k - 1];
      ShorterFits(message, es, i, k - 1);
    }
  }

  /** The record totals at most 512 characters exactly when the part with the message, closed, does. At
      512 it is a character longer than what a segment keeps. */
  lemma RecordFitsIff(message: string, kept: seq<(string, string)>, es: seq<(string, string)>)
    requires LongestPrefix(message, kept, es)
    ensures |RecordText(message, kept)| <= SEGMENT <==> |Header(message)| + 2 <= SEGMENT
    ensures |Header(message)| + 2 > SEGMENT ==> kept == []
  {
  }

  /** Every prefix of the entries with which the record totals at most 512 characters is kept, and the
      record kept totals no more unless it has no entry. */
  lemma {:induction false} KeepsAllThatFits(message: string, kept: seq<(string, string)>, es: seq<(string, string)>, i: nat)
    requires LongestPrefix(message, kept, es) && i <= |es|
    ensures |RecordText(message, es[..i])| <= 512 ==> i <= |kept|
    ensures kept != [] ==> |RecordText(message, kept)| <= 512
    ensures i <= |kept| && kept != [] ==> |RecordText(message, es[..i])| <= 512
  {
    assert kept == es[..|kept|];
    if i > |kept| && Fits(message, es[..i]) {
      ShorterFits(message, es, |kept| + 1, i);
    }
    if i <= |kept| && kept != [] {
      ShorterFits(message, es, i, |kept|);
    }
    hide Header, EntriesText;
  }

  lemma RecordNotEmpty(message: string, kept: seq<(string, string)>)
    ensures RecordText(message, kept) != ""
  {
  }

  // ---------------------------------------------------------------- reading a record

  function ReadEntries(t: string): Option<seq<(string, string)>>
    decreases |t|
  {
    if t == " }" then Some([])
    else if !(", \"" <= t) then None
    else
      var k := Unquote(t[3..]);
      if k.None? || !(": \"" <= k.value.1) then None
      else
        var v := Unquote(k.value.1[3..]);
        if v.None? then None
        else
          var es := ReadEntries(v.value.1);
          if es.None? then None else Some([(k.value.0, v.value.0)] + es.value)
  }

  /** The message and the entries. */
  function ReadRecord(t: string): Option<(string, seq<(string, string)>)> {
    if !(MESSAGE <= t) then None
    else
      var m := Unquote(t[|MESSAGE|..]);
      if m.None? then None
      else
        var es := ReadEntries(m.value.1);
        if es.None? then None else Some((m.value.0, es.value))
  }

  function AsWritten(es: seq<(string, string)>): seq<(string, string)> {
    if es == [] then [] else [(UpToNul(es[0].0), UpToNul(es[0].1))] + AsWritten(es[1..])
  }

  ghost predicate CleanKeys(es: seq<(string, string)>) {
    forall i | 0 <= i < |es| :: Clean(UpToNul(es[i].0))
  }

  lemma {:induction false} EntriesCons(e: (string, string), es: seq<(string, string)>)
    ensures EntriesText([e] + es) == EntryText(e) + EntriesText(es)
    decreases |es|
  {
    hide EntryText;
    if es == [] {
      assert [e] + es == [] + [e];
      EntriesSnoc([], e);
    } else {
      var u, x := es[..|es| - 1], es[|es| - 1];
      EntriesCons(e, u);
      assert [e] + es == ([e] + u) + [x];
      EntriesSnoc([e] + u, x);
    }
  }

  lemma {:induction false} ReadOne(e: (string, string), rest: string)
    ensures ReadEntries(EntryText(e) + rest) ==
            var k := Unquote(UpToNul(e.0) + "\"" + (": \"" + Escape(UpToNul(e.1)) + "\"" + rest));
            if k.None? || !(": \"" <= k.value.1) then None
            else
              var v := Unquote(k.value.1[3..]);
              if v.None? then None
              else
                var es := ReadEntries(v.value.1);
                if es.None? then None else Some([(k.value.0, v.value.0)] + es.value)
  {
    hide ReadEntries, Unquote, Escape, UpToNul;
    EscapeUpToNul(e.1);
    var after := UpToNul(e.0) + "\"" + (": \"" + Escape(UpToNul(e.1)) + "\"" + rest);
    assert EntryText(e) + rest == ", \"" + after;
    ReadAfterComma(after);
  }

  lemma {:induction false} ReadAfterComma(after: string)
    ensures ReadEntries(", \"" + after) ==
            var k := Unquote(after);
            if k.None? || !(": \"" <= k.value.1) then None
            else
              var v := Unquote(k.value.1[3..]);
              if v.None? then None
              else
                var es := ReadEntries(v.value.1);
                if es.None? then None else Some([(k.value.0, v.value.0)] + es.value)
  {
    hide Unquote;
    var t := ", \"" + after;
    assert t[0] == ',' && t[3..] == after;
  }

  lemma {:induction false} EntriesReadBackIff(es: seq<(string, string)>)
    ensures ReadEntries(EntriesText(es) + " }") == Some(AsWritten(es)) <==> CleanKeys(es)
  {
    if es == [] {
      assert EntriesText(es) + " }" == " }";
    } else {
      var e, rest := es[0], EntriesText(es[1..]) + " }";
      assert es == [e] + es[1..];
      EntriesCons(e, es[1..]);
      assert EntriesText(es) + " }" == EntryText(e) + rest;
      EntriesReadBackIff(es[1..]);
      EntryReadsBackIff(e, rest, AsWritten(es[1..]));
      CleanKeysCons(es);
      hide ReadEntries, EntriesText, EntryText;
    }
  }

  lemma CleanKeysCons(es: seq<(string, string)>)
    requires es != []
    ensures CleanKeys(es) <==> Clean(UpToNul(es[0].0)) && CleanKeys(es[1..])
  {
    hide Clean, UpToNul;
    assert forall i | 0 < i < |es| :: es[i] == es[1..][i - 1];
    assert forall i | 0 <= i < |es| - 1 :: es[1..][i] == es[i + 1];
  }

  lemma {:induction false} EntryReadsBackIff(e: (string, string), rest: string, es: seq<(string, string)>)
    ensures ReadEntries(EntryText(e) + rest) == Some([(UpToNul(e.0), UpToNul(e.1))] + es) <==>
            Clean(UpToNul(e.0)) && ReadEntries(rest) == Some(es)
  {
    hide ReadEntries, EntryText, Unquote, Escape, Clean, UpToNul;
    ReadOne(e, rest);
    var key, val := UpToNul(e.0), Escape(UpToNul(e.1));
    var after := ": \"" + val + "\"" + rest;
    RawReadsBackIff(key, after);
    if Clean(key) {
      CleanIffUnchanged(key);
      EscapeReadsBack(key, after);
      EscapeReadsBack(UpToNul(e.1), rest);
      assert after[3..] == val + "\"" + rest;
      HeadAndTail((key, UpToNul(e.1)), es, ReadEntries(rest));
    } else if ReadEntries(EntryText(e) + rest).Some? && Unquote(key + "\"" + after).Some? {
      assert ReadEntries(EntryText(e) + rest).value[0].0 != key;
    }
  }

  lemma HeadAndTail<T>(x: T, xs: seq<T>, r: Option<seq<T>>)
    ensures r.Some? ==> ([x] + r.value == [x] + xs <==> r.value == xs)
  {
    if r.Some? && [x] + r.value == [x] + xs {
      assert ([x] + r.value)[1..] == r.value && ([x] + xs)[1..] == xs;
    }
  }

  /** A record reads back to the message and the entries kept, exactly when the keys kept need no
      escaping: they are not escaped. */
  lemma {:induction false} RecordReadsBackIff(message: string, kept: seq<(string, string)>)
    ensures ReadRecord(RecordText(message, kept)) == Some((UpToNul(message), AsWritten(kept))) <==> CleanKeys(kept)
  {
    hide ReadEntries, EntriesText, Escape, UpToNul, Unquote, AsWritten, CleanKeys, RecordText;
    var m, rest := UpToNul(message), EntriesText(kept) + " }";
    RecordParts(message, kept);
    EscapeReadsBack(m, rest);
    EntriesReadBackIff(kept);
    AfterMessage(Escape(m) + "\"" + rest);
  }

  lemma {:induction false} RecordParts(message: string, kept: seq<(string, string)>)
    ensures RecordText(message, kept) == MESSAGE + (Escape(UpToNul(message)) + "\"" + (EntriesText(kept) + " }"))
  {
    hide Escape, UpToNul, EntriesText;
    EscapeUpToNul(message);
  }

  /** A record without its closing brace. */
  function Unclosed(message: string, kept: seq<(string, string)>): string {
    Header(message) + EntriesText(kept)
  }

  /** The text of a record: the message, then one entry after another, then the brace. */
  lemma {:induction false} RecordLayout(message: string, kept: seq<(string, string)>, e: (string, string))
    ensures Unclosed(message, []) == "{ \"message\": \"" + Escape(UpToNul(message)) + "\""
    ensures Unclosed(message, kept + [e]) == Unclosed(message, kept) + ", \"" + UpToNul(e.0) + "\": \"" + Escape(UpToNul(e.1)) + "\""
    ensures RecordText(message, kept) == Unclosed(message, kept) + " }"
  {
    EscapeUpToNul(message);
    EscapeUpToNul(e.1);
    EntriesSnoc(kept, e);
    assert EntriesText([]) == "";
    hide Escape, UpToNul, EntriesText;
    EntryLayout(Header(message), EntriesText(kept), UpToNul(e.0), Escape(UpToNul(e.1)));
  }

  lemma EntryLayout(a: string, b: string, k: string, v: string)
    ensures a + (b + (", \"" + k + "\": \"" + v + "\"")) == a + b + ", \"" + k + "\": \"" + v + "\""
  {
  }

  lemma {:induction false} AsWrittenAt(es: seq<(string, string)>, i: nat)
    requires i < |es|
    ensures |AsWritten(es)| == |es| && AsWritten(es)[i] == (UpToNul(es[i].0), UpToNul(es[i].1))
  {
    if |es| > 1 {
      AsWrittenAt(es[1..], if i > 0 then i - 1 else 0);
    }
  }

  lemma AfterMessage(t: string)
    ensures MESSAGE <= MESSAGE + t && (MESSAGE + t)[|MESSAGE|..] == t
  {
  }

  /** A key with a quote in it breaks its record. */
  lemma {:induction false} QuotedKeyLost(message: string)
    ensures ReadRecord(RecordText(message, [("\"", "v")])) != Some((UpToNul(message), AsWritten([("\"", "v")])))
  {
    var kept := [("\"", "v")];
    assert UpToNul("\"") == "\"" && "\""[0] == '"';
    assert kept[0].0 == "\"";
    assert !CleanKeys(kept);
    hide ReadRecord, RecordText, AsWritten, CleanKeys;
    RecordReadsBackIff(message, kept);
  }

  // ---------------------------------------------------------------- what a record never holds

  ghost predicate Without(s: string, c: char) {
    forall i | 0 <= i < |s| :: s[i] != c
  }

  lemma {:induction false} EscapeWithout(s: string)
    ensures Without(Escape(s), '\n') && Without(Escape(s), '\t')
  {
    if s != "" {
      EscapeWithout(s[1..]);
    }
  }

  lemma WithoutConcat(a: string, b: string, c: char)
    requires Without(a, c) && Without(b, c)
    ensures Without(a + b, c)
  {
  }

  lemma {:induction false} EscapedWithout(s: string, c: char)
    requires c in "\0\n\t"
    ensures Without(UpToNul(Escape(s)), c)
  {
    UpToNulIs(Escape(s));
    EscapeWithout(s);
  }

  lemma {:induction false} RawWithout(s: string, c: char)
    requires c == '\0' || (c in "\n\t" && Clean(UpToNul(s)))
    ensures Without(UpToNul(s), c)
  {
    UpToNulIs(s);
  }

  lemma EntryWithout(e: (string, string), c: char)
    requires c == '\0' || (c in "\n\t" && Clean(UpToNul(e.0)))
    ensures Without(EntryText(e), c)
  {
    RawWithout(e.0, c);
    EscapedWithout(e.1, c);
    hide Clean, Escape, UpToNul;
  }

  lemma {:induction false} EntriesWithout(es: seq<(string, string)>, c: char)
    requires c == '\0' || (c in "\n\t" && CleanKeys(es))
    ensures Without(EntriesText(es), c)
    decreases |es|
  {
    if es != [] {
      var u, e := es[..|es| - 1], es[|es| - 1];
      assert c in "\n\t" ==> CleanKeys(u) && Clean(UpToNul(e.0));
      EntriesWithout(u, c);
      EntryWithout(e, c);
      hide Without, EntryText, CleanKeys, Clean, UpToNul;
      WithoutConcat(EntriesText(u), EntryText(e), c);
    }
  }

  /** No record holds a NUL, so all of it reaches its segment; with clean keys no record holds a raw
      newline or tab either. */
  lemma RecordWithout(message: string, kept: seq<(string, string)>, c: char)
    requires c == '\0' || (c in "\n\t" && CleanKeys(kept))
    ensures Without(RecordText(message, kept), c)
  {
    EntriesWithout(kept, c);
    EscapedWithout(message, c);
    assert Without(MESSAGE, c) && Without("\"", c) && Without(" }", c);
    hide EntriesText, CleanKeys, Escape, UpToNul, Without;
    WithoutConcat(MESSAGE, UpToNul(Escape(message)), c);
    WithoutConcat(MESSAGE + UpToNul(Escape(message)), "\"", c);
    WithoutConcat(Header(message), EntriesText(kept), c);
    WithoutConcat(Header(message) + EntriesText(kept), " }", c);
  }
}
