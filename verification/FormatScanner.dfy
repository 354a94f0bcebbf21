/** `Template::FormatString` in its own form: nested loops that erase from the format and from each
    placeholder and append to the result. */
module FormatScanner {
  import opened Wrappers
  import opened FormatSpec
  import opened FormatMeaning

  // ---------------------------------------------------------------- the inner scan that may not end

  /** The state of one of the three loops over a placeholder: the result so far, what is left of the
      placeholder, and the characters collected. */
  datatype Scan = Scan(ret: string, temp: string, temp2: string)

  predicate Scanning(s: Scan, stops: string) {
    s.temp != "" && s.temp[0] !in stops
  }

  /** One turn of such a loop: a character that is not allowed is reported and not consumed. */
  function ScanTurn(s: Scan, ok: char -> bool, orig: string): Scan
    requires s.temp != ""
  {
    if !ok(s.temp[0]) then s.(ret := s.ret + Braced(orig))
    else Scan(s.ret, s.temp[1..], s.temp2 + [s.temp[0]])
  }

  function Turns(s: Scan, stops: string, ok: char -> bool, orig: string, n: nat): Scan
    decreases n
  {
    if n == 0 || !Scanning(s, stops) then s else Turns(ScanTurn(s, ok, orig), stops, ok, orig, n - 1)
  }

  lemma {:induction false} StuckForever(s: Scan, stops: string, ok: char -> bool, orig: string, n: nat)
    requires Scanning(s, stops) && !ok(s.temp[0])
    ensures Turns(s, stops, ok, orig, n).temp == s.temp
    decreases n
  {
    if n > 0 {
      StuckForever(ScanTurn(s, ok, orig), stops, ok, orig, n - 1);
    }
  }

  lemma {:induction false} ScanReaches(s: Scan, stops: string, ok: char -> bool, orig: string, n: nat)
    requires !All(Before(s.temp, stops), ok)
    ensures Scanning(Turns(s, stops, ok, orig, n), stops)
    decreases n
  {
    BeforeIs(s.temp, stops);
    if ok(s.temp[0]) {
      if n > 0 {
        var b := Before(s.temp, stops);
        assert b == [s.temp[0]] + Before(s.temp[1..], stops);
        ScanReaches(ScanTurn(s, ok, orig), stops, ok, orig, n - 1);
      }
    } else {
      StuckForever(s, stops, ok, orig, n);
    }
  }

  lemma AllCons(c: char, b: string, ok: char -> bool)
    ensures All([c] + b, ok) <==> ok(c) && All(b, ok)
  {
    assert ([c] + b)[0] == c && forall i | 0 <= i < |b| :: ([c] + b)[i + 1] == b[i];
  }

  lemma {:induction false} ScanFinishes(s: Scan, stops: string, ok: char -> bool, orig: string)
    requires All(Before(s.temp, stops), ok)
    ensures var r := Turns(s, stops, ok, orig, |s.temp|);
            !Scanning(r, stops) && r.ret == s.ret && r.temp2 == s.temp2 + Before(s.temp, stops)
    decreases |s.temp|
  {
    if Scanning(s, stops) {
      var c, b := s.temp[0], Before(s.temp[1..], stops);
      AllCons(c, b, ok);
      var next := ScanTurn(s, ok, orig);
      ScanFinishes(next, stops, ok, orig);
      assert Turns(s, stops, ok, orig, |s.temp|) == Turns(next, stops, ok, orig, |s.temp| - 1);
      hide All, Turns;
      assert s.temp2 + [c] + b == s.temp2 + ([c] + b);
    } else {
      assert s.temp2 + "" == s.temp2;
    }
  }

  /** The loop ends, however many turns it is given, exactly when every character before the next
      stop is allowed. */
  lemma ScanEndsIff(s: Scan, stops: string, ok: char -> bool, orig: string)
    ensures (exists n: nat :: !Scanning(Turns(s, stops, ok, orig, n), stops)) <==> All(Before(s.temp, stops), ok)
  {
    if All(Before(s.temp, stops), ok) {
      ScanFinishes(s, stops, ok, orig);
    } else {
      forall n: nat ensures Scanning(Turns(s, stops, ok, orig, n), stops) {
        ScanReaches(s, stops, ok, orig, n);
      }
    }
  }

  /** One of the three loops. None means that it never ends. */
  method ScanWhile(temp: string, stops: string, ok: char -> bool) returns (temp2: Option<string>, rest: string)
    ensures temp2.Some? <==> All(Before(temp, stops), ok)
    ensures temp2.Some? ==> temp2.value == Before(temp, stops) && rest == temp[|temp2.value|..]
  {
    rest := temp;
    var taken := "";
    while |rest| > 0 && rest[0] !in stops
      invariant |taken| <= |temp| && taken == temp[..|taken|] && rest == temp[|taken|..]
      invariant forall i | 0 <= i < |taken| :: taken[i] !in stops && ok(taken[i])
      decreases |rest|
    {
      if !ok(rest[0]) {
        BeforeIs(temp, stops);
        assert Before(temp, stops)[|taken|] == rest[0];
        return None, rest;
      }
      taken := taken + [rest[0]];
      rest := rest[1..];
    }
    assert taken + rest == temp;
    BeforeAll(taken, stops, rest);
    temp2 := Some(taken);
  }

  // ---------------------------------------------------------------- placeholders

  /** The width and the precision are read alike: `mark`, then digits up to a character of `stops`.
      None means that the loop never ends. */
  method NumberClause(temp: string, mark: char, stops: string) returns (n: Option<nat>, rest: string)
    ensures if |temp| > 1 && temp[0] == mark then
              var w := Before(temp[1..], stops);
              (n.Some? <==> All(w, IsDigit)) && (n.Some? ==> n.value == Size(w) && rest == temp[1 + |w|..])
            else n == Some(UNSET) && rest == temp
  {
    hide Atoi, All;
    if |temp| > 1 && temp[0] == mark {
      var temp2, r := ScanWhile(temp[1..], stops, IsDigit);
      if temp2.None? {
        return None, temp;
      }
      n := Some(if |temp2.value| > 0 then Atoi(temp2.value) else UNSET);
      assert temp[1..][|temp2.value|..] == temp[1 + |temp2.value|..];
      rest := r;
    } else {
      return Some(UNSET), temp;
    }
  }

  method TypeClause(temp: string, len: nat, per: nat) returns (spec: Spec)
    ensures spec == ParseType(temp, len, per)
  {
    hide TypeOf, All;
    var ty := NoType;
    if |temp| > 1 && temp[0] == ':' {
      var temp2, rest := ScanWhile(temp[1..], ":", IsAlnum);
      if temp2.None? {
        return Stuck;
      }
      ty := TypeOf(temp2.value);
    }
    spec := Spec(ty, len, per);
  }

  /** The part of the outer loop that deals with the text between two braces. */
  method Placeholder(orig: string, args: seq<Arg>) returns (g: Outcome)
    ensures g == RenderGroup(orig, args)
  {
    hide All, Before, Size, ParseType;
    if |orig| == 0 || !IsDigit(orig[0]) || DigitValue(orig[0]) >= |args| {
      return Done("{" + orig + "}");
    }
    var arg := DigitValue(orig[0]);
    assert IsHole(orig, |args|);
    var temp := orig[1..];
    var len, temp1 := NumberClause(temp, ',', ".:");
    if len.None? {
      assert ParseSpec(orig[1..]) == Stuck;
      return Diverges;
    }
    assert ParseSpec(orig[1..]) == ParsePrecision(temp1, len.value);
    var per, temp2 := NumberClause(temp1, '.', ":");
    if per.None? {
      assert ParsePrecision(temp1, len.value) == Stuck;
      return Diverges;
    }
    assert ParsePrecision(temp1, len.value) == ParseType(temp2, len.value, per.value);
    var spec := TypeClause(temp2, len.value, per.value);
    if spec.Stuck? {
      return Diverges;
    }
    g := Done(args[arg](spec.ty, spec.len, spec.per));
  }

  // ---------------------------------------------------------------- the scanner

  method FormatString(format: string, args: seq<Arg>) returns (out: Outcome)
    ensures out == Meaning(format, args)
  {
    hide Meaning, Then, RenderGroup, NoGroup;
    var t, ret := format, "";
    ThenNothing(Meaning(t, args));
    while |t| > 0
      invariant Meaning(format, args) == Then(ret, Meaning(t, args))
      decreases |t|
    {
      if |t| == 1 {
        Ended(ret, t, args);
        ret := ret + [t[0]];
        return Done(ret);
      }
      if t[0] == '{' {
        var temp := "";
        ghost var before := t;
        t := t[1..];
        assert before == "{" + temp + t;
        while t[0] != '}'
          invariant |t| > 0 && |t| < |before| && BraceFree(temp)
          invariant Meaning(format, args) == Then(ret, Meaning("{" + temp + t, args))
          decreases |t|
        {
          if t[0] == '{' {
            // some other bracket pair was opened before: what was read is plain text
            Reopened(ret, temp, t, args);
            ret := ret + "{" + temp;
            temp := "";
          } else {
            assert "{" + temp + t == "{" + (temp + [t[0]]) + t[1..];
            temp := temp + [t[0]];
          }
          t := t[1..];
          if |t| == 0 {
            assert "{" + temp + t == "{" + temp;
            Ended(ret, "{" + temp, args);
            assert ret + ("{" + temp) == ret + "{" + temp;
            ret := ret + "{" + temp;
            return Done(ret);
          }
        }
        assert t == "}" + t[1..];
        t := t[1..];
        Closed(ret, temp, t, args);
        var g := Placeholder(temp, args);
        if g.Diverges? {
          return Diverges;
        }
        ret := ret + g.text;
      } else {
        Copied(ret, t, args);
        ret := ret + [t[0]];
        t := t[1..];
      }
    }
    Ended(ret, t, args);
    assert ret + "" == ret;
    out := Done(ret);
  }

  lemma ThenNothing(o: Outcome)
    ensures Then("", o) == o
  {
    if o.Done? {
      assert "" + o.text == o.text;
    }
  }

  lemma Ended(ret: string, t: string, args: seq<Arg>)
    requires forall i | 1 <= i < |t| :: t[i] != '{' && t[i] != '}'
    ensures Then(ret, Meaning(t, args)) == Done(ret + t)
  {
    PlainMeaning(t, args);
  }

  lemma Reopened(ret: string, temp: string, t: string, args: seq<Arg>)
    requires BraceFree(temp) && t != "" && t[0] == '{'
    ensures Then(ret, Meaning("{" + temp + t, args)) == Then(ret + "{" + temp, Meaning("{" + "" + t[1..], args))
  {
    assert "{" + "" + t[1..] == t;
    CopiedPrefix("{" + temp, t, args);
    ThenThen(ret, "{" + temp, Meaning(t, args));
    assert ret + ("{" + temp) == ret + "{" + temp;
  }

  lemma Closed(ret: string, temp: string, rest: string, args: seq<Arg>)
    requires BraceFree(temp)
    ensures var g := RenderGroup(temp, args);
            Then(ret, Meaning("{" + temp + ("}" + rest), args)) ==
            if g.Diverges? then Diverges else Then(ret + g.text, Meaning(rest, args))
  {
    assert "{" + temp + ("}" + rest) == Braced(temp) + rest;
    FrontGroup(temp, rest, args);
    var g := RenderGroup(temp, args);
    if g.Done? {
      ThenThen(ret, g.text, Meaning(rest, args));
    }
  }

  lemma Copied(ret: string, t: string, args: seq<Arg>)
    requires t != "" && t[0] != '{'
    ensures Then(ret, Meaning(t, args)) == Then(ret + [t[0]], Meaning(t[1..], args))
  {
    assert t == [t[0]] + t[1..];
    CopiedPrefix([t[0]], t[1..], args);
    ThenThen(ret, [t[0]], Meaning(t[1..], args));
  }
}
