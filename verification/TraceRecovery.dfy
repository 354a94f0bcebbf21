/** What can be recovered from a record that has been cut to a segment. */
module TraceRecovery {
  import opened Wrappers
  import opened TraceRecord
  import opened TraceRing

  // ---------------------------------------------------------------- a text read is a text escaped

  lemma {:induction false} EscapeCons(c: char, s: string)
    ensures Escape([c] + s) == EscapeChar(c) + Escape(s)
  {
    assert ([c] + s)[1..] == s;
  }

  /** What reading a quoted string consumes is the escaped form of what it gives, and the quote. */
  lemma {:induction false} UnquoteInverts(t: string)
    ensures Unquote(t).Some? ==> t == Escape(Unquote(t).value.0) + "\"" + Unquote(t).value.1
  {
    if Unquote(t).Some? {
      if t[0] == '"' {
        assert t == "\"" + t[1..];
      } else if t[0] == '\\' {
        var c := Unescaped(t[1]).value;
        UnquoteInverts(t[2..]);
        assert t == EscapeChar(c) + t[2..];
        OneMore(c, t[2..]);
      } else {
        UnquoteInverts(t[1..]);
        assert t == EscapeChar(t[0]) + t[1..];
        OneMore(t[0], t[1..]);
      }
    }
  }

  lemma {:induction false} OneMore(c: char, t: string)
    requires Unquote(t).Some? && t == Escape(Unquote(t).value.0) + "\"" + Unquote(t).value.1
    ensures EscapeChar(c) + t == Escape([c] + Unquote(t).value.0) + "\"" + Unquote(t).value.1
  {
    var (d, rest) := Unquote(t).value;
    EscapeCons(c, d);
    hide Unquote, Escape, EscapeChar;
    assert EscapeChar(c) + (Escape(d) + "\"" + rest) == EscapeChar(c) + Escape(d) + "\"" + rest;
  }

  // ---------------------------------------------------------------- how long a text that reads back is

  /** The length of the entries with their keys escaped as well. */
  function EscapedSize(es: seq<(string, string)>): nat {
    if es == [] then 0 else 8 + |Escape(es[0].0)| + |Escape(es[0].1)| + EscapedSize(es[1..])
  }

  lemma {:induction false} UnquoteSize(t: string)
    requires Unquote(t).Some?
    ensures |t| == |Escape(Unquote(t).value.0)| + 1 + |Unquote(t).value.1|
  {
    UnquoteInverts(t);
    hide Unquote, Escape;
  }

  lemma {:induction false} EntriesReadSize(t: string)
    ensures ReadEntries(t).Some? ==> |t| == EscapedSize(ReadEntries(t).value) + 2
    decreases |t|
  {
    if ReadEntries(t).Some? && t != " }" {
      var k := Unquote(t[3..]).value;
      var v := Unquote(k.1[3..]).value;
      UnquoteSize(t[3..]);
      UnquoteSize(k.1[3..]);
      EntriesReadSize(v.1);
      EscapedSizeCons((k.0, v.0), ReadEntries(v.1).value);
      hide Unquote, Escape, EscapedSize;
    }
  }

  lemma {:induction false} EscapedSizeCons(e: (string, string), es: seq<(string, string)>)
    ensures EscapedSize([e] + es) == 8 + |Escape(e.0)| + |Escape(e.1)| + EscapedSize(es)
  {
    assert ([e] + es)[1..] == es;
  }

  lemma {:induction false} RecordReadSize(t: string, m: string, es: seq<(string, string)>)
    requires ReadRecord(t) == Some((m, es))
    ensures |t| == |MESSAGE| + |Escape(m)| + 1 + EscapedSize(es) + 2
  {
    hide Unquote, Escape, EscapedSize, ReadEntries;
    var u := t[|MESSAGE|..];
    UnquoteSize(u);
    EntriesReadSize(Unquote(u).value.1);
  }

  /** A record is no longer than that: its keys are not escaped. */
  lemma {:induction false} EntriesSize(es: seq<(string, string)>)
    ensures |EntriesText(es)| <= EscapedSize(AsWritten(es))
  {
    if es != [] {
      var e := es[0];
      EntriesSize(es[1..]);
      assert es == [e] + es[1..];
      EntriesCons(e, es[1..]);
      EntrySize(e);
      EscapedSizeCons((UpToNul(e.0), UpToNul(e.1)), AsWritten(es[1..]));
      hide EntriesText, EntryText, EscapedSize, Escape, UpToNul;
    }
  }

  lemma {:induction false} EntrySize(e: (string, string))
    ensures |EntryText(e)| <= 8 + |Escape(UpToNul(e.0))| + |Escape(UpToNul(e.1))|
  {
    EscapeUpToNul(e.1);
    EscapeLonger(UpToNul(e.0));
    hide Escape, UpToNul;
  }

  /** A record that has lost even its last character no longer reads back. */
  lemma {:induction false} ShorterLost(message: string, kept: seq<(string, string)>, t: string)
    requires |t| < |RecordText(message, kept)|
    ensures ReadRecord(t) != Some((UpToNul(message), AsWritten(kept)))
  {
    hide EntriesText, Escape, UpToNul, AsWritten, EscapedSize, ReadRecord;
    RecordParts(message, kept);
    EntriesSize(kept);
    if ReadRecord(t) == Some((UpToNul(message), AsWritten(kept))) {
      RecordReadSize(t, UpToNul(message), AsWritten(kept));
    }
  }

  /** What the ring keeps of a record reads back to the message and the entries exactly when the record
      is shorter than a segment and the keys kept need no escaping. */
  lemma {:induction false} CutReadsBackIff(message: string, kept: seq<(string, string)>)
    ensures ReadRecord(Cut(RecordText(message, kept))) == Some((UpToNul(message), AsWritten(kept))) <==>
            |RecordText(message, kept)| < SEGMENT && CleanKeys(kept)
  {
    hide ReadRecord, RecordText, AsWritten, CleanKeys, UpToNul;
    if |RecordText(message, kept)| < SEGMENT {
      RecordReadsBackIff(message, kept);
    } else {
      ShorterLost(message, kept, Cut(RecordText(message, kept)));
    }
  }

  // ---------------------------------------------------------------- the record that just does not fit

  function Letters(n: nat): (s: string)
    ensures |s| == n
  {
    seq(n, i => 'a')
  }

  /** A message of 495 letters makes a record of 512 characters, which the record builder admits; a
      segment keeps 511 of them, and the closing brace is lost. */
  lemma {:induction false} FullSegmentLost()
    ensures |RecordText(Letters(495), [])| == SEGMENT && LongestPrefix(Letters(495), [], [])
    ensures ReadRecord(Cut(RecordText(Letters(495), []))) != Some((UpToNul(Letters(495)), AsWritten([])))
  {
    var m := Letters(495);
    PlainText(m);
    assert |RecordText(m, [])| == SEGMENT by {
      assert EntriesText([]) == "";
      hide Escape, UpToNul, Letters;
    }
    hide ReadRecord, RecordText, AsWritten, Letters, UpToNul;
    CutReadsBackIff(m, []);
  }

  lemma {:induction false} PlainText(m: string)
    requires Clean(m) && NoNul(m)
    ensures Escape(m) == m && UpToNul(m) == m
  {
    CleanIffUnchanged(m);
    CutAtNul(m, |m|);
    assert m[..|m|] == m;
  }
}
