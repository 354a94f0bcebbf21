/** The crash uploader's dump of the trace ring, and what the dump says of the calls. */
module TraceDump {
  import opened Wrappers
  import opened TraceRecord
  import opened TraceRing
  import opened TraceRecovery

  // ---------------------------------------------------------------- the list in the dump

  /** The segments with text in them among the first `k`, in order. */
  function Texts(memory: seq<char>, k: nat): seq<string>
    requires |memory| == TOTAL && k <= SEGMENTS
  {
    if k == 0 then [] else
      Texts(memory, k - 1) + if TextAt(memory, k - 1) == "" then [] else [TextAt(memory, k - 1)]
  }

  function Items(rs: seq<string>): string {
    if rs == [] then "" else
      Items(rs[..|rs| - 1]) + (if |rs| == 1 then "\n\t" else ",\n\t") + rs[|rs| - 1]
  }

  function DumpText(rs: seq<string>): string {
    "[" + Items(rs) + "\n]"
  }

  lemma {:induction false} ItemsSnoc(rs: seq<string>, r: string)
    ensures Items(rs + [r]) == Items(rs) + (if rs == [] then "\n\t" else ",\n\t") + r
  {
    assert (rs + [r])[..|rs|] == rs;
  }

  /** `DumpTracerToFile`, with what it hands to its callback put together. */
  method DumpTracerToFile(data: array<char>) returns (out: string)
    requires data.Length == TOTAL
    ensures out == DumpText(Texts(data[..], SEGMENTS))
  {
    hide Items, TextAt;
    ghost var memory := data[..];
    out := "[";
    var first := true;
    var x := 0;
    ghost var k := 0;
    assert "[" + Items([]) == "[" by { NoItems(); }
    while x < TOTAL
      invariant k <= SEGMENTS && x == SEGMENT * k
      invariant out == "[" + Items(Texts(memory, k))
      invariant first <==> Texts(memory, k) == []
      decreases TOTAL - x
    {
      var text := UpToNul(data[x..x + SEGMENT]);
      assert text == TextAt(memory, k) by { SameSegment(memory, k); }
      if |text| > 0 {
        ItemsSnoc(Texts(memory, k), text);
        Associate3("[", Items(Texts(memory, k)), if first then "\n\t" else ",\n\t", text);
        if !first {
          out := out + ",\n\t";
        } else {
          out := out + "\n\t";
        }
        out := out + text;
        first := false;
        assert Texts(memory, k + 1) == Texts(memory, k) + [text];
      } else {
        assert Texts(memory, k + 1) == Texts(memory, k);
      }
      x := x + SEGMENT;
      k := k + 1;
    }
    out := out + "\n]";
  }

  lemma Associate3(a: string, b: string, c: string, d: string)
    ensures a + (b + c + d) == a + b + c + d
  {
  }

  lemma NoItems()
    ensures Items([]) == ""
  {
  }

  lemma SameSegment(memory: seq<char>, k: nat)
    requires |memory| == TOTAL && k < SEGMENTS
    ensures UpToNul(memory[SEGMENT * k..SEGMENT * k + SEGMENT]) == TextAt(memory, k)
  {
  }

  // ---------------------------------------------------------------- what is in the ring

  function Cuts(records: seq<string>): seq<string> {
    seq(|records|, i requires 0 <= i < |records| => Cut(records[i]))
  }

  /** The last 4096 records, cut, starting with those of the slots written last time round. */
  function InSlotOrder(records: seq<string>): seq<string> {
    var n := |records|;
    var k := n % SEGMENTS;
    if n <= SEGMENTS then Cuts(records) else Cuts(records[n - k..]) + Cuts(records[n - SEGMENTS..n - k])
  }

  function SlotTexts(records: seq<string>, k: nat): seq<string> {
    seq(k, j requires 0 <= j < k => SlotText(records, j))
  }

  /** The slots below `k`, as long as all of them have been written, hold text. */
  lemma {:induction false} WrittenSlots(memory: seq<char>, records: seq<string>, k: nat)
    requires |memory| == TOTAL && k <= SEGMENTS && Holds(memory, records) && NoEmptyRecord(records)
    requires k <= |records|
    ensures Texts(memory, k) == SlotTexts(records, k)
  {
    hide SlotText, TextAt, NoEmptyRecord;
    if k > 0 {
      WrittenSlots(memory, records, k - 1);
      FullSlot(records, k - 1);
      assert TextAt(memory, k - 1) == SlotText(records, k - 1);
      assert SlotTexts(records, k) == SlotTexts(records, k - 1) + [SlotText(records, k - 1)];
    }
  }

  lemma {:induction false} FullSlot(records: seq<string>, k: nat)
    requires k < SEGMENTS && k < |records| && NoEmptyRecord(records)
    ensures SlotText(records, k) != ""
  {
    SlotHoldsNewest(records, k);
  }

  /** The slots after the last one written in the first round hold none. */
  lemma {:induction false} UnwrittenSlots(memory: seq<char>, records: seq<string>, k: nat)
    requires |memory| == TOTAL && Holds(memory, records) && |records| <= k <= SEGMENTS
    ensures Texts(memory, k) == Texts(memory, |records|)
    decreases k
  {
    hide SlotText, TextAt, Cut;
    if k > |records| {
      UnwrittenSlots(memory, records, k - 1);
      SlotHoldsNewest(records, k - 1);
      assert TextAt(memory, k - 1) == SlotText(records, k - 1) == "";
    }
  }

  lemma FirstRound(records: seq<string>)
    requires |records| <= SEGMENTS
    ensures SlotTexts(records, |records|) == Cuts(records)
  {
    forall j | 0 <= j < |records| ensures SlotText(records, j) == Cut(records[j]) {
      SlotHoldsNewest(records, j);
    }
  }

  lemma OrderedAt(records: seq<string>, j: nat)
    requires |records| >= SEGMENTS && j < SEGMENTS
    ensures var i := Newest(|records|, j);
            |InSlotOrder(records)| == SEGMENTS && 0 <= i < |records| && InSlotOrder(records)[j] == Cut(records[i])
  {
    hide Cut;
  }

  /** The slots in order are the last 4096 records, the newest round first. */
  lemma SlotsInOrder(records: seq<string>)
    requires |records| >= SEGMENTS
    ensures SlotTexts(records, SEGMENTS) == InSlotOrder(records)
  {
    hide SlotText, InSlotOrder, Newest;
    var slots := SlotTexts(records, SEGMENTS);
    forall j | 0 <= j < SEGMENTS ensures |InSlotOrder(records)| == SEGMENTS && slots[j] == InSlotOrder(records)[j] {
      SlotHoldsNewest(records, j);
      OrderedAt(records, j);
    }
    OrderedAt(records, 0);
  }

  /** After any number of calls the dump is the list of exactly the last 4096 records, or of all of
      them if they are fewer, each cut to what a segment holds, in the order of their slots. */
  lemma {:induction false} DumpIs(memory: seq<char>, records: seq<string>)
    requires |memory| == TOTAL && Holds(memory, records) && NoEmptyRecord(records)
    ensures Texts(memory, SEGMENTS) == InSlotOrder(records)
    ensures |InSlotOrder(records)| == if |records| < SEGMENTS then |records| else SEGMENTS
  {
    if |records| >= SEGMENTS {
      WrittenSlots(memory, records, SEGMENTS);
      SlotsInOrder(records);
    } else {
      UnwrittenSlots(memory, records, SEGMENTS);
      WrittenSlots(memory, records, |records|);
      FirstRound(records);
    }
  }

  /** Every record in the list is one of the last 4096, and each of those is there once. */
  lemma DumpPlaces(records: seq<string>, i: nat)
    requires i < |records| <= i + SEGMENTS
    ensures var place := if |records| <= SEGMENTS then i else i % SEGMENTS;
            place < |InSlotOrder(records)| && InSlotOrder(records)[place] == Cut(records[i])
  {
    var n := |records|;
    if n > SEGMENTS {
      RecentIsNewest(n, i);
      SlotsInOrder(records);
      SlotHoldsNewest(records, i % SEGMENTS);
    }
  }

  /** An empty dump, a dump of one record, and what one more record adds. */
  lemma {:induction false} DumpLayout(rs: seq<string>, r: string, q: string)
    ensures DumpText([]) == "[\n]" && DumpText([r]) == "[\n\t" + r + "\n]"
    ensures exists open: string :: DumpText(rs + [r]) == open + "\n]" && DumpText(rs + [r] + [q]) == open + ",\n\t" + q + "\n]"
  {
    NoItems();
    ItemsSnoc([], r);
    assert [] + [r] == [r];
    ItemsSnoc(rs + [r], q);
    hide Items;
    var open := "[" + Items(rs + [r]);
    assert "[" + ("" + "\n\t" + r) + "\n]" == "[\n\t" + r + "\n]";
    assert DumpText(rs + [r]) == open + "\n]";
    Associate3("[", Items(rs + [r]), ",\n\t", q);
    assert DumpText(rs + [r] + [q]) == open + ",\n\t" + q + "\n]";
  }

  // ---------------------------------------------------------------- reading a dump

  /** The place of the first newline. */
  function Newline(t: string): (r: nat)
    ensures r <= |t|
  {
    if t == "" || t[0] == '\n' then 0 else 1 + Newline(t[1..])
  }

  /** The items, from after the first opening newline and tab on. */
  function ReadItems(t: string): Option<seq<string>>
    decreases |t|
  {
    var n := Newline(t);
    if t[n..] == "\n]" then Some([t[..n]])
    else if n == 0 || t[n - 1] != ',' || !("\n\t" <= t[n..]) then None
    else
      var rest := ReadItems(t[n + 2..]);
      if rest.None? then None else Some([t[..n - 1]] + rest.value)
  }

  function ReadDump(t: string): Option<seq<string>> {
    if t == "[\n]" then Some([])
    else if "[\n\t" <= t then ReadItems(t[3..])
    else None
  }

  function ItemsFrom(rs: seq<string>): string
    requires rs != []
    decreases |rs|
  {
    if |rs| == 1 then rs[0] + "\n]" else rs[0] + (",\n\t" + ItemsFrom(rs[1..]))
  }

  lemma ItemsFromOne(r: string)
    ensures ItemsFrom([r]) == r + "\n]"
  {
  }

  lemma {:induction false} ItemsFromCons(r: string, rs: seq<string>)
    requires rs != []
    ensures ItemsFrom([r] + rs) == r + (",\n\t" + ItemsFrom(rs))
  {
    assert ([r] + rs)[1..] == rs;
  }

  lemma {:induction false} ItemsSplit(a: seq<string>, r: string, b: seq<string>)
    ensures Items(a + [r] + b) + "\n]" == Items(a) + ((if a == [] then "\n\t" else ",\n\t") + ItemsFrom([r] + b))
    decreases |b|
  {
    hide Items, ItemsFrom;
    ItemsSnoc(a, r);
    var sep := if a == [] then "\n\t" else ",\n\t";
    if b == [] {
      assert a + [r] + b == a + [r] && [r] + b == [r];
      ItemsFromOne(r);
      Regroup(Items(a), sep, r, "\n]");
    } else {
      SplitFirst(b);
      ItemsSplit(a + [r], b[0], b[1..]);
      Reassociate(a + [r], b);
      ItemsFromCons(r, b);
      Regroup(Items(a), sep, r, ",\n\t" + ItemsFrom(b));
    }
  }

  lemma SplitFirst(b: seq<string>)
    requires b != []
    ensures [b[0]] + b[1..] == b
  {
  }

  lemma Reassociate(a: seq<string>, b: seq<string>)
    requires b != []
    ensures a + [b[0]] + b[1..] == a + b
  {
  }

  lemma Regroup(a: string, b: string, c: string, d: string)
    ensures a + b + c + d == a + (b + (c + d))
  {
  }

  lemma {:induction false} DumpIsItems(rs: seq<string>)
    requires rs != []
    ensures DumpText(rs) == "[\n\t" + ItemsFrom(rs)
  {
    hide Items, ItemsFrom;
    NoItems();
    SplitFirst(rs);
    ItemsSplit([], rs[0], rs[1..]);
    assert [] + [rs[0]] + rs[1..] == rs;
    var t := ItemsFrom(rs);
    assert "" + ("\n\t" + t) == "\n\t" + t;
    assert "[" + Items(rs) + "\n]" == "[" + (Items(rs) + "\n]");
    assert "[" + ("\n\t" + t) == "[\n\t" + t;
  }

  lemma {:induction false} NewlineAt(r: string, rest: string)
    requires Without(r, '\n') && rest != "" && rest[0] == '\n'
    ensures Newline(r + rest) == |r|
  {
    if r == "" {
      assert r + rest == rest;
    } else {
      assert (r + rest)[1..] == r[1..] + rest;
      NewlineAt(r[1..], rest);
    }
  }

  ghost predicate NoNewlines(rs: seq<string>) {
    forall i | 0 <= i < |rs| :: Without(rs[i], '\n')
  }

  lemma {:induction false} ItemsReadBack(rs: seq<string>)
    requires rs != [] && NoNewlines(rs)
    ensures ReadItems(ItemsFrom(rs)) == Some(rs)
    decreases |rs|
  {
    SplitFirst(rs);
    if |rs| == 1 {
      LastItem(rs[0]);
      assert rs == [rs[0]];
    } else {
      ItemsReadBack(rs[1..]);
      ItemThenRest(rs[0], ItemsFrom(rs[1..]), ItemsFrom(rs));
      hide ReadItems;
    }
  }

  lemma {:induction false} LastItem(r: string)
    requires Without(r, '\n')
    ensures ReadItems(r + "\n]") == Some([r])
  {
    NewlineAt(r, "\n]");
    var t := r + "\n]";
    assert t[|r|..] == "\n]" && t[..|r|] == r;
  }

  lemma {:induction false} ItemThenRest(r: string, rest: string, t: string)
    requires t == r + (",\n\t" + rest) && Without(r, '\n')
    ensures ReadItems(t) == if ReadItems(rest).None? then None else Some([r] + ReadItems(rest).value)
  {
    NewlineAt(r + ",", "\n\t" + rest);
    var n := |r| + 1;
    assert r + "," + ("\n\t" + rest) == t;
    assert t[n..] == "\n\t" + rest && t[n + 1] == '\t';
    assert t[n - 1] == ',' && t[n + 2..] == rest && t[..n - 1] == r;
  }

  lemma {:induction false} NewlineFirst(t: string)
    ensures Without(t[..Newline(t)], '\n')
  {
    if t != "" && t[0] != '\n' {
      NewlineFirst(t[1..]);
      var n := Newline(t);
      assert forall i | 0 < i < n :: t[..n][i] == t[1..][..n - 1][i - 1];
    }
  }

  lemma {:induction false} FrontWithout(t: string, n: nat, m: nat, c: char)
    requires m <= n <= |t| && Without(t[..n], c)
    ensures Without(t[..m], c)
  {
    forall i | 0 <= i < m ensures t[..m][i] != c {
      assert t[..m][i] == t[..n][i];
    }
  }

  lemma {:induction false} OneMoreItem(r: string, rest: seq<string>)
    requires Without(r, '\n') && NoNewlines(rest)
    ensures NoNewlines([r]) && NoNewlines([r] + rest)
  {
    hide Without;
  }

  /** Nothing that is read has a newline in it. */
  lemma {:induction false} ItemsReadNoNewlines(t: string)
    ensures ReadItems(t).Some? ==> NoNewlines(ReadItems(t).value)
    decreases |t|
  {
    assert NoNewlines([]);
    hide Without, NoNewlines, Newline;
    var n := Newline(t);
    NewlineFirst(t);
    OneMoreItem(t[..n], []);
    if ReadItems(t).Some? && t[n..] != "\n]" {
      ItemsReadNoNewlines(t[n + 2..]);
      FrontWithout(t, n, n - 1, '\n');
      OneMoreItem(t[..n - 1], ReadItems(t[n + 2..]).value);
    }
  }

  /** A dump reads back as its list exactly when nothing in it has a newline, whatever commas or
      brackets there are. */
  lemma {:induction false} DumpReadsBackIff(rs: seq<string>)
    ensures ReadDump(DumpText(rs)) == Some(rs) <==> NoNewlines(rs)
  {
    if rs == [] {
      NoItems();
      assert DumpText(rs) == "[\n]";
    } else {
      DumpIsItems(rs);
      var t := DumpText(rs);
      assert t[3..] == ItemsFrom(rs) && t[2] == '\t';
      hide ReadItems, NoNewlines, ItemsFrom, DumpText;
      ItemsReadNoNewlines(t[3..]);
      if NoNewlines(rs) {
        ItemsReadBack(rs);
      }
    }
  }

  // ---------------------------------------------------------------- end to end

  /** Tracing any number of calls and dumping the ring gives the list of the records still in it. */
  method DumpAfter(messages: seq<(string, seq<(string, string)>)>) returns (out: string, calls: seq<Call>)
    ensures |calls| == |messages| && forall i | 0 <= i < |calls| :: Answers(calls[i], messages[i])
    ensures out == DumpText(InSlotOrder(Records(calls)))
  {
    hide Texts, DumpText, InSlotOrder, RecordText, Answers, TextAt, SaveSpot, FirstChars, Holds, Terminated, NoEmptyRecord;
    var storage := new TracerStorage();
    calls := [];
    for n := 0 to |messages|
      invariant storage.Valid() && fresh(storage) && fresh(storage.memory) && storage.records == Records(calls)
      invariant |calls| == n && forall i | 0 <= i < n :: Answers(calls[i], messages[i])
    {
      var kept := storage.Trace(messages[n].0, messages[n].1);
      RecordsSnoc(calls, Call(messages[n].0, kept));
      AnswersNext(messages[n], kept);
      calls := calls + [Call(messages[n].0, kept)];
    }
    out := DumpTracerToFile(storage.memory);
    DumpIs(storage.memory[..], storage.records);
  }

  /** The call is about the message and keeps the longest prefix of its entries that fits. */
  ghost predicate Answers(call: Call, m: (string, seq<(string, string)>)) {
    call.message == m.0 && LongestPrefix(m.0, call.kept, NonEmpty(m.1))
  }

  lemma AnswersNext(m: (string, seq<(string, string)>), kept: seq<(string, string)>)
    requires LongestPrefix(m.0, kept, NonEmpty(m.1))
    ensures Answers(Call(m.0, kept), m)
  {
  }

  lemma RecordsSnoc(calls: seq<Call>, c: Call)
    ensures Records(calls + [c]) == Records(calls) + [RecordText(c.message, c.kept)]
  {
  }

  /** One call of `trace`: its message and the entries that its record keeps. */
  datatype Call = Call(message: string, kept: seq<(string, string)>)

  function Records(calls: seq<Call>): seq<string> {
    seq(|calls|, i requires 0 <= i < |calls| => RecordText(calls[i].message, calls[i].kept))
  }

  /** None of the records still in the ring has a newline in what is kept of it. */
  ghost predicate RecentNoNewlines(records: seq<string>) {
    forall i | 0 <= i < |records| <= i + SEGMENTS :: Without(Cut(records[i]), '\n')
  }

  lemma {:induction false} SlotOrderNoNewlines(records: seq<string>)
    ensures NoNewlines(InSlotOrder(records)) <==> RecentNoNewlines(records)
  {
    hide Cut, Without;
    var n, k := |records|, |records| % SEGMENTS;
    if RecentNoNewlines(records) {
      if n > SEGMENTS {
        CutsNoNewlines(records, n - k, n);
        CutsNoNewlines(records, n - SEGMENTS, n - k);
        assert records[n - k..n] == records[n - k..];
      } else {
        CutsNoNewlines(records, 0, n);
        assert records[0..n] == records;
      }
    }
    if NoNewlines(InSlotOrder(records)) {
      hide InSlotOrder;
      forall i | 0 <= i < n <= i + SEGMENTS ensures Without(Cut(records[i]), '\n') {
        DumpPlaces(records, i);
      }
    }
  }

  lemma CutsNoNewlines(records: seq<string>, i: nat, j: nat)
    requires RecentNoNewlines(records) && i <= j <= |records| <= i + SEGMENTS
    ensures NoNewlines(Cuts(records[i..j]))
  {
    hide Cut;
    assert forall k | 0 <= k < j - i :: Cuts(records[i..j])[k] == Cut(records[i + k]);
  }

  lemma RecordsNotEmpty(calls: seq<Call>)
    ensures NoEmptyRecord(Records(calls))
  {
    forall i | 0 <= i < |calls| ensures Records(calls)[i] != "" {
      RecordNotEmpty(calls[i].message, calls[i].kept);
    }
  }

  /** The place of call `i` in the dump after `n` calls. */
  function Place(n: nat, i: nat): nat {
    if n <= SEGMENTS then i else i % SEGMENTS
  }

  /** The dump of the ring has, for each of the last 4096 calls, at the place of its slot, its record cut
      to a segment. It reads back as that list exactly if nothing in it has a newline. What stands at
      the place of a call reads back to its message and entries exactly if its record is shorter than
      a segment and its keys need no escaping. */
  lemma {:induction false} DumpTellsTraces(memory: seq<char>, calls: seq<Call>, i: nat)
    requires |memory| == TOTAL && Holds(memory, Records(calls)) && i < |calls| <= i + SEGMENTS
    ensures var list, place := InSlotOrder(Records(calls)), Place(|calls|, i);
            && (ReadDump(DumpText(Texts(memory, SEGMENTS))) == Some(list) <==> RecentNoNewlines(Records(calls)))
            && place < |list| == (if |calls| < SEGMENTS then |calls| else SEGMENTS)
            && list[place] == FirstChars(RecordText(calls[i].message, calls[i].kept), 511)
            && (ReadRecord(list[place]) == Some((UpToNul(calls[i].message), AsWritten(calls[i].kept))) <==>
                |RecordText(calls[i].message, calls[i].kept)| < SEGMENT && CleanKeys(calls[i].kept))
  {
    hide RecordText, ReadDump, DumpText, Texts, InSlotOrder, ReadRecord, Holds, CleanKeys, RecentNoNewlines, AsWritten, UpToNul;
    RecordsNotEmpty(calls);
    DumpIs(memory, Records(calls));
    SlotOrderNoNewlines(Records(calls));
    DumpReadsBackIff(InSlotOrder(Records(calls)));
    DumpPlaces(Records(calls), i);
    CutReadsBackIff(calls[i].message, calls[i].kept);
    CutIs(RecordText(calls[i].message, calls[i].kept));
  }

  /** Call `i` is still in the ring after `n` calls. */
  predicate Recent(n: nat, i: int) {
    0 <= i < n <= i + SEGMENTS
  }

  /** Clean keys keep newlines out. */
  lemma CleanRecentNoNewlines(calls: seq<Call>)
    requires forall i | Recent(|calls|, i) :: CleanKeys(calls[i].kept)
    ensures RecentNoNewlines(Records(calls))
  {
    hide CleanKeys, RecordText;
    forall i | 0 <= i < |calls| <= i + SEGMENTS ensures Without(Cut(Records(calls)[i]), '\n') {
      assert Recent(|calls|, i);
      RecordWithout(calls[i].message, calls[i].kept, '\n');
    }
  }

  /** Call `i` is told by the list of records in the dump. */
  ghost predicate Told(list: seq<string>, calls: seq<Call>, i: int)
    requires Recent(|calls|, i)
  {
    Place(|calls|, i) < |list| &&
    ReadRecord(list[Place(|calls|, i)]) == Some((UpToNul(calls[i].message), AsWritten(calls[i].kept)))
  }

  /** The whole dump gives back the last 4096 calls exactly if all of their records are shorter than a
      segment and all of their keys need no escaping. */
  lemma {:induction false} DumpTellsAllIff(memory: seq<char>, calls: seq<Call>)
    requires |memory| == TOTAL && Holds(memory, Records(calls))
    ensures var list := InSlotOrder(Records(calls));
            (ReadDump(DumpText(Texts(memory, SEGMENTS))) == Some(list) && forall i | Recent(|calls|, i) :: Told(list, calls, i)) <==>
            (forall i | Recent(|calls|, i) :: |RecordText(calls[i].message, calls[i].kept)| < SEGMENT && CleanKeys(calls[i].kept))
  {
    hide RecordText, ReadDump, DumpText, Texts, InSlotOrder, ReadRecord, Holds, CleanKeys, RecentNoNewlines, AsWritten, UpToNul, Place;
    var list := InSlotOrder(Records(calls));
    forall i | Recent(|calls|, i)
      ensures Told(list, calls, i) <==> |RecordText(calls[i].message, calls[i].kept)| < SEGMENT && CleanKeys(calls[i].kept)
    {
      DumpTellsTraces(memory, calls, i);
    }
    if forall i | Recent(|calls|, i) :: CleanKeys(calls[i].kept) {
      CleanRecentNoNewlines(calls);
      RecordsNotEmpty(calls);
      DumpIs(memory, Records(calls));
      SlotOrderNoNewlines(Records(calls));
      DumpReadsBackIff(list);
    }
  }
}
