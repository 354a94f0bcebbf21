/** The trace ring: a fixed number of segments, written in turn under a wrapping 32-bit ticket. */
module TraceRing {
  import opened TraceRecord

  const SEGMENTS: nat := 4096
  const TOTAL: nat := SEGMENTS * SEGMENT
  const WORD: nat := 0x1_0000_0000

  // ---------------------------------------------------------------- tickets

  /** The counter after an interlocked increment. */
  function Incremented(lock: nat): nat {
    (lock + 1) % WORD
  }

  /** Where the caller that was given ticket `t` writes. */
  function SaveSpot(t: nat): nat {
    var pos := t % SEGMENTS;
    SEGMENT * ((if pos == 0 then SEGMENTS else pos) - 1)
  }

  /** Call number `i`, counted from nought, gets slot `i % 4096`, on either side of a wrap of the counter. */
  lemma TicketSlot(i: nat)
    ensures Incremented(i % WORD) == (i + 1) % WORD
    ensures SaveSpot((i + 1) % WORD) == SEGMENT * (i % SEGMENTS)
  {
    NextTicket(i);
    WrapKeepsSlot(i + 1);
    NextSlot(i);
  }

  lemma NextTicket(i: nat)
    ensures (i % WORD + 1) % WORD == (i + 1) % WORD
  {
    var q, r := i / WORD, i % WORD;
    if r + 1 == WORD {
      assert i + 1 == (q + 1) * WORD;
    } else {
      assert i + 1 == q * WORD + (r + 1);
    }
  }

  /** The number of tickets is a multiple of the number of segments. */
  lemma WrapKeepsSlot(t: nat)
    ensures t % WORD % SEGMENTS == t % SEGMENTS
  {
    var q, r := t / WORD, t % WORD;
    assert t == (q * 0x10_0000 + r / SEGMENTS) * SEGMENTS + r % SEGMENTS;
  }

  lemma NextSlot(i: nat)
    ensures (i + 1) % SEGMENTS == if i % SEGMENTS == SEGMENTS - 1 then 0 else i % SEGMENTS + 1
  {
  }

  /** Two calls share a slot exactly when a multiple of 4096 calls apart, so any 4096 calls in a row
      write to different slots. */
  lemma SameSlotIff(i: nat, j: nat)
    requires i <= j
    ensures SaveSpot((i + 1) % WORD) == SaveSpot((j + 1) % WORD) <==> (j - i) % SEGMENTS == 0
    ensures i < j < i + SEGMENTS ==> SaveSpot((i + 1) % WORD) != SaveSpot((j + 1) % WORD)
  {
    TicketSlot(i);
    TicketSlot(j);
    SlotsApart(i, j);
  }

  lemma SlotsApart(i: nat, j: nat)
    requires i <= j
    ensures i % SEGMENTS == j % SEGMENTS <==> (j - i) % SEGMENTS == 0
    ensures i < j < i + SEGMENTS ==> i % SEGMENTS != j % SEGMENTS
  {
  }

  // ---------------------------------------------------------------- what a slot ought to hold

  /** What is kept of a record. */
  function Cut(record: string): string {
    if |record| >= SEGMENT then record[..SEGMENT - 1] else record
  }

  /** The newest record written to slot `k`, cut; the empty text if there is none. */
  function SlotText(records: seq<string>, k: nat): string {
    if records == [] then ""
    else if (|records| - 1) % SEGMENTS == k then Cut(records[|records| - 1])
    else SlotText(records[..|records| - 1], k)
  }

  /** The call whose record slot `k` holds after `n` calls. */
  function Newest(n: nat, k: nat): int {
    if k < n % SEGMENTS then n - n % SEGMENTS + k else n - n % SEGMENTS - SEGMENTS + k
  }

  lemma {:induction false} SlotHoldsNewest(records: seq<string>, k: nat)
    requires k < SEGMENTS
    ensures Newest(|records|, k) < |records|
    ensures SlotText(records, k) ==
            if Newest(|records|, k) < 0 then "" else Cut(records[Newest(|records|, k)])
  {
    var n := |records|;
    if n > 0 {
      SlotHoldsNewest(records[..n - 1], k);
      NextSlot(n - 1);
    }
  }

  /** A call fewer than 4096 calls back is the newest one of its slot. */
  lemma RecentIsNewest(n: nat, i: nat)
    requires i < n <= i + SEGMENTS
    ensures Newest(n, i % SEGMENTS) == i
  {
  }

  // ---------------------------------------------------------------- the memory

  /** `Safe::strlen` and the text it delimits. */
  function TextAt(memory: seq<char>, k: nat): string
    requires |memory| == TOTAL && k < SEGMENTS
  {
    UpToNul(memory[SEGMENT * k..SEGMENT * (k + 1)])
  }

  /** The last byte of every segment stays NUL. */
  ghost predicate Terminated(memory: seq<char>)
    requires |memory| == TOTAL
  {
    forall k | 0 <= k < SEGMENTS :: memory[SEGMENT * k + (SEGMENT - 1)] == '\0'
  }

  lemma {:induction false} CutAtNul(s: string, i: nat)
    requires i <= |s| && NoNul(s[..i]) && (i == |s| || s[i] == '\0')
    ensures UpToNul(s) == s[..i]
  {
    assert s == s[..i] + s[i..];
    UpToNulConcat(s[..i], s[i..]);
    assert s[..i] + "" == s[..i];
  }

  /** A terminated text at the front of a segment is what the segment reads as. */
  lemma WrittenText(memory: seq<char>, k: nat, text: string)
    requires |memory| == TOTAL && k < SEGMENTS && |text| < SEGMENT && Without(text, '\0')
    requires memory[SEGMENT * k..SEGMENT * k + |text|] == text && memory[SEGMENT * k + |text|] == '\0'
    ensures TextAt(memory, k) == text
  {
    var s := memory[SEGMENT * k..SEGMENT * (k + 1)];
    assert s[..|text|] == memory[SEGMENT * k..SEGMENT * k + |text|];
    CutAtNul(s, |text|);
  }

  lemma UnchangedText(before: seq<char>, after: seq<char>, k: nat)
    requires |before| == |after| == TOTAL && k < SEGMENTS
    requires forall a | SEGMENT * k <= a < SEGMENT * (k + 1) :: after[a] == before[a]
    ensures TextAt(after, k) == TextAt(before, k)
  {
    assert before[SEGMENT * k..SEGMENT * (k + 1)] == after[SEGMENT * k..SEGMENT * (k + 1)];
  }

  /** Every slot reads as the newest record written to it. */
  ghost predicate Holds(memory: seq<char>, records: seq<string>)
    requires |memory| == TOTAL
  {
    forall k | 0 <= k < SEGMENTS :: TextAt(memory, k) == SlotText(records, k)
  }

  lemma ZeroHolds(memory: seq<char>)
    requires |memory| == TOTAL && forall a | 0 <= a < TOTAL :: memory[a] == '\0'
    ensures Holds(memory, []) && Terminated(memory)
  {
    forall k | 0 <= k < SEGMENTS ensures TextAt(memory, k) == SlotText([], k) {
      WrittenText(memory, k, "");
    }
  }

  lemma WriteHolds(before: seq<char>, after: seq<char>, records: seq<string>, record: string)
    requires |before| == |after| == TOTAL && Holds(before, records) && Terminated(before)
    requires Without(record, '\0')
    requires var at, text := SEGMENT * (|records| % SEGMENTS), Cut(record);
             after[at..at + |text|] == text && after[at + |text|] == '\0' &&
             forall a | 0 <= a < at || at + |text| < a < TOTAL :: after[a] == before[a]
    ensures Holds(after, records + [record]) && Terminated(after)
  {
    hide TextAt, SlotText, Cut;
    CutFits(record);
    forall k | 0 <= k < SEGMENTS ensures TextAt(after, k) == SlotText(records + [record], k) {
      SlotSnoc(records, record, k);
      if k == |records| % SEGMENTS {
        WrittenText(after, k, Cut(record));
      } else {
        UnchangedText(before, after, k);
      }
    }
  }

  function FirstChars(s: string, n: nat): string {
    s[..if |s| < n then |s| else n]
  }

  /** A record keeps its first 511 characters, all of them if it has no more. */
  lemma CutIs(record: string)
    ensures Cut(record) == FirstChars(record, 511)
  {
  }

  lemma CutFits(record: string)
    requires Without(record, '\0')
    ensures |Cut(record)| < SEGMENT && Without(Cut(record), '\0')
  {
  }

  lemma {:induction false} SlotSnoc(records: seq<string>, record: string, k: nat)
    ensures SlotText(records + [record], k) == if k == |records| % SEGMENTS then Cut(record) else SlotText(records, k)
  {
    assert (records + [record])[..|records|] == records;
  }

  /** The segment just written reads as the first 511 characters of its record. */
  lemma NewestReads(memory: seq<char>, records: seq<string>, record: string)
    requires |memory| == TOTAL && Holds(memory, records + [record])
    ensures TextAt(memory, |records| % SEGMENTS) == FirstChars(record, 511)
  {
    hide SlotText, TextAt, FirstChars;
    SlotSnoc(records, record, |records| % SEGMENTS);
    CutIs(record);
  }

  ghost predicate NoEmptyRecord(records: seq<string>) {
    forall i | 0 <= i < |records| :: records[i] != ""
  }

  lemma OneMoreRecord(records: seq<string>, record: string)
    requires NoEmptyRecord(records) && record != ""
    ensures NoEmptyRecord(records + [record])
  {
  }

  // ---------------------------------------------------------------- TracerStorage

  class TracerStorage {
    const memory: array<char>
    var lock: nat
    /** The records of all the calls so far. */
    ghost var records: seq<string>

    ghost predicate Valid()
      reads this, memory
    {
      && memory.Length == TOTAL
      && lock == |records| % WORD
      && Holds(memory[..], records)
      && Terminated(memory[..])
      && NoEmptyRecord(records)
    }

    /** The mapping starts as zeros. */
    constructor ()
      ensures Valid() && fresh(memory) && records == []
    {
      memory := new char[TOTAL](i => '\0');
      lock := 0;
      records := [];
      new;
      ZeroHolds(memory[..]);
    }

    /** `trace`: the record goes to the caller's own segment, and nothing else changes. */
    method Trace(message: string, es: seq<(string, string)>) returns (kept: seq<(string, string)>)
      requires Valid()
      modifies this, memory
      ensures Valid()
      ensures LongestPrefix(message, kept, NonEmpty(es))
      ensures records == old(records) + [RecordText(message, kept)]
      ensures lock == Incremented(old(lock)) && SaveSpot(lock) == SEGMENT * (|old(records)| % SEGMENTS)
      ensures TextAt(memory[..], |old(records)| % SEGMENTS) == FirstChars(RecordText(message, kept), 511)
      ensures forall a | 0 <= a < TOTAL && !(SaveSpot(lock) <= a < SaveSpot(lock) + SEGMENT) :: memory[a] == old(memory[a])
    {
      hide LongestPrefix, RecordText, NonEmpty, Holds, Terminated, TextAt, FirstChars, NoEmptyRecord;
      var formatted;
      formatted, kept := FormatTrace(message, es);
      RecordWithout(message, kept, '\0');
      RecordNotEmpty(message, kept);
      TicketSlot(|records|);
      lock := Incremented(lock);
      var spot := SaveSpot(lock);
      var limit := |formatted|;
      if limit >= SEGMENT {
        limit := SEGMENT - 1;
      }
      CutAtNul(formatted[..limit], limit);
      CopyInto(spot, formatted, limit);
      WriteHolds(old(memory[..]), memory[..], old(records), formatted);
      NewestReads(memory[..], old(records), formatted);
      OneMoreRecord(old(records), formatted);
      records := records + [formatted];
    }

    /** `Safe::strncpy`: up to `limit` characters or to the first NUL, and a NUL after them. */
    method CopyInto(spot: nat, text: string, limit: nat)
      requires limit <= |text| && spot + limit < memory.Length
      modifies memory
      ensures var w := UpToNul(text[..limit]);
              memory[spot..spot + |w|] == w && memory[spot + |w|] == '\0' &&
              forall a | 0 <= a < spot || spot + |w| < a < memory.Length :: memory[a] == old(memory[a])
    {
      var i := 0;
      while i < limit && text[i] != '\0'
        invariant i <= limit
        invariant NoNul(text[..i])
        invariant memory[spot..spot + i] == text[..i]
        invariant forall a | 0 <= a < spot || spot + i <= a < memory.Length :: memory[a] == old(memory[a])
      {
        memory[spot + i] := text[i];
        assert memory[spot..spot + i + 1] == memory[spot..spot + i] + [text[i]];
        assert text[..i + 1] == text[..i] + [text[i]];
        i := i + 1;
      }
      memory[spot + i] := '\0';
      CutAtNul(text[..limit], i);
      assert text[..limit][..i] == text[..i];
    }
  }
}
