/** Any number of callers in `trace` at once: one interlocked increment each, then the characters one
    by one. */
module TraceThreads {
  import opened TraceRecord
  import opened TraceRing

  /** A caller between its increment and its last byte. */
  datatype Writer = Writer(spot: nat, text: string, next: nat)

  /** `records` holds the record of every call in the order of the increments; `writers` are the calls
      not yet finished, under their numbers in that order. */
  datatype Ring = Ring(lock: nat, memory: seq<char>, records: seq<string>, writers: map<nat, Writer>)

  ghost predicate Init(s: Ring) {
    s == Ring(0, s.memory, [], map[]) && |s.memory| == TOTAL && forall a | 0 <= a < TOTAL :: s.memory[a] == '\0'
  }

  datatype Step = Enter(record: string) | Put(i: nat) | End(i: nat)

  ghost predicate NextEnter(s: Ring, s': Ring, record: string) {
    var lock := Incremented(s.lock);
    && Without(record, '\0')
    && s' == Ring(lock, s.memory, s.records + [record], s.writers[|s.records| := Writer(SaveSpot(lock), Cut(record), 0)])
  }

  ghost predicate NextPut(s: Ring, s': Ring, i: nat) {
    && i in s.writers
    && var w := s.writers[i];
    && w.next < |w.text| && w.spot + w.next < |s.memory|
    && s' == s.(memory := s.memory[w.spot + w.next := w.text[w.next]], writers := s.writers[i := w.(next := w.next + 1)])
  }

  ghost predicate NextEnd(s: Ring, s': Ring, i: nat) {
    && i in s.writers
    && var w := s.writers[i];
    && w.next == |w.text| && w.spot + w.next < |s.memory|
    && s' == s.(memory := s.memory[w.spot + w.next := '\0'], writers := s.writers - {i})
  }

  ghost predicate Next(s: Ring, s': Ring, step: Step) {
    match step
    case Enter(record) => NextEnter(s, s', record)
    case Put(i) => NextPut(s, s', i)
    case End(i) => NextEnd(s, s', i)
  }

  // ---------------------------------------------------------------- however the calls overlap

  ghost predicate WriterOk(s: Ring, i: nat)
    requires i in s.writers
  {
    var w := s.writers[i];
    i < |s.records| && w.spot == SEGMENT * (i % SEGMENTS) && w.text == Cut(s.records[i]) &&
    w.next <= |w.text| < SEGMENT && Without(w.text, '\0')
  }

  /** Every write is inside the segment of its own call, and every segment is terminated at every moment. */
  ghost predicate Contained(s: Ring) {
    && |s.memory| == TOTAL
    && s.lock == |s.records| % WORD
    && Terminated(s.memory)
    && forall i <- s.writers :: WriterOk(s, i)
  }

  lemma InitContained(s: Ring)
    requires Init(s)
    ensures Contained(s)
  {
  }

  lemma StepContained(s: Ring, s': Ring, step: Step)
    requires Contained(s) && Next(s, s', step)
    ensures Contained(s')
  {
    hide Contained, NextEnter, NextPut, NextEnd;
    match step
    case Enter(record) => EnterContained(s, s', record);
    case Put(i) => PutContained(s, s', i);
    case End(i) => EndContained(s, s', i);
  }

  lemma EnterContained(s: Ring, s': Ring, record: string)
    requires Contained(s) && NextEnter(s, s', record)
    ensures Contained(s')
  {
    hide Terminated;
    TicketSlot(|s.records|);
    forall i <- s'.writers ensures WriterOk(s', i) {
      if i in s.writers && i != |s.records| {
        assert WriterOk(s, i);
      }
    }
  }

  lemma PutContained(s: Ring, s': Ring, i: nat)
    requires Contained(s) && NextPut(s, s', i)
    ensures Contained(s')
  {
    hide Terminated;
    assert WriterOk(s, i);
    OtherWritersOk(s, s', i);
    StillTerminated(s.memory, s'.memory, i % SEGMENTS, s.writers[i].next, s.writers[i].text[s.writers[i].next]);
  }

  lemma EndContained(s: Ring, s': Ring, i: nat)
    requires Contained(s) && NextEnd(s, s', i)
    ensures Contained(s')
  {
    hide Terminated;
    assert WriterOk(s, i);
    OtherWritersOk(s, s', i);
    StillTerminated(s.memory, s'.memory, i % SEGMENTS, s.writers[i].next, '\0');
  }

  /** The next byte of a call, the closing NUL included, goes inside the segment of that call. */
  lemma WritesInOwnSegment(s: Ring, i: nat)
    requires Contained(s) && i in s.writers
    ensures var w := s.writers[i];
            SEGMENT * (i % SEGMENTS) <= w.spot + w.next < SEGMENT * (i % SEGMENTS + 1) <= |s.memory|
    ensures exists step, s' :: (step == Put(i) || step == End(i)) && Next(s, s', step)
  {
    assert WriterOk(s, i);
    var w := s.writers[i];
    if w.next < |w.text| {
      assert Next(s, s.(memory := s.memory[w.spot + w.next := w.text[w.next]], writers := s.writers[i := w.(next := w.next + 1)]), Put(i));
    } else {
      assert Next(s, s.(memory := s.memory[w.spot + w.next := '\0'], writers := s.writers - {i}), End(i));
    }
  }

  lemma OtherWritersOk(s: Ring, s': Ring, i: nat)
    requires forall j <- s.writers :: WriterOk(s, j)
    requires s'.records == s.records
    requires forall j <- s'.writers :: j in s.writers && (j != i ==> s'.writers[j] == s.writers[j])
    requires i in s'.writers ==> WriterOk(s', i)
    ensures forall j <- s'.writers :: WriterOk(s', j)
  {
    forall j <- s'.writers ensures WriterOk(s', j) {
      assert WriterOk(s, j);
    }
  }

  lemma StillTerminated(before: seq<char>, after: seq<char>, k: nat, at: nat, c: char)
    requires |before| == TOTAL && Terminated(before) && k < SEGMENTS && at < SEGMENT
    requires at < SEGMENT - 1 || c == '\0'
    requires after == before[SEGMENT * k + at := c]
    ensures Terminated(after)
  {
  }

  // ---------------------------------------------------------------- calls that do not lag a whole turn behind

  /** No call is still writing when 4096 later ones have begun. */
  ghost predicate Prompt(s: Ring) {
    forall i <- s.writers :: |s.records| <= i + SEGMENTS
  }

  /** What an unfinished call has written is there; the slots nobody is writing hold their newest record. */
  ghost predicate Settled(s: Ring)
    requires Contained(s)
  {
    && (forall i <- s.writers :: InPlace(s, i))
    && (forall k | 0 <= k < SEGMENTS && Idle(s, k) :: TextAt(s.memory, k) == SlotText(s.records, k))
  }

  ghost predicate InPlace(s: Ring, i: nat)
    requires Contained(s) && i in s.writers
  {
    var w := s.writers[i];
    assert WriterOk(s, i);
    s.memory[w.spot..w.spot + w.next] == w.text[..w.next]
  }

  ghost predicate Idle(s: Ring, k: nat) {
    forall i <- s.writers :: i % SEGMENTS != k
  }

  ghost predicate Inv(s: Ring) {
    Contained(s) && Prompt(s) && Settled(s)
  }

  lemma InitInv(s: Ring)
    requires Init(s)
    ensures Inv(s)
  {
    ZeroHolds(s.memory);
  }

  /** Prompt calls write to different slots. */
  lemma OwnSlot(s: Ring, i: nat, j: nat)
    requires Contained(s) && Prompt(s) && i in s.writers && j in s.writers && i != j
    ensures i % SEGMENTS != j % SEGMENTS
  {
    assert WriterOk(s, i) && WriterOk(s, j);
    if i < j { SlotsApart(i, j); } else { SlotsApart(j, i); }
  }

  lemma EnterInv(s: Ring, s': Ring, record: string)
    requires Inv(s) && NextEnter(s, s', record) && Prompt(s')
    ensures Contained(s') && Settled(s')
  {
    hide TextAt, Cut, Terminated, SlotText;
    EnterContained(s, s', record);
    forall i <- s.writers ensures i < |s.records| {
      assert WriterOk(s, i);
    }
    forall i <- s'.writers ensures InPlace(s', i) {
      if i in s.writers {
        assert InPlace(s, i);
      }
    }
    hide InPlace, WriterOk;
    forall k | 0 <= k < SEGMENTS && Idle(s', k) ensures TextAt(s'.memory, k) == SlotText(s'.records, k) {
      IdleBefore(s, s', record, k);
      SlotSnoc(s.records, record, k);
    }
  }

  /** A slot that is idle after a call has entered was idle before and is not the slot of that call. */
  lemma IdleBefore(s: Ring, s': Ring, record: string, k: nat)
    requires NextEnter(s, s', record) && Idle(s', k)
    ensures Idle(s, k) && k != |s.records| % SEGMENTS
  {
    assert |s.records| in s'.writers;
    forall i <- s.writers ensures i % SEGMENTS != k {
      assert i in s'.writers;
    }
  }

  /** A byte written by call `i` leaves what another call has written alone. */
  lemma OtherInPlace(s: Ring, s': Ring, i: nat, j: nat, at: nat, c: char)
    requires Contained(s) && Prompt(s) && Contained(s') && i in s.writers && at < SEGMENT
    requires s'.memory == s.memory[SEGMENT * (i % SEGMENTS) + at := c]
    requires j in s.writers && j in s'.writers && j != i && s'.writers[j] == s.writers[j] && InPlace(s, j)
    ensures InPlace(s', j)
  {
    hide Terminated;
    OwnSlot(s, i, j);
    assert WriterOk(s, j);
    hide Prompt, WriterOk, Cut;
    var w := s.writers[j];
    assert s'.memory[w.spot..w.spot + w.next] == s.memory[w.spot..w.spot + w.next];
  }

  /** Nor does it change what another segment reads as. */
  lemma OthersKept(s: Ring, s': Ring, i: nat, at: nat, c: char)
    requires Inv(s) && Contained(s') && i in s.writers && at < SEGMENT
    requires s'.memory == s.memory[SEGMENT * (i % SEGMENTS) + at := c] && s'.records == s.records
    requires forall j <- s'.writers :: j in s.writers && (j != i ==> s'.writers[j] == s.writers[j])
    requires forall j <- s.writers :: j != i ==> j in s'.writers
    ensures forall j <- s'.writers :: j != i ==> InPlace(s', j)
    ensures forall k | 0 <= k < SEGMENTS && k != i % SEGMENTS && Idle(s', k) :: TextAt(s'.memory, k) == SlotText(s'.records, k)
  {
    hide Terminated, TextAt, SlotText, Cut, InPlace, Prompt, WriterOk;
    forall j <- s'.writers | j != i ensures InPlace(s', j) {
      OtherInPlace(s, s', i, j, at, c);
    }
    forall k | 0 <= k < SEGMENTS && k != i % SEGMENTS && Idle(s', k) ensures TextAt(s'.memory, k) == SlotText(s'.records, k) {
      StillIdle(s, s', i, k);
      UnchangedText(s.memory, s'.memory, k);
    }
  }

  lemma StillIdle(s: Ring, s': Ring, i: nat, k: nat)
    requires forall j <- s.writers :: j != i ==> j in s'.writers
    requires k != i % SEGMENTS && Idle(s', k)
    ensures Idle(s, k)
  {
    forall j <- s.writers ensures j % SEGMENTS != k {
      assert j == i || j in s'.writers;
    }
  }

  lemma PutInv(s: Ring, s': Ring, i: nat)
    requires Inv(s) && NextPut(s, s', i)
    ensures Contained(s') && Settled(s')
  {
    PutContained(s, s', i);
    hide Terminated, TextAt, SlotText, Cut;
    assert WriterOk(s, i) && InPlace(s, i);
    var w := s.writers[i];
    OthersKept(s, s', i, w.next, w.text[w.next]);
    OneMore(s.memory, s'.memory, w.spot, w.text, w.next);
    assert InPlace(s', i);
    hide InPlace, WriterOk, Prompt;
    assert !Idle(s', i % SEGMENTS);
  }

  lemma OneMore(before: seq<char>, after: seq<char>, spot: nat, text: string, n: nat)
    requires n < |text| && spot + n < |before| && before[spot..spot + n] == text[..n]
    requires after == before[spot + n := text[n]]
    ensures after[spot..spot + n + 1] == text[..n + 1]
  {
    assert after[spot..spot + n] == before[spot..spot + n];
    assert after[spot..spot + n + 1] == after[spot..spot + n] + [text[n]];
    assert text[..n + 1] == text[..n] + [text[n]];
  }

  lemma {:induction false} FinishedSlot(s: Ring, s': Ring, i: nat)
    requires Inv(s) && NextEnd(s, s', i)
    ensures |s'.memory| == TOTAL && TextAt(s'.memory, i % SEGMENTS) == SlotText(s'.records, i % SEGMENTS)
  {
    hide Terminated, TextAt, SlotText, Cut, Newest;
    assert WriterOk(s, i) && InPlace(s, i);
    var w, k := s.writers[i], i % SEGMENTS;
    assert w.text[..w.next] == w.text;
    assert s'.memory[w.spot..w.spot + w.next] == s.memory[w.spot..w.spot + w.next];
    WrittenText(s'.memory, k, w.text);
    SlotHoldsNewest(s.records, k);
    RecentIsNewest(|s.records|, i);
  }

  lemma EndInv(s: Ring, s': Ring, i: nat)
    requires Inv(s) && NextEnd(s, s', i)
    ensures Contained(s') && Settled(s')
  {
    EndContained(s, s', i);
    FinishedSlot(s, s', i);
    hide Terminated, TextAt, SlotText, Cut, Prompt;
    assert WriterOk(s, i);
    OthersKept(s, s', i, s.writers[i].next, '\0');
    hide InPlace, Idle, WriterOk;
  }

  lemma StepInv(s: Ring, s': Ring, step: Step)
    requires Inv(s) && Next(s, s', step) && Prompt(s')
    ensures Inv(s')
  {
    match step
    case Enter(record) => EnterInv(s, s', record);
    case Put(i) => PutInv(s, s', i);
    case End(i) => EndInv(s, s', i);
  }

  // ---------------------------------------------------------------- whole runs

  ghost predicate Run(states: seq<Ring>, steps: seq<Step>) {
    && |states| == |steps| + 1 && Init(states[0])
    && forall n | 0 <= n < |steps| :: Next(states[n], states[n + 1], steps[n])
  }

  /** In every run every segment is terminated at every moment and no write leaves its segment. */
  lemma {:induction false} RunContained(states: seq<Ring>, steps: seq<Step>, n: nat)
    requires Run(states, steps) && n <= |steps|
    ensures Contained(states[n])
  {
    if n == 0 {
      InitContained(states[0]);
    } else {
      RunContained(states, steps, n - 1);
      StepContained(states[n - 1], states[n], steps[n - 1]);
    }
  }

  /** In a run whose calls are prompt, whenever nobody is writing the ring holds exactly what the same
      calls made one after another, in the order of their tickets, would have left. */
  lemma {:induction false} RunInv(states: seq<Ring>, steps: seq<Step>, n: nat)
    requires Run(states, steps) && n <= |steps|
    requires forall m | 0 <= m <= n :: Prompt(states[m])
    ensures Inv(states[n])
    ensures states[n].writers == map[] ==> Holds(states[n].memory, states[n].records)
  {
    if n == 0 {
      InitInv(states[0]);
    } else {
      RunInv(states, steps, n - 1);
      StepInv(states[n - 1], states[n], steps[n - 1]);
    }
    var s := states[n];
    if s.writers == map[] {
      forall k | 0 <= k < SEGMENTS ensures TextAt(s.memory, k) == SlotText(s.records, k) {
        assert Idle(s, k);
      }
    }
  }
}
