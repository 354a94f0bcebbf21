/** What one operation of one thread does, from the step that starts it to the step that ends it, under
    any interleaving: the changes it queues, the dispatches it makes, and the migrations it completes. */
module EventOperations {
  import opened Wrappers
  import opened EventFold
  import opened EventThreads

  /** What a thread has done: its log entries, its dispatches, and the lists its migrations left;
      `busy` is whether it tried for the main lock and found it taken. */
  datatype Deeds = Deeds(entries: seq<Entry>, calls: seq<Dispatched>, settled: seq<seq<Del>>, busy: bool)

  const NOTHING := Deeds([], [], [], false)

  /** What `after` has at its end that `before` has not. */
  function Added<T(==)>(before: seq<T>, after: seq<T>): seq<T> {
    if before <= after then after[|before|..] else []
  }

  function Then(d: Deeds, s: State, t: nat, r: State): Deeds
    requires t < |s.pcs|
  {
    Deeds(d.entries + Added(s.log, r.log), d.calls + Added(s.history, r.history),
          if s.pcs[t].Migrated? then d.settled + [s.live] else d.settled,
          d.busy || (s.pcs[t].TryMain? && s.main.Some?))
  }

  /** What thread `t` did in the moves from `j` up to `k`. */
  ghost function Did(run: seq<State>, moves: seq<Move>, t: nat, j: nat, k: nat): Deeds
    requires IsRun(run, moves) && j <= k <= |moves|
    decreases k
  {
    if k == j then NOTHING
    else
      var d := Did(run, moves, t, j, k - 1);
      if moves[k - 1].thread == t then Then(d, run[k - 1], t, run[k]) else d
  }

  // ---------------------------------------------------------------- what each operation is for

  /** One change queued: the clone has the hash and the callback that the caller gave. */
  predicate Queued(entries: seq<Entry>, add: bool, hash: nat, fn: nat) {
    && |entries| == 1 && entries[0].Enter? && entries[0].p.add == add
    && entries[0].p.del.hash == hash && entries[0].p.del.fn == fn
  }

  predicate Logs(cmd: Cmd, entries: seq<Entry>) {
    match cmd
    case Add(hash, fn) => Queued(entries, true, hash, fn)
    case Remove(hash, fn) => Queued(entries, false, hash, fn)
    case Reset => entries == [Cleared]
    case Flush => entries == []
    case Dispatch => entries == []
  }

  /** A finished operation: `+=` and `-=` queue their change and then migrate once unless they found the
      main lock taken, `flush` migrates once, `operator()` calls exactly the list its first migration left and migrates again, `reset`
      clears. */
  predicate Done(cmd: Cmd, d: Deeds) {
    && Logs(cmd, d.entries)
    && match cmd
       case Add(_, _) => d.calls == [] && |d.settled| == if d.busy then 0 else 1
       case Remove(_, _) => d.calls == [] && |d.settled| == if d.busy then 0 else 1
       case Flush => d.calls == [] && |d.settled| == 1
       case Dispatch => |d.settled| == 2 && d.calls == [Dispatched(d.settled[0], d.settled[0])]
       case Reset => d.calls == [] && d.settled == []
  }

  // ---------------------------------------------------------------- and what it has done so far

  /** Before the migration that ends an operation. */
  predicate Closing(cmd: Cmd, d: Deeds) {
    && Logs(cmd, d.entries) && !d.busy
    && match cmd
       case Add(_, _) => d.calls == [] && d.settled == []
       case Remove(_, _) => d.calls == [] && d.settled == []
       case Flush => d.calls == [] && d.settled == []
       case Dispatch => |d.settled| == 1 && d.calls == [Dispatched(d.settled[0], d.settled[0])]
       case Reset => false
  }

  predicate Pushes(add: bool, hash: nat, fn: nat, cmd: Cmd) {
    cmd == if add then Add(hash, fn) else Remove(hash, fn)
  }

  /** A thread that stands at `c` in an operation for `cmd` has done `d`. */
  predicate SoFar(c: PC, cmd: Cmd, d: Deeds) {
    match c
    case Idle => Done(cmd, d)
    case PushWait(add, hash, fn) => Pushes(add, hash, fn, cmd) && d == NOTHING
    case Pushing(add, hash, fn) => Pushes(add, hash, fn, cmd) && d == NOTHING
    case Pushed => (cmd.Add? || cmd.Remove?) && Closing(cmd, d)
    case TryMain => (cmd.Add? || cmd.Remove?) && Closing(cmd, d)
    case MainWait(after) => d == NOTHING && cmd == if after.ThenCall? then Dispatch else Flush
    case MigrateWait(after) => if after.ThenCall? then cmd == Dispatch && d == NOTHING else Closing(cmd, d)
    case Migrating(_, after) => if after.ThenCall? then cmd == Dispatch && d == NOTHING else Closing(cmd, d)
    case Migrated(after) => if after.ThenCall? then cmd == Dispatch && d == NOTHING else Closing(cmd, d)
    case Calling(expected, _) => cmd == Dispatch && d == Deeds([], [], [expected], false)
    case Unlock => Done(cmd, d)
    case ResetWait => cmd == Reset && d == NOTHING
    case ResetList => cmd == Reset && d == NOTHING
    case ResetPendWait(_) => cmd == Reset && d == NOTHING
    case ResetPending(_) => cmd == Reset && d == NOTHING
    case ResetDone => Done(cmd, d) && cmd == Reset
    case ResetClose => Done(cmd, d) && cmd == Reset
  }

  // ---------------------------------------------------------------- step by step

  lemma AddedNothing<T>(a: seq<T>)
    ensures Added(a, a) == [] && forall s: seq<T> :: s + Added(a, a) == s
  {
  }

  lemma AddedOne<T>(a: seq<T>, x: T)
    ensures Added(a, a + [x]) == [x]
  {
  }

  lemma StartSo(s: State, t: nat, cmd: Cmd, r: State)
    requires t < |s.pcs| && t < |r.pcs| && s.pcs[t] == Idle && Next(s, t, cmd) == Some(r)
    ensures SoFar(r.pcs[t], cmd, Then(NOTHING, s, t, r))
  {
    AddedNothing(s.log);
    AddedNothing(s.history);
  }

  lemma PushSo(s: State, t: nat, x: Cmd, r: State, cmd: Cmd, d: Deeds)
    requires t < |s.pcs| && t < |r.pcs| && s.pcs[t] != Idle && InPush(s.pcs[t]) && NextPush(s, t, x) == Some(r) && SoFar(s.pcs[t], cmd, d)
    ensures SoFar(r.pcs[t], cmd, Then(d, s, t, r))
  {
    hide SoFar, NextPush, Then;
    AfterPush(s, t, x, r, d);
    if s.pcs[t].Pushing? {
      PushedSo(s.pcs[t], Then(d, s, t, r).entries, cmd, d);
    } else {
      NothingPushedSo(s.pcs[t], r.pcs[t], s.main.Some?, cmd, d);
    }
  }

  /** One of the other places in `+=` and `-=` follows another; `busy` is whether the main lock is taken. */
  predicate PushFollows(c: PC, c': PC, busy: bool) {
    match c
    case PushWait(add, hash, fn) => c' == Pushing(add, hash, fn)
    case Pushed => c' == TryMain
    case TryMain => c' == if busy then Idle else MigrateWait(ThenUnlock)
    case _ => false
  }

  lemma AfterPush(s: State, t: nat, x: Cmd, r: State, d: Deeds)
    requires t < |s.pcs| && t < |r.pcs| && s.pcs[t] != Idle && InPush(s.pcs[t]) && NextPush(s, t, x) == Some(r)
    ensures var c, d' := s.pcs[t], Then(d, s, t, r);
            if c.Pushing? then r.pcs[t] == PC.Pushed && d' == d.(entries := d'.entries) && (d.entries == [] ==> Queued(d'.entries, c.add, c.hash, c.fn))
            else PushFollows(c, r.pcs[t], s.main.Some?) && d' == d.(busy := d.busy || (c.TryMain? && s.main.Some?))
  {
    AddedNothing(s.log);
    AddedNothing(s.history);
    if s.pcs[t].Pushing? {
      AddedOne(s.log, r.log[|s.log|]);
    }
    hide Added;
  }

  lemma PushedSo(c: PC, entries: seq<Entry>, cmd: Cmd, d: Deeds)
    requires c.Pushing? && SoFar(c, cmd, d) && (d.entries == [] ==> Queued(entries, c.add, c.hash, c.fn))
    ensures SoFar(PC.Pushed, cmd, d.(entries := entries))
  {
  }

  lemma NothingPushedSo(c: PC, c': PC, busy: bool, cmd: Cmd, d: Deeds)
    requires PushFollows(c, c', busy) && SoFar(c, cmd, d)
    ensures SoFar(c', cmd, d.(busy := d.busy || (c.TryMain? && busy)))
  {
  }

  lemma ResetSo(s: State, t: nat, r: State, cmd: Cmd, d: Deeds)
    requires t < |s.pcs| && t < |r.pcs| && !InPush(s.pcs[t]) && !InRun(s.pcs[t]) && NextReset(s, t) == Some(r) && SoFar(s.pcs[t], cmd, d)
    ensures SoFar(r.pcs[t], cmd, Then(d, s, t, r))
  {
    hide SoFar, NextReset, Then;
    AfterReset(s, t, r, d);
    ClearedSo(s.pcs[t], r.pcs[t], cmd, d);
  }

  /** One of the places in `reset` follows another. */
  predicate ResetFollows(c: PC, c': PC) {
    match c
    case ResetWait => c'.ResetList?
    case ResetList => c'.ResetPendWait?
    case ResetPendWait(_) => c'.ResetPending?
    case ResetPending(_) => c'.ResetDone?
    case ResetDone => c'.ResetClose?
    case ResetClose => c'.Unlock?
    case _ => false
  }

  lemma AfterReset(s: State, t: nat, r: State, d: Deeds)
    requires t < |s.pcs| && t < |r.pcs| && !InPush(s.pcs[t]) && !InRun(s.pcs[t]) && NextReset(s, t) == Some(r)
    ensures ResetFollows(s.pcs[t], r.pcs[t])
    ensures Then(d, s, t, r) == if s.pcs[t].ResetPending? then d.(entries := d.entries + [Cleared]) else d
  {
    hide Dels;
    AddedNothing(s.log);
    AddedNothing(s.history);
    AddedOne(s.log, Cleared);
    hide Added;
  }

  lemma ClearedSo(c: PC, c': PC, cmd: Cmd, d: Deeds)
    requires ResetFollows(c, c') && SoFar(c, cmd, d)
    ensures SoFar(c', cmd, if c.ResetPending? then d.(entries := d.entries + [Cleared]) else d)
  {
    hide Pushes, Closing;
  }

  lemma RunSo(s: State, t: nat, r: State, cmd: Cmd, d: Deeds)
    requires Inv(s) && Inv(r) && t < |s.pcs| && t < |r.pcs|
    requires InRun(s.pcs[t]) && NextRun(s, t) == Some(r) && SoFar(s.pcs[t], cmd, d)
    ensures SoFar(r.pcs[t], cmd, Then(d, s, t, r))
  {
    hide Inv, SoFar, NextRun, Then;
    if s.pcs[t].Migrated? {
      MigratedSo(s, t, r, cmd, d);
    } else if s.pcs[t].Calling? {
      CallingSo(s, t, r, cmd, d);
    } else {
      LockingSo(s, t, r, cmd, d);
    }
  }

  lemma MigratedSo(s: State, t: nat, r: State, cmd: Cmd, d: Deeds)
    requires Inv(s) && t < |s.pcs| && t < |r.pcs| && s.pcs[t].Migrated? && NextRun(s, t) == Some(r) && SoFar(s.pcs[t], cmd, d)
    ensures SoFar(r.pcs[t], cmd, Then(d, s, t, r))
  {
    hide SoFar, NextRun, Then, Inv, Value;
    MigrationSettles(s, t);
    AfterMigration(s, t, r, d);
    SettledSo(s.pcs[t], s.live, r.pcs[t], cmd, d);
  }

  lemma AfterMigration(s: State, t: nat, r: State, d: Deeds)
    requires t < |s.pcs| && t < |r.pcs| && s.pcs[t].Migrated? && NextRun(s, t) == Some(r) && s.live == Value(s.log)
    ensures Then(d, s, t, r) == d.(settled := d.settled + [s.live])
    ensures r.pcs[t] == if s.pcs[t].after.ThenCall? then Calling(s.live, []) else Unlock
  {
    hide Value, Change, Dead;
    AddedNothing(s.log);
    AddedNothing(s.history);
    hide Added;
  }

  lemma SettledSo(c: PC, live: seq<Del>, c': PC, cmd: Cmd, d: Deeds)
    requires c.Migrated? && SoFar(c, cmd, d) && c' == if c.after.ThenCall? then Calling(live, []) else Unlock
    ensures SoFar(c', cmd, d.(settled := d.settled + [live]))
  {
    if c.after.ThenCall? {
      assert [] + [live] == [live];
    }
  }

  lemma CallingSo(s: State, t: nat, r: State, cmd: Cmd, d: Deeds)
    requires Inv(r) && t < |s.pcs| && t < |r.pcs| && s.pcs[t].Calling? && NextRun(s, t) == Some(r) && SoFar(s.pcs[t], cmd, d)
    ensures SoFar(r.pcs[t], cmd, Then(d, s, t, r))
  {
    hide SoFar, NextRun, Then, Inv;
    AfterCall(s, t, r, d);
    InHistory(r, Dispatched(s.pcs[t].expected, s.pcs[t].called));
    CalledSo(s.pcs[t], r.pcs[t], cmd, d);
  }

  lemma AfterCall(s: State, t: nat, r: State, d: Deeds)
    requires t < |s.pcs| && t < |r.pcs| && s.pcs[t].Calling? && NextRun(s, t) == Some(r)
    ensures var call := Dispatched(s.pcs[t].expected, s.pcs[t].called);
            if r.pcs[t].Calling? then r.pcs[t].expected == s.pcs[t].expected && Then(d, s, t, r) == d
            else r.pcs[t] == MigrateWait(ThenUnlock) && call in r.history && Then(d, s, t, r) == d.(calls := d.calls + [call])
  {
    hide Value, Change, Dead;
    AddedNothing(s.log);
    AddedNothing(s.history);
    AddedOne(s.history, Dispatched(s.pcs[t].expected, s.pcs[t].called));
    hide Added;
  }

  lemma CalledSo(c: PC, c': PC, cmd: Cmd, d: Deeds)
    requires c.Calling? && SoFar(c, cmd, d)
    ensures c'.Calling? && c'.expected == c.expected ==> SoFar(c', cmd, d)
    ensures c' == MigrateWait(ThenUnlock) && c.called == c.expected ==>
              SoFar(c', cmd, d.(calls := d.calls + [Dispatched(c.expected, c.called)]))
  {
  }

  lemma LockingSo(s: State, t: nat, r: State, cmd: Cmd, d: Deeds)
    requires t < |s.pcs| && t < |r.pcs| && InRun(s.pcs[t]) && !s.pcs[t].Migrated? && !s.pcs[t].Calling?
    requires NextRun(s, t) == Some(r) && SoFar(s.pcs[t], cmd, d)
    ensures SoFar(r.pcs[t], cmd, Then(d, s, t, r))
  {
    AddedNothing(s.log);
    AddedNothing(s.history);
    assert Closing(Flush, NOTHING);
    hide Added, Change, Dead, Value, Done, Closing;
    DoneOrClosing(cmd, d);
  }

  lemma DoneOrClosing(cmd: Cmd, d: Deeds)
    ensures Deeds(d.entries + [], d.calls + [], d.settled, d.busy) == d
  {
    assert d.entries + [] == d.entries && d.calls + [] == d.calls;
  }

  lemma InHistory(r: State, call: Dispatched)
    requires Inv(r)
    ensures call in r.history ==> call.called == call.expected
  {
  }

  lemma StepSo(s: State, t: nat, x: Cmd, r: State, cmd: Cmd, d: Deeds)
    requires Inv(s) && Inv(r) && t < |s.pcs| && t < |r.pcs| && s.pcs[t] != Idle && Next(s, t, x) == Some(r) && SoFar(s.pcs[t], cmd, d)
    ensures SoFar(r.pcs[t], cmd, Then(d, s, t, r))
  {
    hide NextPush, NextRun, NextReset, Inv, SoFar, Then;
    if InPush(s.pcs[t]) {
      PushSo(s, t, x, r, cmd, d);
    } else if InRun(s.pcs[t]) {
      RunSo(s, t, r, cmd, d);
    } else {
      ResetSo(s, t, r, cmd, d);
    }
  }

  // ---------------------------------------------------------------- over runs

  /** Thread `t` starts an operation with move `j` and has not ended it before state `k`. */
  ghost predicate Operation(run: seq<State>, moves: seq<Move>, t: nat, j: nat, k: nat) {
    && IsRun(run, moves) && j < k < |run| && moves[j].thread == t
    && t < |run[j].pcs| && run[j].pcs[t] == Idle
    && forall i | j < i < k :: t < |run[i].pcs| && run[i].pcs[t] != Idle
  }

  lemma {:induction false} OperationSoFar(run: seq<State>, moves: seq<Move>, t: nat, j: nat, k: nat)
    requires Operation(run, moves, t, j, k)
    ensures t < |run[k].pcs| && SoFar(run[k].pcs[t], moves[j].cmd, Did(run, moves, t, j, k))
    decreases k
  {
    hide Next, Inv, SoFar, Then;
    var m := moves[k - 1];
    RunInv(run, moves, k - 1);
    RunInv(run, moves, k);
    LocksOf(run[k - 1]);
    NextMovesLocks(run[k - 1], m.thread, m.cmd, run[k]);
    if j == k - 1 {
      StartSo(run[j], t, m.cmd, run[k]);
      assert Did(run, moves, t, j, j) == NOTHING;
    } else {
      OperationSoFar(run, moves, t, j, k - 1);
      if m.thread == t {
        StepSo(run[k - 1], t, m.cmd, run[k], moves[j].cmd, Did(run, moves, t, j, k - 1));
      }
    }
  }

  /** Whatever other threads do meanwhile, when an operation ends the thread has done exactly what its
      command asks for, once: `+=` has queued an add of a clone with the given hash and callback, `-=`
      a remove, and migrated if the main lock was free, `reset` has cleared, `operator()` has made one dispatch, of the list that its first
      migration left, and `flush` has migrated. */
  lemma {:induction false} OperationDoes(run: seq<State>, moves: seq<Move>, t: nat, j: nat, k: nat)
    requires Operation(run, moves, t, j, k) && t < |run[k].pcs| && run[k].pcs[t] == Idle
    ensures Done(moves[j].cmd, Did(run, moves, t, j, k))
  {
    hide Did, Done;
    OperationSoFar(run, moves, t, j, k);
  }

  /** The lists that migrations leave are the ordered set at that moment. */
  lemma {:induction false} SettledAreValues(run: seq<State>, moves: seq<Move>, t: nat, j: nat, k: nat, n: nat)
    requires IsRun(run, moves) && j <= k <= |moves| && n < |Did(run, moves, t, j, k).settled|
    ensures exists i :: j <= i < k && Did(run, moves, t, j, k).settled[n] == Value(Effects(run, moves, i))
    decreases k
  {
    hide Next, Inv, Value, Effects;
    var d := Did(run, moves, t, j, k - 1);
    if n < |d.settled| {
      SettledAreValues(run, moves, t, j, k - 1, n);
    } else {
      RunInv(run, moves, k - 1);
      MigrationSettles(run[k - 1], t);
      LogIsEffects(run, moves, k - 1);
    }
  }

  /** `m_bCancel` is set exactly while a `reset` is at work, so no dispatch on another thread sees it. */
  lemma CancelIff(run: seq<State>, moves: seq<Move>, k: nat)
    requires IsRun(run, moves) && k < |run|
    ensures run[k].cancel <==> exists t :: 0 <= t < |run[k].pcs| && InReset(run[k].pcs[t])
    ensures forall t | 0 <= t < |run[k].pcs| && run[k].pcs[t].Calling? :: !run[k].cancel
  {
    RunInv(run, moves, k);
    CancelIs(run[k]);
  }

  lemma CancelIs(s: State)
    requires Inv(s)
    ensures s.cancel <==> exists t :: 0 <= t < |s.pcs| && InReset(s.pcs[t])
    ensures forall t | 0 <= t < |s.pcs| && s.pcs[t].Calling? :: !s.cancel
  {
    hide Abstract, Ledger, HistoryExact, Value;
    forall t | 0 <= t < |s.pcs| && (InReset(s.pcs[t]) || s.pcs[t].Calling?) ensures s.main == Some(t) {
      assert HoldsMain(s.pcs[t]);
    }
  }
}
