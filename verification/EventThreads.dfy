/** EventBase under any interleaving of any number of threads, one lock operation or one list update
    a step. Delegates are plain DelegateBase objects, which stay valid, and callbacks do not use the
    event they are called from. */
module EventThreads {
  import opened Wrappers
  import opened EventFold

  /** What a thread holding both locks does once the queue has been moved into the list. */
  datatype After = ThenCall | ThenUnlock

  /** Where a thread stands. */
  datatype PC =
    | Idle
    // `+=` and `-=`
    | PushWait(add: bool, hash: nat, fn: nat)       // about to take the pending lock
    | Pushing(add: bool, hash: nat, fn: nat)        // holds the pending lock
    | Pushed                                        // holds the pending lock, clone queued
    | TryMain                                       // holds nothing, about to try_lock the main lock
    // `operator()`, `flush`, and the migrations of all of them
    | MainWait(after: After)                        // about to take the main lock
    | MigrateWait(after: After)                     // holds the main lock, about to take the pending lock
    | Migrating(i: nat, after: After)               // holds both, `i` entries moved
    | Migrated(after: After)                        // holds both, queue cleared
    | Calling(expected: seq<Del>, called: seq<Del>) // holds the main lock, running callbacks
    | Unlock                                        // about to release the main lock
    // `reset`
    | ResetWait                                     // about to take the main lock
    | ResetList                                     // holds the main lock
    | ResetPendWait(was: seq<Del>)                  // list destroyed, about to take the pending lock
    | ResetPending(was: seq<Del>)                   // holds both
    | ResetDone                                     // holds both, queue destroyed
    | ResetClose                                    // holds the main lock, about to clear m_bCancel

  /** A change to the ordered set, in the order the changes took effect. */
  datatype Entry = Enter(p: Pend) | Cleared

  /** A finished dispatch: the set at its first migration, and the callbacks it ran. */
  datatype Dispatched = Dispatched(expected: seq<Del>, called: seq<Del>)

  datatype State = State(
    live: seq<Del>, pending: seq<Pend>, cancel: bool,
    main: Option<nat>, pend: Option<nat>,          // lock owners
    pcs: seq<PC>,
    log: seq<Entry>,
    history: seq<Dispatched>,
    made: seq<Del>, destroyed: seq<Del>)           // clones queued so far, and those destroyed

  /** What an idle thread starts. */
  datatype Cmd = Dispatch | Flush | Reset | Add(hash: nat, fn: nat) | Remove(hash: nat, fn: nat)

  predicate HoldsMain(c: PC) {
    c.MigrateWait? || c.Migrating? || c.Migrated? || c.Calling? || c.Unlock?
    || c.ResetList? || c.ResetPendWait? || c.ResetPending? || c.ResetDone? || c.ResetClose?
  }

  predicate HoldsPend(c: PC) {
    c.Pushing? || c.Pushed? || c.Migrating? || c.Migrated? || c.ResetPending? || c.ResetDone?
  }

  predicate InReset(c: PC) {
    c.ResetPendWait? || c.ResetPending? || c.ResetDone? || c.ResetClose?
  }

  function At(s: State, t: nat, c: PC): State
    requires t < |s.pcs|
  {
    s.(pcs := s.pcs[t := c])
  }

  function Start(cmd: Cmd): PC {
    match cmd
    case Dispatch => MainWait(ThenCall)
    case Flush => MainWait(ThenUnlock)
    case Reset => ResetWait
    case Add(hash, fn) => PushWait(true, hash, fn)
    case Remove(hash, fn) => PushWait(false, hash, fn)
  }

  predicate InPush(c: PC) {
    c.Idle? || c.PushWait? || c.Pushing? || c.Pushed? || c.TryMain?
  }

  predicate InRun(c: PC) {
    c.MainWait? || c.MigrateWait? || c.Migrating? || c.Migrated? || c.Calling? || c.Unlock?
  }

  /** The next step of thread `t`, or None if it is blocked on a lock. */
  function Next(s: State, t: nat, cmd: Cmd): Option<State>
    requires t < |s.pcs|
  {
    var c := s.pcs[t];
    if InPush(c) then NextPush(s, t, cmd)
    else if InRun(c) then NextRun(s, t)
    else NextReset(s, t)
  }

  /** An idle thread, and the bodies of `+=` and `-=`. */
  function NextPush(s: State, t: nat, cmd: Cmd): Option<State>
    requires t < |s.pcs| && InPush(s.pcs[t])
  {
    match s.pcs[t]
    case Idle => Some(At(s, t, Start(cmd)))
    case PushWait(add, hash, fn) =>
      if s.pend.Some? then None else Some(At(s.(pend := Some(t)), t, Pushing(add, hash, fn)))
    case Pushing(add, hash, fn) =>
      var p := Pend(add, Del(|s.made|, hash, fn));
      Some(At(s.(pending := s.pending + [p], made := s.made + [p.del], log := s.log + [Enter(p)]), t, Pushed))
    case Pushed => Some(At(s.(pend := None), t, TryMain))
    case TryMain =>
      if s.main.Some? then Some(At(s, t, Idle)) else Some(At(s.(main := Some(t)), t, MigrateWait(ThenUnlock)))
  }

  /** `operator()`, `flush` and `migratePending`. */
  function NextRun(s: State, t: nat): Option<State>
    requires t < |s.pcs| && InRun(s.pcs[t])
  {
    match s.pcs[t]
    case MainWait(after) =>
      if s.main.Some? then None else Some(At(s.(main := Some(t)), t, MigrateWait(after)))
    case MigrateWait(after) =>
      if s.pend.Some? then None else Some(At(s.(pend := Some(t)), t, Migrating(0, after)))
    case Migrating(i, after) =>
      if i < |s.pending| then
        var p := s.pending[i];
        Some(At(s.(live := Change(s.live, p), destroyed := s.destroyed + Dead(s.live, p)), t, Migrating(i + 1, after)))
      else
        Some(At(s.(pending := []), t, Migrated(after)))
    case Migrated(after) =>
      Some(At(s.(pend := None), t, if after.ThenCall? then Calling(Value(s.log), []) else Unlock))
    case Calling(expected, called) =>
      if |called| < |s.live| && !(called != [] && s.cancel) then
        Some(At(s, t, Calling(expected, called + [s.live[|called|]])))
      else
        Some(At(s.(history := s.history + [Dispatched(expected, called)]), t, MigrateWait(ThenUnlock)))
    case Unlock => Some(At(s.(main := None), t, Idle))
  }

  /** `reset`. */
  function NextReset(s: State, t: nat): Option<State>
    requires t < |s.pcs| && !InPush(s.pcs[t]) && !InRun(s.pcs[t])
  {
    match s.pcs[t]
    case ResetWait =>
      if s.main.Some? then None else Some(At(s.(main := Some(t)), t, ResetList))
    case ResetList =>
      Some(At(s.(cancel := true, destroyed := s.destroyed + s.live, live := []), t, ResetPendWait(s.live)))
    case ResetPendWait(was) =>
      if s.pend.Some? then None else Some(At(s.(pend := Some(t)), t, ResetPending(was)))
    case ResetPending(_) =>
      Some(At(s.(destroyed := s.destroyed + Dels(s.pending), pending := [], log := s.log + [Cleared]), t, ResetDone))
    case ResetDone => Some(At(s.(pend := None), t, ResetClose))
    case ResetClose => Some(At(s.(cancel := false), t, Unlock))
  }

  // ---------------------------------------------------------------- the sequential meaning

  /** The ordered set after the logged changes, applied one at a time to an empty one. */
  function Value(log: seq<Entry>): seq<Del> {
    if log == [] then []
    else
      var e := log[|log| - 1];
      if e.Cleared? then [] else Change(Value(log[..|log| - 1]), e.p)
  }

  /** The list as it stands, with a list that `reset` has destroyed still standing until it has dealt
      with the queue. */
  ghost function Base(s: State): seq<Del> {
    if s.main.Some? && s.main.value < |s.pcs| then
      match s.pcs[s.main.value]
      case ResetPendWait(was) => was
      case ResetPending(was) => was
      case _ => s.live
    else s.live
  }

  /** The queue entries that have not yet been moved. */
  ghost function Rest(s: State): seq<Pend> {
    if s.main.Some? && s.main.value < |s.pcs| then
      var c := s.pcs[s.main.value];
      if c.Migrating? && c.i <= |s.pending| then s.pending[c.i..] else s.pending
    else s.pending
  }

  /** The ordered set the event stands for at this moment. */
  ghost function Abstract(s: State): seq<Del> {
    Fold(Base(s), Rest(s))
  }

  // ---------------------------------------------------------------- the invariant

  ghost predicate LocksAgree(s: State) {
    && (s.main.Some? ==> s.main.value < |s.pcs| && HoldsMain(s.pcs[s.main.value]))
    && (s.pend.Some? ==> s.pend.value < |s.pcs| && HoldsPend(s.pcs[s.pend.value]))
    && (forall t | 0 <= t < |s.pcs| && HoldsMain(s.pcs[t]) :: s.main == Some(t))
    && (forall t | 0 <= t < |s.pcs| && HoldsPend(s.pcs[t]) :: s.pend == Some(t))
  }

  /** What is known while thread state `c` is the owner of the main lock. */
  ghost predicate OwnerState(s: State, c: PC) {
    match c
    case Migrating(i, _) => i <= |s.pending|
    case Migrated(_) => s.pending == []
    case Calling(expected, called) => expected == s.live && called <= s.live
    case ResetPendWait(_) => s.live == []
    case ResetPending(_) => s.live == []
    case ResetDone => s.live == [] && s.pending == []
    case _ => true
  }

  ghost predicate OwnerInv(s: State) {
    && (s.main.Some? ==> s.main.value < |s.pcs| && OwnerState(s, s.pcs[s.main.value]))
    && (s.cancel <==> s.main.Some? && InReset(s.pcs[s.main.value]))
  }

  /** Every clone ever queued is at this moment waiting, live or destroyed, once. */
  ghost predicate Ledger(s: State) {
    && (forall i | 0 <= i < |s.made| :: s.made[i].id == i)
    && Placed(s.live, Rest(s), s.destroyed, s.made)
  }

  ghost predicate Placed(live: seq<Del>, rest: seq<Pend>, destroyed: seq<Del>, made: seq<Del>) {
    multiset(live) + multiset(Dels(rest)) + multiset(destroyed) == multiset(made)
  }

  /** Each finished dispatch ran exactly the callbacks of the set it started from, in order. */
  ghost predicate HistoryExact(s: State) {
    forall d | d in s.history :: d.called == d.expected
  }

  ghost predicate Inv(s: State) {
    LocksAgree(s) && OwnerInv(s) && Abstract(s) == Value(s.log) && HistoryExact(s) && Ledger(s)
  }

  ghost predicate Init(s: State) {
    && s.live == [] && s.pending == [] && !s.cancel && s.main == None && s.pend == None
    && (forall t | 0 <= t < |s.pcs| :: s.pcs[t] == Idle)
    && s.log == [] && s.history == [] && s.made == [] && s.destroyed == []
  }

  lemma InitInv(s: State)
    requires Init(s)
    ensures Inv(s)
  {
  }

  // ---------------------------------------------------------------- every step keeps it

  /** How a step may move the locks: a thread takes a lock only when it is free, and releases only its own. */
  ghost predicate LockMoves(s: State, t: nat, r: State)
    requires t < |s.pcs|
  {
    && |r.pcs| == |s.pcs| && r.pcs == s.pcs[t := r.pcs[t]]
    && r.main == (if HoldsMain(r.pcs[t]) then Some(t) else if HoldsMain(s.pcs[t]) then None else s.main)
    && r.pend == (if HoldsPend(r.pcs[t]) then Some(t) else if HoldsPend(s.pcs[t]) then None else s.pend)
    && (HoldsMain(r.pcs[t]) && !HoldsMain(s.pcs[t]) ==> s.main == None)
    && (HoldsPend(r.pcs[t]) && !HoldsPend(s.pcs[t]) ==> s.pend == None)
  }

  lemma NextMovesLocks(s: State, t: nat, cmd: Cmd, r: State)
    requires LocksAgree(s) && t < |s.pcs| && Next(s, t, cmd) == Some(r)
    ensures LockMoves(s, t, r)
  {
    if InPush(s.pcs[t]) {
      PushMovesLocks(s, t, cmd, r);
    } else if InRun(s.pcs[t]) {
      RunMovesLocks(s, t, r);
    } else {
      ResetMovesLocks(s, t, r);
    }
  }

  lemma PushMovesLocks(s: State, t: nat, cmd: Cmd, r: State)
    requires LocksAgree(s) && t < |s.pcs| && InPush(s.pcs[t]) && NextPush(s, t, cmd) == Some(r)
    ensures LockMoves(s, t, r)
  {
  }

  lemma RunMovesLocks(s: State, t: nat, r: State)
    requires LocksAgree(s) && t < |s.pcs| && InRun(s.pcs[t]) && NextRun(s, t) == Some(r)
    ensures LockMoves(s, t, r)
  {
    hide Change, Dead, Value;
  }

  lemma ResetMovesLocks(s: State, t: nat, r: State)
    requires LocksAgree(s) && t < |s.pcs| && !InPush(s.pcs[t]) && !InRun(s.pcs[t]) && NextReset(s, t) == Some(r)
    ensures LockMoves(s, t, r)
  {
    hide Dels;
  }

  lemma LocksStep(s: State, t: nat, cmd: Cmd, r: State)
    requires LocksAgree(s) && t < |s.pcs| && Next(s, t, cmd) == Some(r)
    ensures LocksAgree(r) && LockMoves(s, t, r)
  {
    NextMovesLocks(s, t, cmd, r);
    hide Next, HoldsMain, HoldsPend;
  }

  lemma OwnerStep(s: State, t: nat, cmd: Cmd, r: State)
    requires LocksAgree(s) && OwnerInv(s) && Abstract(s) == Value(s.log)
    requires t < |s.pcs| && Next(s, t, cmd) == Some(r)
    ensures OwnerInv(r)
  {
    if InPush(s.pcs[t]) {
      OwnerPush(s, t, cmd, r);
    } else if InRun(s.pcs[t]) {
      OwnerRun(s, t, r);
    } else {
      OwnerReset(s, t, r);
    }
  }

  lemma OwnerPush(s: State, t: nat, cmd: Cmd, r: State)
    requires LocksAgree(s) && OwnerInv(s) && t < |s.pcs| && InPush(s.pcs[t]) && NextPush(s, t, cmd) == Some(r)
    ensures OwnerInv(r)
  {
    if s.main.Some? {
      assert HoldsPend(s.pcs[s.main.value]) ==> s.pend == s.main;
      assert r.pcs[s.main.value] == s.pcs[s.main.value];
    }
  }

  lemma OwnerRun(s: State, t: nat, r: State)
    requires LocksAgree(s) && OwnerInv(s) && Abstract(s) == Value(s.log)
    requires t < |s.pcs| && InRun(s.pcs[t]) && NextRun(s, t) == Some(r)
    ensures OwnerInv(r)
  {
    hide Change, Dead, Value;
    if s.pcs[t].Migrated? {
      assert s.main == Some(t) && Rest(s) == [];
    }
  }

  lemma OwnerReset(s: State, t: nat, r: State)
    requires LocksAgree(s) && OwnerInv(s)
    requires t < |s.pcs| && !InPush(s.pcs[t]) && !InRun(s.pcs[t]) && NextReset(s, t) == Some(r)
    ensures OwnerInv(r)
  {
    hide Dels;
  }

  /** The changes a step may make to the ordered set. */
  ghost predicate LogStep(s: State, t: nat, r: State)
    requires t < |s.pcs|
  {
    || (r.log == s.log && Abstract(r) == Abstract(s))
    || (s.pcs[t].Pushing? && |r.pending| > 0 &&
        var p := r.pending[|r.pending| - 1];
        r.log == s.log + [Enter(p)] && Abstract(r) == Change(Abstract(s), p)
        && p == Pend(s.pcs[t].add, Del(|s.made|, s.pcs[t].hash, s.pcs[t].fn)))
    || (s.pcs[t].ResetPending? && r.log == s.log + [Cleared] && Abstract(r) == [])
  }

  /** The ordered set changes only when a change enters the queue or `reset` deals with the queue;
      moving the queue into the list, whichever thread does it and whenever, leaves it as it is. */
  lemma AbstractStep(s: State, t: nat, cmd: Cmd, r: State)
    requires LocksAgree(s) && OwnerInv(s) && t < |s.pcs| && Next(s, t, cmd) == Some(r)
    ensures LogStep(s, t, r)
  {
    if InPush(s.pcs[t]) {
      AbstractPush(s, t, cmd, r);
    } else if InRun(s.pcs[t]) {
      AbstractRun(s, t, r);
    } else {
      AbstractReset(s, t, r);
    }
  }

  lemma AbstractPush(s: State, t: nat, cmd: Cmd, r: State)
    requires LocksAgree(s) && OwnerInv(s) && t < |s.pcs| && InPush(s.pcs[t]) && NextPush(s, t, cmd) == Some(r)
    ensures LogStep(s, t, r)
  {
    PushKeepsBase(s, t, cmd, r);
    hide Fold, LocksAgree, OwnerInv, Base;
    if s.pcs[t].Pushing? {
      var p := r.pending[|s.pending|];
      FoldSnoc(Base(s), s.pending, p);
    }
  }

  lemma PushKeepsBase(s: State, t: nat, cmd: Cmd, r: State)
    requires LocksAgree(s) && t < |s.pcs| && InPush(s.pcs[t]) && NextPush(s, t, cmd) == Some(r)
    ensures Base(r) == Base(s)
    ensures s.pcs[t].Pushing? ==> Rest(s) == s.pending && Rest(r) == r.pending
    ensures !s.pcs[t].Pushing? ==> Rest(r) == Rest(s)
  {
    if s.main.Some? {
      assert HoldsPend(s.pcs[s.main.value]) ==> s.pend == s.main;
      assert r.pcs[s.main.value] == s.pcs[s.main.value];
    }
  }

  lemma AbstractRun(s: State, t: nat, r: State)
    requires LocksAgree(s) && OwnerInv(s) && t < |s.pcs| && InRun(s.pcs[t]) && NextRun(s, t) == Some(r)
    ensures LogStep(s, t, r)
  {
    if s.pcs[t].Migrating? {
      AbstractMigrating(s, t, r);
    } else {
      RunKeepsBase(s, t, r);
      hide Fold, Change, Base, Rest, LocksAgree, OwnerInv, NextRun;
    }
  }

  lemma AbstractMigrating(s: State, t: nat, r: State)
    requires LocksAgree(s) && OwnerInv(s) && t < |s.pcs| && s.pcs[t].Migrating? && NextRun(s, t) == Some(r)
    ensures r.log == s.log && Abstract(r) == Abstract(s)
  {
    hide Value, Dead, Change, Fold;
    var c := s.pcs[t];
    assert s.main == Some(t);
    if c.i < |s.pending| {
      MoveOne(s.live, s.pending, c.i);
      assert Rest(s) == s.pending[c.i..] && Rest(r) == s.pending[c.i + 1..];
    } else {
      assert Rest(s) == [] && Rest(r) == [];
    }
  }

  lemma RunKeepsBase(s: State, t: nat, r: State)
    requires LocksAgree(s) && OwnerInv(s) && t < |s.pcs| && InRun(s.pcs[t]) && !s.pcs[t].Migrating? && NextRun(s, t) == Some(r)
    ensures Base(r) == Base(s) && Rest(r) == Rest(s) && r.log == s.log
  {
    hide Value, Dead, Change, Fold;
  }

  lemma {:induction false} MoveOne(live: seq<Del>, pending: seq<Pend>, i: nat)
    requires i < |pending|
    ensures Fold(live, pending[i..]) == Fold(Change(live, pending[i]), pending[i + 1..])
  {
    var p := pending[i];
    assert pending[i..] == [p] + pending[i + 1..];
    FoldConcat(live, [p], pending[i + 1..]);
    assert Fold(live, [p]) == Change(Fold(live, []), p);
  }

  lemma AbstractReset(s: State, t: nat, r: State)
    requires LocksAgree(s) && OwnerInv(s)
    requires t < |s.pcs| && !InPush(s.pcs[t]) && !InRun(s.pcs[t]) && NextReset(s, t) == Some(r)
    ensures LogStep(s, t, r)
  {
    hide Dels;
    if s.pcs[t].ResetPending? {
      assert Rest(r) == [] && Base(r) == [];
    } else {
      assert Base(r) == Base(s) && Rest(r) == Rest(s);
    }
  }

  // ---------------------------------------------------------------- ownership

  lemma PlacedPush(live: seq<Del>, rest: seq<Pend>, gone: seq<Del>, made: seq<Del>, p: Pend)
    requires Placed(live, rest, gone, made)
    ensures Placed(live, rest + [p], gone, made + [p.del])
  {
    DelsSnoc(rest, p);
  }

  lemma PlacedMove(live: seq<Del>, rest: seq<Pend>, gone: seq<Del>, made: seq<Del>, p: Pend)
    requires Placed(live, [p] + rest, gone, made)
    ensures Placed(Change(live, p), rest, gone + Dead(live, p), made)
  {
    ChangeConserves(live, p);
    assert Dels([p] + rest) == [p.del] + Dels(rest);
    MultisetConcat(gone, Dead(live, p));
    hide Change, Dead, Dels;
    PlacedSums(multiset(live), p.del, multiset(Dels(rest)), multiset(gone), multiset(Change(live, p)), multiset(Dead(live, p)));
  }

  lemma PlacedSums(l: multiset<Del>, p: Del, r: multiset<Del>, g: multiset<Del>, c: multiset<Del>, d: multiset<Del>)
    requires c + d == l + multiset{p}
    ensures c + r + (g + d) == l + (multiset{p} + r) + g
  {
    calc {
      c + r + (g + d);
      (c + d) + r + g;
    }
  }

  lemma PlacedDrop(live: seq<Del>, rest: seq<Pend>, gone: seq<Del>, made: seq<Del>)
    requires Placed(live, rest, gone, made)
    ensures Placed([], rest, gone + live, made)
    ensures live == [] ==> Placed([], [], gone + Dels(rest), made)
  {
    assert Dels([]) == [];
  }

  lemma LedgerStep(s: State, t: nat, cmd: Cmd, r: State)
    requires LocksAgree(s) && OwnerInv(s) && Ledger(s) && t < |s.pcs| && Next(s, t, cmd) == Some(r)
    ensures Ledger(r)
  {
    if InPush(s.pcs[t]) {
      LedgerPush(s, t, cmd, r);
    } else if InRun(s.pcs[t]) {
      LedgerRun(s, t, r);
    } else {
      LedgerReset(s, t, r);
    }
  }

  lemma LedgerPush(s: State, t: nat, cmd: Cmd, r: State)
    requires LocksAgree(s) && OwnerInv(s) && Ledger(s)
    requires t < |s.pcs| && InPush(s.pcs[t]) && NextPush(s, t, cmd) == Some(r)
    ensures Ledger(r)
  {
    hide Placed;
    if s.main.Some? {
      assert HoldsPend(s.pcs[s.main.value]) ==> s.pend == s.main;
      assert r.pcs[s.main.value] == s.pcs[s.main.value];
    }
    if s.pcs[t].Pushing? {
      var p := r.pending[|s.pending|];
      assert Rest(s) == s.pending && Rest(r) == s.pending + [p];
      PlacedPush(s.live, s.pending, s.destroyed, s.made, p);
    } else {
      assert Rest(r) == Rest(s);
    }
  }

  lemma LedgerRun(s: State, t: nat, r: State)
    requires LocksAgree(s) && OwnerInv(s) && Ledger(s)
    requires t < |s.pcs| && InRun(s.pcs[t]) && NextRun(s, t) == Some(r)
    ensures Ledger(r)
  {
    hide Value, Placed, Change, Dead;
    var c := s.pcs[t];
    if c.Migrating? {
      assert s.main == Some(t);
      if c.i < |s.pending| {
        assert Rest(s) == [s.pending[c.i]] + s.pending[c.i + 1..] && Rest(r) == s.pending[c.i + 1..];
        PlacedMove(s.live, s.pending[c.i + 1..], s.destroyed, s.made, s.pending[c.i]);
      } else {
        assert Rest(s) == [] && Rest(r) == [];
      }
    } else {
      assert Rest(r) == Rest(s);
    }
  }

  lemma LedgerReset(s: State, t: nat, r: State)
    requires LocksAgree(s) && OwnerInv(s) && Ledger(s)
    requires t < |s.pcs| && !InPush(s.pcs[t]) && !InRun(s.pcs[t]) && NextReset(s, t) == Some(r)
    ensures Ledger(r)
  {
    hide Dels, Placed;
    if s.pcs[t].ResetPending? {
      assert Rest(r) == [] && Rest(s) == s.pending;
      PlacedDrop(s.live, s.pending, s.destroyed, s.made);
    } else {
      assert Rest(r) == Rest(s);
      PlacedDrop(s.live, Rest(s), s.destroyed, s.made);
    }
  }

  // ---------------------------------------------------------------- dispatch

  lemma HistoryStep(s: State, t: nat, cmd: Cmd, r: State)
    requires LocksAgree(s) && OwnerInv(s) && HistoryExact(s) && t < |s.pcs| && Next(s, t, cmd) == Some(r)
    ensures HistoryExact(r)
  {
    hide Change, Dead, Value, Dels, Start;
    if s.pcs[t].Calling? {
      assert s.main == Some(t) && !s.cancel;
    } else {
      assert r.history == s.history;
    }
  }

  lemma StepInv(s: State, t: nat, cmd: Cmd, r: State)
    requires Inv(s) && t < |s.pcs| && Next(s, t, cmd) == Some(r)
    ensures Inv(r) && LogStep(s, t, r)
  {
    hide Next, Abstract, Value, LogStep, LockMoves, OwnerInv, LocksAgree, Ledger, HistoryExact;
    LocksStep(s, t, cmd, r);
    OwnerStep(s, t, cmd, r);
    AbstractStep(s, t, cmd, r);
    HistoryStep(s, t, cmd, r);
    LedgerStep(s, t, cmd, r);
    LogValue(s, t, r);
  }

  lemma {:induction false} LogValue(s: State, t: nat, r: State)
    requires t < |s.pcs| && LogStep(s, t, r) && Abstract(s) == Value(s.log)
    ensures Abstract(r) == Value(r.log)
  {
    hide Abstract, Change;
    if r.log != s.log {
      assert r.log[..|r.log| - 1] == s.log;
    }
  }

  /** When a migration ends, whoever ran it, the list is the ordered set; this is what a dispatch that
      starts there calls, and what `flush` leaves. */
  lemma MigrationSettles(s: State, t: nat)
    requires Inv(s) && t < |s.pcs| && s.pcs[t].Migrated?
    ensures s.live == Value(s.log) && s.pending == []
  {
    assert s.main == Some(t) && Rest(s) == [];
  }

  /** With nobody using the event and nothing queued, the list is the ordered set. */
  lemma QuiescentSettles(s: State)
    requires Inv(s) && s.main == None && s.pending == []
    ensures s.live == Value(s.log)
  {
    assert Rest(s) == [];
  }

  // ---------------------------------------------------------------- runs

  datatype Move = Move(thread: nat, cmd: Cmd)

  ghost predicate IsRun(run: seq<State>, moves: seq<Move>) {
    && |run| == |moves| + 1 && Init(run[0])
    && forall i | 0 <= i < |moves| :: moves[i].thread < |run[i].pcs| && Next(run[i], moves[i].thread, moves[i].cmd) == Some(run[i + 1])
  }

  /** Every state of every run, under any schedule, satisfies the invariant. */
  lemma {:induction false} RunInv(run: seq<State>, moves: seq<Move>, k: nat)
    requires IsRun(run, moves) && k < |run|
    ensures Inv(run[k])
  {
    if k == 0 {
      InitInv(run[0]);
    } else {
      RunInv(run, moves, k - 1);
      StepInv(run[k - 1], moves[k - 1].thread, moves[k - 1].cmd, run[k]);
    }
  }

  /** How many of the first `k` moves queued a change. */
  ghost function Pushes(run: seq<State>, moves: seq<Move>, k: nat): nat
    requires IsRun(run, moves) && k <= |moves|
  {
    if k == 0 then 0
    else Pushes(run, moves, k - 1) + if run[k - 1].pcs[moves[k - 1].thread].Pushing? then 1 else 0
  }

  /** What a move that begins in thread state `c` does to the ordered set, when `n` changes have been
      queued before. */
  function Effect(c: PC, n: nat): seq<Entry> {
    match c
    case Pushing(add, hash, fn) => [Enter(Pend(add, Del(n, hash, fn)))]
    case ResetPending(_) => [Cleared]
    case _ => []
  }

  /** What the first `k` moves queued, and when they dealt with the queue in `reset`, in that order. */
  ghost function Effects(run: seq<State>, moves: seq<Move>, k: nat): seq<Entry>
    requires IsRun(run, moves) && k <= |moves|
  {
    if k == 0 then []
    else Effects(run, moves, k - 1) + Effect(run[k - 1].pcs[moves[k - 1].thread], Pushes(run, moves, k - 1))
  }

  /** The ordered set is that of the changes queued so far, each once and in the order in which they
      were queued: none is lost and none is applied twice. */
  lemma {:induction false} LogIsEffects(run: seq<State>, moves: seq<Move>, k: nat)
    requires IsRun(run, moves) && k <= |moves|
    ensures run[k].log == Effects(run, moves, k) && |run[k].made| == Pushes(run, moves, k)
    ensures Abstract(run[k]) == Value(Effects(run, moves, k))
  {
    hide Inv, Next, Abstract, Value;
    RunInv(run, moves, k);
    InvValue(run[k]);
    if k > 0 {
      LogIsEffects(run, moves, k - 1);
      LogGrows(run[k - 1], moves[k - 1].thread, moves[k - 1].cmd, run[k]);
    }
  }

  lemma InvValue(s: State)
    requires Inv(s)
    ensures Abstract(s) == Value(s.log)
  {
  }

  lemma LogGrows(s: State, t: nat, cmd: Cmd, r: State)
    requires t < |s.pcs| && Next(s, t, cmd) == Some(r)
    ensures r.log == s.log + Effect(s.pcs[t], |s.made|)
    ensures |r.made| == |s.made| + if s.pcs[t].Pushing? then 1 else 0
  {
    hide Change, Dead, Value, Dels, Start;
  }

  lemma {:induction false} ValueDistinct(log: seq<Entry>)
    ensures DistinctHashes(Value(log))
  {
    if log != [] && log[|log| - 1].Enter? {
      ValueDistinct(log[..|log| - 1]);
      ChangeDistinct(Value(log[..|log| - 1]), log[|log| - 1].p);
    }
  }

  lemma DistinctStep(s: State, t: nat, cmd: Cmd, r: State)
    requires DistinctHashes(s.live) && t < |s.pcs| && Next(s, t, cmd) == Some(r)
    ensures DistinctHashes(r.live)
  {
    hide Dead, Dels, Value, Start, Change, DistinctHashes;
    NoneDistinct();
    var c := s.pcs[t];
    if c.Migrating? && c.i < |s.pending| {
      ChangeDistinct(s.live, s.pending[c.i]);
    }
  }

  lemma NoneDistinct()
    ensures DistinctHashes([])
  {
  }

  /** The list never holds two delegates with one hash, at any step of any run. */
  lemma {:induction false} ListDistinct(run: seq<State>, moves: seq<Move>, k: nat)
    requires IsRun(run, moves) && k < |run|
    ensures DistinctHashes(run[k].live)
  {
    hide Next;
    if k > 0 {
      ListDistinct(run, moves, k - 1);
      DistinctStep(run[k - 1], moves[k - 1].thread, moves[k - 1].cmd, run[k]);
    }
  }

  // ---------------------------------------------------------------- no deadlock

  /** Whoever holds the pending lock is never blocked; whoever holds the main lock can be blocked only
      by the holder of the pending lock. */
  lemma HoldersMove(s: State, t: nat, cmd: Cmd)
    requires Inv(s) && t < |s.pcs|
    ensures HoldsPend(s.pcs[t]) ==> Next(s, t, cmd).Some?
    ensures HoldsMain(s.pcs[t]) && Next(s, t, cmd).None? ==> s.pend.Some? && s.pend != Some(t)
  {
    hide Change, Dead, Value, Dels, Start, Abstract, Ledger, HistoryExact;
  }

  /** In every reachable state in which some operation is unfinished, some unfinished operation can
      take a step. */
  lemma NeverStuck(s: State, busy: nat, cmd: Cmd)
    requires Inv(s) && busy < |s.pcs| && s.pcs[busy] != Idle
    ensures exists t :: 0 <= t < |s.pcs| && s.pcs[t] != Idle && Next(s, t, cmd).Some?
  {
    if s.pend.Some? {
      HoldersMove(s, s.pend.value, cmd);
    } else if s.main.Some? {
      HoldersMove(s, s.main.value, cmd);
    } else {
      FreeMoves(s, busy, cmd);
    }
  }

  lemma FreeMoves(s: State, t: nat, cmd: Cmd)
    requires t < |s.pcs| && s.main == None && s.pend == None
    ensures Next(s, t, cmd).Some?
  {
    hide Change, Dead, Value, Dels, Start;
  }

  // ---------------------------------------------------------------- operations end

  /** How far an operation is from its end. */
  function Phase(c: PC): nat {
    match c
    case Idle => 0
    case PushWait(_, _, _) => 8
    case Pushing(_, _, _) => 7
    case Pushed => 6
    case TryMain => 5
    case MainWait(after) => if after.ThenCall? then 9 else 5
    case MigrateWait(after) => if after.ThenCall? then 8 else 4
    case Migrating(_, after) => if after.ThenCall? then 7 else 3
    case Migrated(after) => if after.ThenCall? then 6 else 2
    case Calling(_, _) => 5
    case Unlock => 1
    case ResetWait => 7
    case ResetList => 6
    case ResetPendWait(_) => 5
    case ResetPending(_) => 4
    case ResetDone => 3
    case ResetClose => 2
  }

  /** Queue entries left to move, or callbacks left to run. */
  function ItemsLeft(s: State, t: nat): nat
    requires t < |s.pcs|
  {
    match s.pcs[t]
    case Migrating(i, _) => if i <= |s.pending| then |s.pending| - i else 0
    case Calling(_, called) => if |called| <= |s.live| then |s.live| - |called| else 0
    case _ => 0
  }

  ghost predicate Below(s: State, r: State, t: nat)
    requires t < |s.pcs| && t < |r.pcs|
  {
    Phase(s.pcs[t]) < Phase(r.pcs[t]) || (s.pcs[t] != Idle && Phase(s.pcs[t]) == Phase(r.pcs[t]) && ItemsLeft(s, t) < ItemsLeft(r, t))
  }

  ghost predicate SameLeft(s: State, r: State, t: nat)
    requires t < |s.pcs| && t < |r.pcs|
  {
    s.pcs[t] == r.pcs[t] && ItemsLeft(s, t) == ItemsLeft(r, t)
  }

  /** Every step of an operation brings it nearer to its end. */
  lemma OwnStepFalls(s: State, t: nat, cmd: Cmd, r: State)
    requires t < |s.pcs| && s.pcs[t] != Idle && Next(s, t, cmd) == Some(r)
    ensures |r.pcs| == |s.pcs| && Below(r, s, t)
  {
    hide Change, Dead, Value, Dels, Start;
    if InPush(s.pcs[t]) {
      hide NextRun, NextReset;
    } else if InRun(s.pcs[t]) {
      RunStepFalls(s, t, r);
    } else {
      hide NextPush, NextRun;
    }
  }

  lemma RunStepFalls(s: State, t: nat, r: State)
    requires t < |s.pcs| && InRun(s.pcs[t]) && NextRun(s, t) == Some(r)
    ensures |r.pcs| == |s.pcs| && Below(r, s, t)
  {
    hide Change, Dead, Value;
  }

  /** No step of another thread takes it further away. */
  lemma OtherStepKeeps(s: State, t: nat, u: nat, cmd: Cmd, r: State)
    requires LocksAgree(s) && t < |s.pcs| && u < |s.pcs| && t != u && Next(s, u, cmd) == Some(r)
    ensures |r.pcs| == |s.pcs| && SameLeft(r, s, t)
  {
    OtherKeepsShared(s, t, u, cmd, r);
    hide Next;
  }

  /** Only a holder of the main lock changes the list, and only a holder of the pending lock the queue. */
  lemma OtherKeepsShared(s: State, t: nat, u: nat, cmd: Cmd, r: State)
    requires LocksAgree(s) && t < |s.pcs| && u < |s.pcs| && t != u && Next(s, u, cmd) == Some(r)
    ensures |r.pcs| == |s.pcs| && r.pcs[t] == s.pcs[t]
    ensures s.pcs[t].Calling? ==> r.live == s.live
    ensures s.pcs[t].Migrating? ==> r.pending == s.pending
  {
    NextMovesLocks(s, u, cmd, r);
    SharedByHolders(s, u, cmd, r);
    hide Next;
  }

  lemma SharedByHolders(s: State, u: nat, cmd: Cmd, r: State)
    requires u < |s.pcs| && Next(s, u, cmd) == Some(r)
    ensures r.live != s.live ==> HoldsMain(s.pcs[u])
    ensures r.pending != s.pending ==> HoldsPend(s.pcs[u])
  {
    hide Change, Dead, Value, Dels, Start;
  }

  /** Over any part of a run during which thread `t` is inside one operation, that operation only comes
      nearer to its end, and it does so with every step that `t` takes: it ends after finitely many. */
  lemma {:induction false} OperationsEnd(run: seq<State>, moves: seq<Move>, t: nat, j: nat, k: nat)
    requires IsRun(run, moves) && j <= k < |run| && t < |run[j].pcs|
    requires forall i | j <= i < k :: t < |run[i].pcs| && run[i].pcs[t] != Idle
    ensures |run[k].pcs| == |run[j].pcs|
    ensures if exists i :: j <= i < k && moves[i].thread == t then Below(run[k], run[j], t) else SameLeft(run[k], run[j], t)
    decreases k
  {
    hide Next, Inv, Phase, ItemsLeft;
    if j < k {
      OperationsEnd(run, moves, t, j, k - 1);
      var m := moves[k - 1];
      if m.thread == t {
        OwnStepFalls(run[k - 1], t, m.cmd, run[k]);
      } else {
        RunInv(run, moves, k - 1);
        LocksOf(run[k - 1]);
        OtherStepKeeps(run[k - 1], t, m.thread, m.cmd, run[k]);
      }
    }
  }

  lemma LocksOf(s: State)
    requires Inv(s)
    ensures LocksAgree(s)
  {
  }
}
