/** The hand-over of one callback from a worker to the GUI thread: one `invoke`, any number of
    `cancel`s and one `wait`, interleaved at every atomic read and write and every lock operation.
    The callback holds references into the frame of the waiting worker. */
module Invoker {
  import opened Wrappers

  /** `invoke`. */
  datatype Gui =
    | NotCalled
    | InvokeLock      // about to take m_Lock
    | MarkHit         // about to set m_bCallbackHit
    | TestCallback    // about to test m_fnCallback
    | Running         // inside the callback
    | ReadDone        // in done(): about to read m_bDone
    | SetDone         // about to set it
    | Notify          // about to signal the wait condition
    | InvokeUnlock    // about to release m_Lock
    | InvokeOver

  /** One `cancel`. */
  datatype Canceller =
    | ReadHit         // about to read m_bCallbackHit without the lock
    | CancelLock
    | TestHit         // reads it again with the lock held
    | ClearCallback
    | CancelReadDone
    | CancelSetDone
    | CancelNotify
    | CancelUnlock
    | CancelOver

  /** The worker in `wait`, and its frame afterwards. */
  datatype Worker =
    | WaitRead        // about to read m_bDone
    | WaitSleep       // in the timed wait
    | WaitOver        // `wait` has returned
    | FrameGone       // the referenced arguments no longer exist

  datatype Tid = GuiThread | CancelThread(k: nat)

  datatype State = State(
    hit: bool,                  // m_bCallbackHit
    done: bool,                 // m_bDone
    fn: bool,                   // m_fnCallback is set
    lock: Option<Tid>,          // owner of m_Lock
    gui: Gui,
    cancels: seq<Canceller>,
    worker: Worker,
    started: nat,               // times the callback has been entered
    finished: nat,              // times it has returned
    cleared: bool)              // a cancel has removed the callback

  datatype Actor = StepGui | StepCancel(k: nat) | StepWorker

  function Next(s: State, a: Actor): Option<State>
    requires a.StepCancel? ==> a.k < |s.cancels|
  {
    match a
    case StepGui => NextGui(s)
    case StepCancel(k) => NextCancel(s, k)
    case StepWorker => NextWorker(s)
  }

  function NextGui(s: State): Option<State> {
    match s.gui
    case NotCalled => Some(s.(gui := InvokeLock))
    case InvokeLock => if s.lock.Some? then None else Some(s.(lock := Some(GuiThread), gui := MarkHit))
    case MarkHit => Some(s.(hit := true, gui := TestCallback))
    case TestCallback => if s.fn then Some(s.(gui := Running, started := s.started + 1)) else Some(s.(gui := ReadDone))
    case Running => Some(s.(gui := ReadDone, finished := s.finished + 1))
    case ReadDone => Some(s.(gui := if s.done then InvokeUnlock else SetDone))
    case SetDone => Some(s.(done := true, gui := Notify))
    case Notify => Some(s.(gui := InvokeUnlock))
    case InvokeUnlock => Some(s.(lock := None, gui := InvokeOver))
    case InvokeOver => None
  }

  function NextCancel(s: State, k: nat): Option<State>
    requires k < |s.cancels|
  {
    match s.cancels[k]
    case ReadHit => Some(s.(cancels := s.cancels[k := if s.hit then CancelOver else CancelLock]))
    case CancelLock =>
      if s.lock.Some? then None else Some(s.(lock := Some(CancelThread(k)), cancels := s.cancels[k := TestHit]))
    case TestHit => Some(s.(cancels := s.cancels[k := if s.hit then CancelUnlock else ClearCallback]))
    case ClearCallback => Some(s.(fn := false, cleared := true, cancels := s.cancels[k := CancelReadDone]))
    case CancelReadDone => Some(s.(cancels := s.cancels[k := if s.done then CancelUnlock else CancelSetDone]))
    case CancelSetDone => Some(s.(done := true, cancels := s.cancels[k := CancelNotify]))
    case CancelNotify => Some(s.(cancels := s.cancels[k := CancelUnlock]))
    case CancelUnlock => Some(s.(lock := None, cancels := s.cancels[k := CancelOver]))
    case CancelOver => None
  }

  /** The timed wait may end for any reason, so it always returns to the test of m_bDone. */
  function NextWorker(s: State): Option<State> {
    match s.worker
    case WaitRead => Some(s.(worker := if s.done then WaitOver else WaitSleep))
    case WaitSleep => Some(s.(worker := WaitRead))
    case WaitOver => Some(s.(worker := FrameGone))
    case FrameGone => None
  }

  // ---------------------------------------------------------------- the invariant

  predicate GuiHolds(g: Gui) {
    !(g.NotCalled? || g.InvokeLock? || g.InvokeOver?)
  }

  predicate CancelHolds(c: Canceller) {
    !(c.ReadHit? || c.CancelLock? || c.CancelOver?)
  }

  /** The callback is neither running nor ever going to run again. */
  predicate Settled(s: State) {
    !s.fn || s.gui.ReadDone? || s.gui.SetDone? || s.gui.Notify? || s.gui.InvokeUnlock? || s.gui.InvokeOver?
  }

  ghost predicate LockAgrees(s: State) {
    && (s.lock == Some(GuiThread) <==> GuiHolds(s.gui))
    && (forall k | 0 <= k < |s.cancels| :: s.lock == Some(CancelThread(k)) <==> CancelHolds(s.cancels[k]))
    && (s.lock.Some? && s.lock.value.CancelThread? ==> s.lock.value.k < |s.cancels|)
  }

  ghost predicate Counts(s: State) {
    && (s.hit <==> !(s.gui.NotCalled? || s.gui.InvokeLock? || s.gui.MarkHit?))
    && (s.gui.Running? ==> s.fn && s.started == 1 && s.finished == 0)
    && (!s.gui.Running? ==> s.finished == s.started)
    && (s.started > 0 ==> s.hit && !s.gui.TestCallback? && s.fn && s.started == 1)
    && (s.hit && !s.gui.TestCallback? && s.fn ==> s.started == 1)
    && (s.cleared ==> !s.fn)
  }

  ghost predicate DoneMeans(s: State) {
    && (s.done ==> Settled(s))
    && (s.worker.WaitOver? || s.worker.FrameGone? ==> s.done)
    && (s.gui.Notify? || s.gui.InvokeUnlock? || s.gui.InvokeOver? ==> s.done)
    && (forall k | 0 <= k < |s.cancels| ::
          match s.cancels[k]
          case ClearCallback => !s.hit
          case CancelReadDone => s.cleared
          case CancelSetDone => s.cleared
          case CancelNotify => s.done
          case CancelUnlock => s.done || s.hit
          case CancelOver => s.done || s.hit
          case _ => true)
  }

  ghost predicate Inv(s: State) {
    LockAgrees(s) && Counts(s) && DoneMeans(s)
  }

  /** A fresh Invoker, both atomics false, given a callback or an empty function. */
  ghost predicate Init(s: State) {
    && !s.hit && !s.done && s.lock == None && s.gui == NotCalled && s.worker == WaitRead
    && s.started == 0 && s.finished == 0 && !s.cleared
    && forall k | 0 <= k < |s.cancels| :: s.cancels[k] == ReadHit
  }

  lemma StepInv(s: State, a: Actor, r: State)
    requires Inv(s) && IsStep(s, a, r)
    ensures Inv(r) && |r.cancels| == |s.cancels|
  {
    hide NextGui, NextCancel, NextWorker, Inv;
    match a
    case StepGui => GuiInv(s, r);
    case StepCancel(k) => CancelInv(s, k, r);
    case StepWorker => WorkerInv(s, r);
  }

  lemma WorkerInv(s: State, r: State)
    requires Inv(s) && NextWorker(s) == Some(r)
    ensures Inv(r) && r.cancels == s.cancels
  {
    WorkerLocks(s, r);
    WorkerDone(s, r);
    hide LockAgrees, DoneMeans;
  }

  lemma WorkerLocks(s: State, r: State)
    requires LockAgrees(s) && NextWorker(s) == Some(r)
    ensures LockAgrees(r)
  {
  }

  lemma WorkerDone(s: State, r: State)
    requires DoneMeans(s) && NextWorker(s) == Some(r)
    ensures DoneMeans(r) && r.cancels == s.cancels
  {
  }

  lemma GuiInv(s: State, r: State)
    requires Inv(s) && NextGui(s) == Some(r)
    ensures Inv(r) && r.cancels == s.cancels
  {
    GuiLocks(s, r);
    GuiCounts(s, r);
    GuiDone(s, r);
    hide NextGui, LockAgrees, Counts, DoneMeans;
  }

  lemma GuiLocks(s: State, r: State)
    requires LockAgrees(s) && NextGui(s) == Some(r)
    ensures LockAgrees(r) && r.cancels == s.cancels
  {
    GuiMovesLock(s, r);
    hide NextGui, GuiHolds, CancelHolds;
  }

  /** The GUI thread takes the lock only when it is free and releases only its own. */
  lemma GuiMovesLock(s: State, r: State)
    requires NextGui(s) == Some(r)
    ensures r.cancels == s.cancels
    ensures GuiHolds(s.gui) ==> r.lock == (if GuiHolds(r.gui) then s.lock else None)
    ensures !GuiHolds(s.gui) && GuiHolds(r.gui) ==> s.lock == None && r.lock == Some(GuiThread)
    ensures !GuiHolds(s.gui) && !GuiHolds(r.gui) ==> r.lock == s.lock
  {
    if GuiHolds(s.gui) {
      GuiInside(s, r);
    } else {
      GuiOutside(s, r);
    }
    hide NextGui, GuiHolds;
  }

  lemma GuiInside(s: State, r: State)
    requires NextGui(s) == Some(r) && GuiHolds(s.gui)
    ensures r.cancels == s.cancels && r.lock == if GuiHolds(r.gui) then s.lock else None
  {
  }

  lemma GuiOutside(s: State, r: State)
    requires NextGui(s) == Some(r) && !GuiHolds(s.gui)
    ensures r.cancels == s.cancels
    ensures if GuiHolds(r.gui) then s.lock == None && r.lock == Some(GuiThread) else r.lock == s.lock
  {
  }

  lemma GuiCounts(s: State, r: State)
    requires Counts(s) && NextGui(s) == Some(r)
    ensures Counts(r)
  {
  }

  lemma GuiDone(s: State, r: State)
    requires Inv(s) && NextGui(s) == Some(r)
    ensures DoneMeans(r)
  {
  }

  lemma CancelInv(s: State, k: nat, r: State)
    requires Inv(s) && k < |s.cancels| && NextCancel(s, k) == Some(r)
    ensures Inv(r) && |r.cancels| == |s.cancels|
  {
    CancelLocks(s, k, r);
    CancelCounts(s, k, r);
    CancelDone(s, k, r);
  }

  lemma CancelLocks(s: State, k: nat, r: State)
    requires LockAgrees(s) && k < |s.cancels| && NextCancel(s, k) == Some(r)
    ensures LockAgrees(r) && |r.cancels| == |s.cancels|
  {
    CancelMoves(s, k, r);
    CancelMovesLock(s, k, r);
    hide NextCancel, CancelHolds, GuiHolds;
  }

  lemma CancelMoves(s: State, k: nat, r: State)
    requires k < |s.cancels| && NextCancel(s, k) == Some(r)
    ensures |r.cancels| == |s.cancels| && r.cancels == s.cancels[k := r.cancels[k]] && r.gui == s.gui
  {
  }

  /** A cancel takes the lock only when it is free and releases only its own. */
  lemma CancelMovesLock(s: State, k: nat, r: State)
    requires k < |s.cancels| && NextCancel(s, k) == Some(r)
    ensures k < |r.cancels|
    ensures CancelHolds(s.cancels[k]) ==> r.lock == (if CancelHolds(r.cancels[k]) then s.lock else None)
    ensures !CancelHolds(s.cancels[k]) && CancelHolds(r.cancels[k]) ==> s.lock == None && r.lock == Some(CancelThread(k))
    ensures !CancelHolds(s.cancels[k]) && !CancelHolds(r.cancels[k]) ==> r.lock == s.lock
  {
    if CancelHolds(s.cancels[k]) {
      CancelInside(s, k, r);
    } else {
      CancelOutside(s, k, r);
    }
    hide NextCancel, CancelHolds;
  }

  lemma CancelInside(s: State, k: nat, r: State)
    requires k < |s.cancels| && NextCancel(s, k) == Some(r) && CancelHolds(s.cancels[k])
    ensures k < |r.cancels| && r.lock == if CancelHolds(r.cancels[k]) then s.lock else None
  {
  }

  lemma CancelOutside(s: State, k: nat, r: State)
    requires k < |s.cancels| && NextCancel(s, k) == Some(r) && !CancelHolds(s.cancels[k])
    ensures k < |r.cancels|
    ensures if CancelHolds(r.cancels[k]) then s.lock == None && r.lock == Some(CancelThread(k)) else r.lock == s.lock
  {
  }

  lemma CancelCounts(s: State, k: nat, r: State)
    requires Inv(s) && k < |s.cancels| && NextCancel(s, k) == Some(r)
    ensures Counts(r)
  {
    assert CancelHolds(s.cancels[k]) ==> !GuiHolds(s.gui);
  }

  lemma CancelDone(s: State, k: nat, r: State)
    requires Inv(s) && k < |s.cancels| && NextCancel(s, k) == Some(r)
    ensures DoneMeans(r)
  {
    assert forall i | 0 <= i < |s.cancels| && i != k :: r.cancels[i] == s.cancels[i];
  }

  // ---------------------------------------------------------------- runs

  ghost predicate IsStep(s: State, a: Actor, r: State) {
    (a.StepCancel? ==> a.k < |s.cancels|) && Next(s, a) == Some(r)
  }

  ghost predicate IsRun(run: seq<State>, moves: seq<Actor>) {
    && |run| == |moves| + 1 && Init(run[0])
    && forall i | 0 <= i < |moves| :: IsStep(run[i], moves[i], run[i + 1])
  }

  lemma {:induction false} RunInv(run: seq<State>, moves: seq<Actor>, k: nat)
    requires IsRun(run, moves) && k < |run|
    ensures Inv(run[k])
  {
    if k > 0 {
      RunInv(run, moves, k - 1);
      StepInv(run[k - 1], moves[k - 1], run[k]);
    }
  }

  /** What can only go one way. */
  lemma {:induction false} Monotone(run: seq<State>, moves: seq<Actor>, j: nat, k: nat)
    requires IsRun(run, moves) && j <= k < |run|
    ensures run[j].done ==> run[k].done && run[k].started == run[j].started
    ensures run[j].cleared ==> run[k].cleared
    decreases k
  {
    hide Inv, Next;
    if j < k {
      Monotone(run, moves, j, k - 1);
      RunInv(run, moves, k - 1);
      MonotoneStep(run[k - 1], moves[k - 1], run[k]);
    }
  }

  /** Only a cancel removes the callback. */
  lemma {:induction false} CallbackKept(run: seq<State>, moves: seq<Actor>, k: nat)
    requires IsRun(run, moves) && k < |run| && run[0].fn
    ensures run[k].fn == !run[k].cleared
  {
    hide Inv, Next;
    if k > 0 {
      CallbackKept(run, moves, k - 1);
      RunInv(run, moves, k - 1);
      MonotoneStep(run[k - 1], moves[k - 1], run[k]);
    }
  }

  lemma MonotoneStep(s: State, a: Actor, r: State)
    requires Inv(s) && IsStep(s, a, r)
    ensures s.done ==> r.done && r.started == s.started
    ensures s.cleared ==> r.cleared
    ensures s.fn == !s.cleared ==> r.fn == !r.cleared
  {
  }

  /** In every run the callback is entered at most once. */
  lemma AtMostOnce(run: seq<State>, moves: seq<Actor>, k: nat)
    requires IsRun(run, moves) && k < |run|
    ensures run[k].started <= 1
  {
    RunInv(run, moves, k);
  }

  /** Once a cancel has removed the callback, it has not started and never will. */
  lemma NeverAfterClear(run: seq<State>, moves: seq<Actor>, j: nat, k: nat)
    requires IsRun(run, moves) && j <= k < |run| && run[j].cleared
    ensures run[k].started == 0 && !run[k].gui.Running?
  {
    Monotone(run, moves, j, k);
    RunInv(run, moves, k);
  }

  /** After `wait` has returned the callback is not running and is never entered again, so it never
      runs against arguments whose frame is gone. */
  lemma SafeAfterWait(run: seq<State>, moves: seq<Actor>, j: nat, k: nat)
    requires IsRun(run, moves) && j <= k < |run|
    requires run[j].worker.WaitOver? || run[j].worker.FrameGone?
    ensures !run[k].gui.Running? && run[k].started == run[j].started
  {
    RunInv(run, moves, j);
    RunInv(run, moves, k);
    Monotone(run, moves, j, k);
  }

  /** When `wait` returns, either the callback has run to its end once, or a cancel removed it and it
      never ran. */
  lemma OutcomeOfWait(run: seq<State>, moves: seq<Actor>, k: nat)
    requires IsRun(run, moves) && k < |run| && run[0].fn && run[k].worker.WaitOver?
    ensures if run[k].cleared then run[k].started == 0 else run[k].started == 1 && run[k].finished == 1
  {
    RunInv(run, moves, k);
    CallbackKept(run, moves, k);
  }

  /** One cancel that has not begun, and everything else at its start. */
  const BEGIN := State(false, false, true, None, NotCalled, [ReadHit], WaitRead, 0, 0, false)

  /** A run in which the callback is called and `wait` then returns. */
  lemma CallbackRuns() returns (run: seq<State>, moves: seq<Actor>)
    ensures IsRun(run, moves) && run[0] == BEGIN
    ensures run[|moves|].worker.WaitOver? && run[|moves|].finished == 1
  {
    var a := NextGui(BEGIN).value;
    var b := NextGui(a).value;
    var c := NextGui(b).value;
    var d := NextGui(c).value;
    var e := NextGui(d).value;
    var f := NextGui(e).value;
    var g := NextGui(f).value;
    run := [BEGIN, a, b, c, d, e, f, g, NextWorker(g).value];
    moves := [StepGui, StepGui, StepGui, StepGui, StepGui, StepGui, StepGui, StepWorker];
  }

  /** A run in which it is cancelled first, and `wait` returns as well. */
  lemma CallbackCancelled() returns (run: seq<State>, moves: seq<Actor>)
    ensures IsRun(run, moves) && run[0] == BEGIN
    ensures run[|moves|].worker.WaitOver? && run[|moves|].cleared
  {
    var a := NextCancel(BEGIN, 0).value;
    var b := NextCancel(a, 0).value;
    var c := NextCancel(b, 0).value;
    var d := NextCancel(c, 0).value;
    var e := NextCancel(d, 0).value;
    var f := NextCancel(e, 0).value;
    run := [BEGIN, a, b, c, d, e, f, NextWorker(f).value];
    moves := [StepCancel(0), StepCancel(0), StepCancel(0), StepCancel(0), StepCancel(0), StepCancel(0), StepWorker];
  }

  // ---------------------------------------------------------------- progress

  function GuiLeft(g: Gui): nat {
    match g
    case NotCalled => 9
    case InvokeLock => 8
    case MarkHit => 7
    case TestCallback => 6
    case Running => 5
    case ReadDone => 4
    case SetDone => 3
    case Notify => 2
    case InvokeUnlock => 1
    case InvokeOver => 0
  }

  function CancelLeft(c: Canceller): nat {
    match c
    case ReadHit => 8
    case CancelLock => 7
    case TestHit => 6
    case ClearCallback => 5
    case CancelReadDone => 4
    case CancelSetDone => 3
    case CancelNotify => 2
    case CancelUnlock => 1
    case CancelOver => 0
  }

  /** `invoke` and `cancel` finish within a fixed number of their own steps, and only the lock can
      hold them up: whoever owns it can move. */
  lemma InvokeAndCancelFinish(s: State, k: nat)
    requires Inv(s) && k < |s.cancels|
    ensures NextGui(s).Some? ==> GuiLeft(NextGui(s).value.gui) < GuiLeft(s.gui)
    ensures NextCancel(s, k).Some? ==> CancelLeft(NextCancel(s, k).value.cancels[k]) < CancelLeft(s.cancels[k])
    ensures NextGui(s).None? && s.gui != InvokeOver ==> s.lock.Some? && s.lock != Some(GuiThread)
    ensures NextCancel(s, k).None? && s.cancels[k] != CancelOver ==> s.lock.Some? && s.lock != Some(CancelThread(k))
    ensures s.lock == Some(GuiThread) ==> NextGui(s).Some?
    ensures s.lock == Some(CancelThread(k)) ==> NextCancel(s, k).Some?
  {
    InvokeMoves(s);
    CancelMovesOn(s, k);
    hide NextGui, NextCancel, GuiLeft, CancelLeft, LockAgrees, Counts, DoneMeans;
  }

  lemma InvokeMoves(s: State)
    requires LockAgrees(s)
    ensures NextGui(s).Some? ==> GuiLeft(NextGui(s).value.gui) < GuiLeft(s.gui)
    ensures NextGui(s).None? && s.gui != InvokeOver ==> s.lock.Some? && s.lock != Some(GuiThread)
    ensures s.lock == Some(GuiThread) ==> NextGui(s).Some?
  {
  }

  lemma CancelMovesOn(s: State, k: nat)
    requires LockAgrees(s) && k < |s.cancels|
    ensures NextCancel(s, k).Some? ==> k < |NextCancel(s, k).value.cancels| && CancelLeft(NextCancel(s, k).value.cancels[k]) < CancelLeft(s.cancels[k])
    ensures NextCancel(s, k).None? && s.cancels[k] != CancelOver ==> s.lock.Some? && s.lock != Some(CancelThread(k))
    ensures s.lock == Some(CancelThread(k)) ==> NextCancel(s, k).Some?
  {
  }

  /** A `cancel` that finds the callback hit returns without waiting for the lock. */
  lemma LateCancelReturns(s: State, k: nat)
    requires k < |s.cancels| && s.cancels[k] == ReadHit && s.hit
    ensures NextCancel(s, k).Some? && NextCancel(s, k).value == s.(cancels := s.cancels[k := CancelOver])
  {
  }

  /** A finished `invoke`, or a finished `cancel` that was not overtaken by one, lets the waiting
      worker out within two of its own steps. */
  lemma WaitReturns(s: State)
    requires Inv(s)
    requires s.gui == InvokeOver || (!s.hit && exists k :: 0 <= k < |s.cancels| && s.cancels[k] == CancelOver)
    ensures s.done
    ensures s.worker.WaitRead? ==> NextWorker(s).value.worker == WaitOver
    ensures s.worker.WaitSleep? ==> NextWorker(NextWorker(s).value).value.worker == WaitOver
  {
  }
}
