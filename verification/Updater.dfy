/** The bootloader's updater: three files on disk, one process at a time, and a kill possible between
    any two of its steps. */
module Updater {

  /** Which files exist: the manifest, the lock of a full update, and the downloaded package. */
  datatype Disk = Disk(xml: bool, lock: bool, pkg: bool)

  datatype Reason = MissingXml | BadFiles

  datatype Outcome = Refused | Succeeded | Failed(installing: bool)

  /** NeedUpdate. */
  datatype CheckPc = Need | CheckInstall | CheckUpdate

  /** FullUpdate, before and after the download. */
  datatype FullPc =
    | DropPackage(reason: Reason) | TestLock | MakeLock
    | EndLock(outcome: Outcome) | EndPackage(outcome: Outcome) | Returned(outcome: Outcome)

  /** DownloadAndInstallMCF and downloadAndInstall. */
  datatype DownPc =
    | DropXml | GetInfo | CheckMcf | OpenDownload | Download | Install | SetReg | DeleteMcf
    | OkLock | OkPackage | Caught | CaughtXml

  /** McfUpdate and installOnly. */
  datatype McfPc =
    | McfParse | McfNewer | McfValid | McfDropXml | McfInstall | McfDump | McfSetReg
    | McfCaught | McfCaughtLock | McfLock | McfPackage | McfReturned

  /** What is done next. Off: nothing of the updater runs. */
  datatype Pc = Off | Check(c: CheckPc) | Full(f: FullPc) | Down(d: DownPc) | Mcf(m: McfPc)

  /** `installing` is m_bInstalling, which nothing sets before the download; `made` is whether this
      process got the lock file made. */
  datatype State = State(disk: Disk, pc: Pc, installing: bool, made: bool)

  /** Go: the step succeeds, or answers yes. Fail: it throws, or answers no. Deliver: the running
      application leaves a package for the next start. */
  datatype Event = Launch | Kill | Deliver | Go | Fail

  function NoPackage(d: Disk): Disk { d.(pkg := false) }
  function NoLock(d: Disk): Disk { d.(lock := false) }
  function NoXml(d: Disk): Disk { d.(xml := false) }

  function To(s: State, d: Disk, pc: Pc): State {
    s.(disk := d, pc := pc)
  }

  function CheckGo(s: State, c: CheckPc): State {
    var d := s.disk;
    match c
    case Need => To(s, d, if !d.xml then Full(DropPackage(MissingXml)) else Check(CheckInstall))
    case CheckInstall => To(s, d, Check(CheckUpdate))
    case CheckUpdate => To(s, d, if d.pkg then Mcf(McfParse) else Off)
  }

  function FullGo(s: State, f: FullPc): State {
    var d := s.disk;
    match f
    case DropPackage(_) => To(s, NoPackage(d), Full(TestLock))
    case TestLock => if d.lock then To(s, NoLock(d), Full(Returned(Refused))) else To(s, d, Full(MakeLock))
    case MakeLock => To(s, d.(lock := true), Down(DropXml)).(made := true)
    case EndLock(o) => To(s, NoLock(d), Full(EndPackage(o)))
    case EndPackage(o) => To(s, NoPackage(d), Full(Returned(o)))
    case Returned(_) => To(s, NoPackage(d), Off)
  }

  function DownGo(s: State, p: DownPc): State {
    var d := s.disk;
    match p
    case DropXml => To(s, NoXml(d), Down(GetInfo))
    case GetInfo => To(s, d.(xml := true), Down(CheckMcf))
    case CheckMcf => To(s, d, Down(OpenDownload)).(installing := false)
    case OpenDownload => To(s, d.(pkg := true), Down(Download))
    case Download => To(s, d, Down(Install)).(installing := true)
    case Install => To(s, d, Down(SetReg))
    case SetReg => To(s, d, Down(DeleteMcf)).(installing := false)
    case DeleteMcf => To(s, NoPackage(d), Down(OkLock))
    case OkLock => To(s, NoLock(d), Down(OkPackage))
    case OkPackage => To(s, NoPackage(d), Full(EndLock(Succeeded)))
    case Caught => To(s, d, Down(CaughtXml))
    case CaughtXml => To(s, if s.installing then NoXml(d) else d, Full(EndLock(Failed(s.installing))))
  }

  function McfGo(s: State, m: McfPc): State {
    var d := s.disk;
    match m
    case McfParse => To(s, d, Mcf(McfNewer))
    case McfNewer => To(s, d, Mcf(McfValid))
    case McfValid => To(s, d, Mcf(McfDropXml))
    case McfDropXml => To(s, NoXml(d), Mcf(McfInstall))
    case McfInstall => To(s, d, Mcf(McfDump))
    case McfDump => To(s, d.(xml := true), Mcf(McfSetReg))
    case McfSetReg => To(s, d, Mcf(McfLock))
    case McfCaught => To(s, NoPackage(d), Mcf(McfCaughtLock))
    case McfCaughtLock => To(s, NoLock(d), Mcf(McfReturned))
    case McfLock => To(s, NoLock(d), Mcf(McfPackage))
    case McfPackage => To(s, NoPackage(d), Mcf(McfReturned))
    case McfReturned => To(s, NoPackage(d), Off)
  }

  /** The next state when the step goes through. */
  function Proceed(s: State): State {
    match s.pc
    case Off => s
    case Check(c) => CheckGo(s, c)
    case Full(f) => FullGo(s, f)
    case Down(d) => DownGo(s, d)
    case Mcf(m) => McfGo(s, m)
  }

  predicate MayFail(s: State) {
    match s.pc
    case Off => false
    case Check(c) => c.CheckInstall? || (c.CheckUpdate? && s.disk.pkg)
    case Full(f) => f.MakeLock?
    case Down(d) => !d.DropXml? && !d.DeleteMcf? && !d.OkLock? && !d.OkPackage? && !d.CaughtXml?
    case Mcf(m) => !m.McfDropXml? && !m.McfCaughtLock? && !m.McfLock? && !m.McfPackage? && !m.McfReturned?
  }

  /** The next state when it does not. In the two catch blocks failing means that the user cancelled. */
  function Fall(s: State): State
    requires MayFail(s)
  {
    var d := s.disk;
    match s.pc
    case Check(c) => if c.CheckInstall? then To(s, d, Full(DropPackage(BadFiles))) else To(s, NoPackage(d), Off)
    case Full(f) => To(s, d, Down(DropXml)).(made := false)
    case Down(p) => if p.Caught? then To(s, NoPackage(d), Down(CaughtXml)) else To(s, d, Down(Caught))
    case Mcf(m) => To(s, d, Mcf(if m.McfNewer? then McfLock else if m.McfCaught? then McfCaughtLock else McfCaught))
  }

  ghost predicate Next(s: State, s': State, e: Event) {
    match e
    case Launch => s.pc.Off? && s' == State(s.disk, Check(Need), s'.installing, false)
    case Kill => !s.pc.Off? && s' == s.(pc := Off)
    case Deliver => s.pc.Off? && s' == s.(disk := s.disk.(pkg := true))
    case Go => !s.pc.Off? && s' == Proceed(s)
    case Fail => MayFail(s) && s' == Fall(s)
  }

  // ---------------------------------------------------------------- what holds at every step

  /** A full update that found no lock is under way. */
  predicate Attempting(pc: Pc) {
    pc.Down? || (pc.Full? && (pc.f.MakeLock? || ((pc.f.EndLock? || pc.f.EndPackage?) && !pc.f.outcome.Refused?)))
  }

  /** It has tried to make the lock and has not come to the first place that takes it away. */
  predicate Locked(pc: Pc) {
    (pc.Down? && !pc.d.OkPackage?) || (pc.Full? && pc.f.EndLock? && pc.f.outcome.Failed?)
  }

  ghost predicate FullFacts(s: State, f: FullPc) {
    var d := s.disk;
    match f
    case DropPackage(_) => true
    case TestLock => !d.pkg
    case MakeLock => !d.pkg && !d.lock
    case EndLock(o) => !o.Refused? && d.lock == (o.Failed? && s.made) && OutcomeFacts(s, o)
    case EndPackage(o) => !o.Refused? && !d.lock && OutcomeFacts(s, o)
    case Returned(o) => !d.lock && !d.pkg && OutcomeFacts(s, o)
  }

  /** A manifest after success, none after a failure that found m_bInstalling set. */
  ghost predicate OutcomeFacts(s: State, o: Outcome) {
    (o.Succeeded? ==> s.disk.xml) && (o == Failed(true) ==> !s.disk.xml)
  }

  ghost predicate DownFacts(s: State, p: DownPc) {
    var d := s.disk;
    && (p.OkPackage? || d.lock == s.made)
    && match p
       case DropXml => !d.pkg
       case GetInfo => !d.pkg && !d.xml
       case CheckMcf => !d.pkg && d.xml
       case OpenDownload => !d.pkg && d.xml && !s.installing
       case Download => d.xml && d.pkg && !s.installing
       case Install => d.xml && d.pkg && s.installing
       case SetReg => d.xml && d.pkg && s.installing
       case DeleteMcf => d.xml && d.pkg && !s.installing
       case OkLock => d.xml && !d.pkg
       case OkPackage => d.xml && !d.pkg && !d.lock
       case Caught => true
       case CaughtXml => true
  }

  ghost predicate McfFacts(s: State, m: McfPc) {
    var d := s.disk;
    match m
    case McfParse => d.xml && d.pkg
    case McfNewer => d.xml && d.pkg
    case McfValid => d.xml && d.pkg
    case McfDropXml => d.xml && d.pkg
    case McfInstall => !d.xml && d.pkg
    case McfDump => !d.xml && d.pkg
    case McfSetReg => d.xml && d.pkg
    case McfCaught => d.pkg
    case McfCaughtLock => true
    case McfLock => d.xml && d.pkg
    case McfPackage => d.xml && d.pkg && !d.lock
    case McfReturned => !d.lock
  }

  ghost predicate Inv(s: State) {
    match s.pc
    case Off => true
    case Check(c) => c.Need? || s.disk.xml
    case Full(f) => FullFacts(s, f)
    case Down(p) => DownFacts(s, p)
    case Mcf(m) => McfFacts(s, m)
  }

  lemma CheckGoInv(s: State)
    requires s.pc.Check? && Inv(s)
    ensures Inv(CheckGo(s, s.pc.c))
  {
  }

  lemma FullGoInv(s: State)
    requires s.pc.Full? && Inv(s)
    ensures Inv(FullGo(s, s.pc.f))
  {
  }

  lemma DownGoInv(s: State)
    requires s.pc.Down? && Inv(s)
    ensures Inv(DownGo(s, s.pc.d))
  {
    if s.pc.d.OkPackage? || s.pc.d.CaughtXml? {
      DownLeaveInv(s);
    } else {
      DownStayInv(s);
    }
    hide DownGo, DownFacts, FullFacts;
  }

  lemma DownLeaveInv(s: State)
    requires s.pc.Down? && DownFacts(s, s.pc.d) && (s.pc.d.OkPackage? || s.pc.d.CaughtXml?)
    ensures var r := DownGo(s, s.pc.d); r.pc.Full? && FullFacts(r, r.pc.f)
  {
  }

  lemma DownStayInv(s: State)
    requires s.pc.Down? && DownFacts(s, s.pc.d) && !s.pc.d.OkPackage? && !s.pc.d.CaughtXml?
    ensures var r := DownGo(s, s.pc.d); r.pc.Down? && DownFacts(r, r.pc.d)
  {
  }

  lemma McfGoInv(s: State)
    requires s.pc.Mcf? && Inv(s)
    ensures Inv(McfGo(s, s.pc.m))
  {
  }

  lemma FallInv(s: State)
    requires Inv(s) && MayFail(s)
    ensures Inv(Fall(s))
  {
  }

  lemma StepInv(s: State, s': State, e: Event)
    requires Inv(s) && Next(s, s', e)
    ensures Inv(s')
  {
    hide CheckGo, FullGo, DownGo, McfGo, MayFail, Fall, FullFacts, DownFacts, McfFacts;
    match e
    case Go =>
      match s.pc {
        case Check(_) => CheckGoInv(s);
        case Full(_) => FullGoInv(s);
        case Down(_) => DownGoInv(s);
        case Mcf(_) => McfGoInv(s);
      }
    case Fail => FallInv(s);
    case _ =>
  }

  // ---------------------------------------------------------------- runs

  ghost predicate Run(states: seq<State>, events: seq<Event>) {
    && |states| == |events| + 1 && states[0].pc.Off?
    && forall n | 0 <= n < |events| :: Next(states[n], states[n + 1], events[n])
  }

  lemma {:induction false} RunInv(states: seq<State>, events: seq<Event>, n: nat)
    requires Run(states, events) && n <= |events|
    ensures Inv(states[n])
  {
    if n > 0 {
      RunInv(states, events, n - 1);
      StepInv(states[n - 1], states[n], events[n - 1]);
    }
  }

  /** Whatever happened before, a full update that returns leaves neither a lock nor a package; it
      leaves a manifest if it succeeded and none if it failed with m_bInstalling set. */
  lemma FullReturnsClean(states: seq<State>, events: seq<Event>, n: nat)
    requires Run(states, events) && n <= |events| && states[n].pc.Full? && states[n].pc.f.Returned?
    ensures var d := states[n].disk; var o := states[n].pc.f.outcome;
            !d.lock && !d.pkg && (o.Succeeded? ==> d.xml) && (o == Failed(true) ==> !d.xml)
  {
    RunInv(states, events, n);
  }

  /** Every install, of a download or of a package, has its package on disk; that of a download has the
      new manifest as well, that of a package none. */
  lemma InstallPrepared(states: seq<State>, events: seq<Event>, n: nat)
    requires Run(states, events) && n <= |events|
    ensures var d := states[n].disk;
            && (states[n].pc == Down(Install) ==> d.xml && d.pkg && d.lock == states[n].made)
            && (states[n].pc == Mcf(McfInstall) ==> !d.xml && d.pkg)
  {
    RunInv(states, events, n);
  }

  /** A package update that gets through its try block leaves a manifest. */
  lemma PackageUpdateHasManifest(states: seq<State>, events: seq<Event>, n: nat)
    requires Run(states, events) && n <= |events| && (states[n].pc == Mcf(McfLock) || states[n].pc == Mcf(McfPackage))
    ensures states[n].disk.xml
  {
    RunInv(states, events, n);
  }

  /** A check for updates that ends after an update of either kind leaves neither a package nor a lock. */
  lemma UpdateEndsClean(states: seq<State>, events: seq<Event>, n: nat)
    requires Run(states, events) && n < |events| && events[n].Go?
    requires states[n].pc == Mcf(McfReturned) || (states[n].pc.Full? && states[n].pc.f.Returned?)
    ensures states[n + 1].pc.Off? && !states[n + 1].disk.pkg && !states[n + 1].disk.lock
  {
    RunInv(states, events, n);
    assert Next(states[n], states[n + 1], events[n]);
  }

  /** Which handler deletes the package: of a full update if the user cancelled, of a package update if
      not. */
  lemma HandlersDropPackageIff(s: State)
    requires s.disk.pkg && (s.pc == Down(Caught) || s.pc == Mcf(McfCaught))
    ensures !Proceed(s).disk.pkg <==> s.pc.Mcf?
    ensures MayFail(s) && (!Fall(s).disk.pkg <==> s.pc.Down?)
  {
  }

  // ---------------------------------------------------------------- the missing manifest

  ghost predicate Saves(s: State, e: Event) {
    e.Go? && (s.pc == Down(GetInfo) || s.pc == Mcf(McfDump))
  }

  lemma MissingProceed(s: State)
    requires !s.disk.xml && !Saves(s, Go)
    ensures !Proceed(s).disk.xml
  {
  }

  lemma MissingStep(s: State, s': State, e: Event)
    requires !s.disk.xml && Next(s, s', e) && !Saves(s, e)
    ensures !s'.disk.xml
  {
    hide Proceed, Saves;
    if e.Go? {
      MissingProceed(s);
    }
  }

  lemma {:induction false} StaysMissing(states: seq<State>, events: seq<Event>, i: nat, j: nat)
    requires Run(states, events) && i <= j <= |events|
    requires !states[i].disk.xml && forall k | i <= k < j :: !Saves(states[k], events[k])
    ensures !states[j].disk.xml
    decreases j
  {
    hide Next, Saves;
    if i < j {
      StaysMissing(states, events, i, j - 1);
      MissingStep(states[j - 1], states[j], events[j - 1]);
    }
  }

  /** A package install that was cut short after it removed the manifest, by a kill or by an error, is
      never taken for a good install: until a manifest is saved again, every check for updates finds
      the manifest missing and turns to a full update. */
  lemma CutInstallNoticed(states: seq<State>, events: seq<Event>, i: nat, j: nat)
    requires Run(states, events) && i < j < |events|
    requires (states[i].pc == Mcf(McfInstall) || states[i].pc == Mcf(McfDump)) && (events[i].Kill? || events[i].Fail?)
    requires forall k | i < k < j :: !Saves(states[k], events[k])
    requires states[j].pc == Check(Need) && events[j].Go?
    ensures states[j + 1].pc == Full(DropPackage(MissingXml))
  {
    RunInv(states, events, i);
    assert Next(states[i], states[i + 1], events[i]);
    StaysMissing(states, events, i + 1, j);
    assert Next(states[j], states[j + 1], events[j]);
  }

  // ---------------------------------------------------------------- failed full updates

  /** What the handler of a failed download or install leaves: the manifest saved at the start survives
      a failure of the download. It does not survive a failure of the install, and not a failure of the
      check before the download if m_bInstalling happens to start set. */
  lemma FailureKeepsManifestIff(s: State, canceled: bool)
    requires Inv(s) && s.pc.Down? && MayFail(s) && !s.pc.d.Caught?
    ensures var c := Fall(s);
            && c.pc == Down(Caught)
            && var h := if canceled then Fall(c) else Proceed(c);
            && h.pc == Down(CaughtXml)
            && (Proceed(h).disk.xml <==> s.pc.d.OpenDownload? || s.pc.d.Download? || (s.pc.d.CheckMcf? && !s.installing))
  {
  }

  /** Before the download. */
  predicate Early(pc: Pc) {
    pc.Check? || (pc.Full? && (pc.f.DropPackage? || pc.f.TestLock? || pc.f.MakeLock?))
    || (pc.Down? && (pc.d.DropXml? || pc.d.GetInfo? || pc.d.CheckMcf?))
  }

  lemma EarlyStep(s: State, s': State, e: Event)
    requires Early(s.pc) && Early(s'.pc) && Next(s, s', e)
    ensures s'.installing == s.installing
  {
  }

  /** That far m_bInstalling is whatever it was when the process started. */
  lemma {:induction false} UnsetUntilDownload(states: seq<State>, events: seq<Event>, i: nat, j: nat)
    requires Run(states, events) && i <= j <= |events| && forall k | i <= k <= j :: Early(states[k].pc)
    ensures states[j].installing == states[i].installing
    decreases j
  {
    hide Next, Early;
    if i < j {
      UnsetUntilDownload(states, events, i, j - 1);
      EarlyStep(states[j - 1], states[j], events[j - 1]);
    }
  }

  /** A run in which it does start set: the manifest that the update has just saved is deleted although
      nothing had been installed. */
  lemma FreshManifestLost() returns (states: seq<State>, events: seq<Event>)
    ensures Run(states, events) && |events| == 10
    ensures states[7].pc == Down(CheckMcf) && states[7].disk.xml && events[7] == Fail
    ensures states[10].pc == Full(EndLock(Failed(true))) && !states[10].disk.xml
  {
    var off := State(Disk(false, false, false), Off, false, false);
    var a := State(off.disk, Check(Need), true, false);
    var b := Proceed(a);
    var c := Proceed(b);
    var d := Proceed(c);
    var e := Proceed(d);
    var f := Proceed(e);
    var g := Proceed(f);
    var h := Fall(g);
    var k := Proceed(h);
    states := [off, a, b, c, d, e, f, g, h, k, Proceed(k)];
    events := [Launch, Go, Go, Go, Go, Go, Go, Fail, Go, Go];
  }

  // ---------------------------------------------------------------- killed full updates

  /** While a full update is under way, the lock is on disk exactly between making it, if that worked,
      and the first deletion that the outcome leads to. */
  lemma LockOnDiskIff(s: State)
    requires Inv(s) && Attempting(s.pc)
    ensures s.disk.lock <==> s.made && Locked(s.pc)
  {
  }

  /** From the step that makes the lock on, the lock is on disk as long as the update has not come to a
      place that deletes it. */
  lemma {:induction false} LockFromMaking(states: seq<State>, events: seq<Event>, i: nat, j: nat)
    requires Run(states, events) && i < j <= |events|
    requires states[i].pc == Full(MakeLock) && events[i].Go? && forall k | i < k <= j :: Locked(states[k].pc)
    ensures states[j].made && states[j].disk.lock
    decreases j
  {
    RunInv(states, events, j);
    LockedHasLock(states[j]);
    hide Inv, Locked;
    assert Next(states[j - 1], states[j], events[j - 1]);
    if i < j - 1 {
      LockFromMaking(states, events, i, j - 1);
      assert Locked(states[j - 1].pc) && Locked(states[j].pc);
      MadeStays(states[j - 1], states[j], events[j - 1]);
    }
  }

  lemma LockedHasLock(s: State)
    requires Inv(s) && Locked(s.pc)
    ensures s.disk.lock == s.made
  {
  }

  lemma MadeStays(s: State, s': State, e: Event)
    requires Locked(s.pc) && Locked(s'.pc) && Next(s, s', e)
    ensures s'.made == s.made
  {
  }

  /** The two kinds of step that clear the way: a refused full update, and the end of a package update. */
  ghost predicate Clears(s: State, e: Event) {
    e.Go? && ((s.pc == Full(TestLock) && s.disk.lock) || s.pc == Mcf(McfCaughtLock) || s.pc == Mcf(McfLock))
  }

  ghost predicate ClearedBetween(states: seq<State>, events: seq<Event>, i: nat, j: nat)
    requires |states| == |events| + 1 && j <= |events|
  {
    exists k :: i <= k < j && Clears(states[k], events[k])
  }

  lemma LockStep(s: State, s': State, e: Event)
    requires s.disk.lock && !Attempting(s.pc) && Inv(s) && Next(s, s', e)
    ensures Clears(s, e) || (s'.disk.lock && !Attempting(s'.pc))
  {
  }

  /** A lock left on disk is honoured: no full update gets past its test until one has been refused or
      a package update has ended. */
  lemma {:induction false} LockHonoured(states: seq<State>, events: seq<Event>, i: nat, j: nat)
    requires Run(states, events) && i <= j <= |events|
    requires states[i].disk.lock && states[i].pc.Off?
    ensures ClearedBetween(states, events, i, j) || (states[j].disk.lock && !Attempting(states[j].pc))
    decreases j
  {
    assert !Attempting(Off);
    hide Next, Attempting, Inv, Clears;
    if i < j {
      LockHonoured(states, events, i, j - 1);
      RunInv(states, events, j - 1);
      if !ClearedBetween(states, events, i, j - 1) {
        LockStep(states[j - 1], states[j], events[j - 1]);
      }
    }
  }

  /** A full update killed while its lock is on disk is not tried again before one has been refused or
      a package update has ended. */
  lemma KilledNotRetried(states: seq<State>, events: seq<Event>, i: nat, j: nat)
    requires Run(states, events) && i < j <= |events|
    requires Attempting(states[i].pc) && events[i].Kill? && states[i].disk.lock
    requires Attempting(states[j].pc)
    ensures ClearedBetween(states, events, i + 1, j)
  {
    assert Next(states[i], states[i + 1], events[i]);
    LockHonoured(states, events, i + 1, j);
  }

  /** A run from `s` in which a full update gets under way and nothing has cleared the way for it. */
  ghost predicate TriedAgain(s: State, states: seq<State>, events: seq<Event>) {
    && Run(states, events) && states[0] == s && Attempting(states[|events|].pc)
    && !ClearedBetween(states, events, 0, |events|)
  }

  lemma NoLockRetried(s: State) returns (states: seq<State>, events: seq<Event>)
    requires s.pc.Off? && !s.disk.lock
    ensures TriedAgain(s, states, events)
  {
    var a := State(s.disk, Check(Need), false, false);
    var b := Proceed(a);
    if s.disk.xml {
      var c := Fall(b);
      var d := Proceed(c);
      states, events := [s, a, b, c, d, Proceed(d)], [Launch, Go, Fail, Go, Go];
    } else {
      var c := Proceed(b);
      states, events := [s, a, b, c, Proceed(c)], [Launch, Go, Go, Go];
    }
  }

  /** Whether a killed full update can be tried again at once is decided by the lock on disk: it can if
      it was killed before the lock was made or after it was gone, or if making the lock had failed. */
  lemma RetryIff(s: State)
    requires Inv(s) && Attempting(s.pc)
    ensures (exists states, events :: TriedAgain(s.(pc := Off), states, events)) <==>
            !(s.made && Locked(s.pc))
  {
    LockOnDiskIff(s);
    var killed := s.(pc := Off);
    if s.disk.lock {
      forall states, events ensures !TriedAgain(killed, states, events) {
        if Run(states, events) && states[0] == killed {
          LockHonoured(states, events, 0, |events|);
        }
      }
    } else {
      var states, events := NoLockRetried(killed);
    }
  }
}
