/** The updater in its own form: files made and deleted in order, with exceptions, and with a kill
    possible before every step. Whatever such processes do, one after another, is a run of the step
    relation in Updater. */
module UpdaterProcess {
  import opened Updater

  /** How a function ends. */
  datatype Flow = Finished | Threw | Killed

  datatype Decision = NoUpdate | FromMcf | FullBecause(reason: Reason) | KilledDeciding

  /** A run as it is noted while it happens. */
  datatype History = Start(s: State) | Then(before: History, e: Event, s: State)

  ghost predicate Good(h: History) {
    match h
    case Start(_) => true
    case Then(before, e, s) => Good(before) && Next(before.s, s, e)
  }

  ghost function Origin(h: History): State {
    match h
    case Start(s) => s
    case Then(before, _, _) => Origin(before)
  }

  ghost function States(h: History): seq<State> {
    match h
    case Start(s) => [s]
    case Then(before, _, s) => States(before) + [s]
  }

  ghost function Events(h: History): seq<Event> {
    match h
    case Start(_) => []
    case Then(before, e, _) => Events(before) + [e]
  }

  /** A noted run that starts with nothing running is a run of the step relation. */
  lemma {:induction false} GoodIsRun(h: History)
    requires Good(h) && Origin(h).pc.Off?
    ensures Run(States(h), Events(h))
    ensures States(h)[0] == Origin(h) && States(h)[|Events(h)|] == h.s
  {
    if h.Then? {
      hide Next;
      GoodIsRun(h.before);
      var states, events := States(h.before), Events(h.before);
      forall n | 0 <= n < |events| + 1 ensures Next(States(h)[n], States(h)[n + 1], Events(h)[n]) {
        if n < |events| {
          assert Next(states[n], states[n + 1], events[n]);
        }
      }
    }
  }

  /** Where a decision leads. */
  function AfterDeciding(d: Decision): Pc {
    match d
    case NoUpdate => Off
    case FromMcf => Mcf(McfParse)
    case FullBecause(reason) => Full(DropPackage(reason))
    case KilledDeciding => Off
  }

  class Bootloader {
    var xml: bool
    var lock: bool
    var pkg: bool
    /** m_bInstalling, which the constructor of the form leaves unset. */
    var installing: bool
    ghost var at: Pc
    ghost var made: bool
    /** What has happened since this process was launched. */
    ghost var history: History

    ghost function Now(): State
      reads this
    {
      State(Disk(xml, lock, pkg), at, installing, made)
    }

    /** The steps noted so far end here. */
    ghost predicate Valid()
      reads this
    {
      Good(history) && history.s == Now()
    }

    ghost function From(): State
      reads this
    {
      Origin(history)
    }

    constructor (disk: Disk)
      ensures Valid() && at == Off && Now().disk == disk
    {
      xml, lock, pkg := disk.xml, disk.lock, disk.pkg;
      installing, at, made := false, Off, false;
      history := Start(State(disk, Off, false, false));
    }

    /** Notes the step just made: the files have changed as the step relation says. */
    ghost method Record(e: Event, pc: Pc)
      requires Good(history) && Next(history.s, State(Disk(xml, lock, pkg), pc, installing, made), e)
      modifies this`at, this`history
      ensures Valid() && at == pc && From() == old(From())
    {
      at := pc;
      history := Then(history, e, Now());
    }

    /** The step went through. */
    ghost method Went(pc: Pc)
      requires Good(history) && !history.s.pc.Off?
      requires Proceed(history.s) == State(Disk(xml, lock, pkg), pc, installing, made)
      modifies this`at, this`history
      ensures Valid() && at == pc && From() == old(From())
    {
      Record(Go, pc);
    }

    /** It did not. */
    ghost method Fell(pc: Pc)
      requires Good(history) && MayFail(history.s)
      requires Fall(history.s) == State(Disk(xml, lock, pkg), pc, installing, made)
      modifies this`at, this`history
      ensures Valid() && at == pc && From() == old(From())
    {
      Record(Fail, pc);
    }

    /** The package is deleted if it is there. */
    method DeletePackage()
      modifies this`pkg
      ensures !pkg
    {
      if pkg {
        pkg := false;
      }
    }

    method DeleteLock()
      modifies this`lock
      ensures !lock
    {
      if lock {
        lock := false;
      }
    }

    /** An answer from outside: a call that succeeds or throws, a user who cancels or does not. */
    method Answer() returns (yes: bool)
    {
      yes := *;
    }

    method MayBeKilled() returns (killed: bool)
      requires Valid() && at != Off
      modifies this`at, this`history
      ensures Valid() && at == (if killed then Off else old(at)) && From() == old(From())
    {
      hide Good, Origin;
      killed := Answer();
      if killed {
        Record(Kill, Off);
      }
    }

    /** `CheckForUpdates`, one process from its start to its end or its kill. */
    method CheckForUpdates()
      requires at == Off
      modifies this
      ensures Good(history) && Origin(history) == old(Now()) && history.s == Now() && at == Off
    {
      history := Start(Now());
      installing := Answer();
      made := false;
      Record(Launch, Check(Need));
      hide Good, Origin, Next, Proceed;
      var filesFit := Answer();
      var goodPackage := Answer();
      var decision := NeedUpdate(filesFit, goodPackage);
      if decision.FromMcf? {
        var flow := McfUpdate();
        if flow.Finished? {
          LeaveNoPackage();
        }
      } else if decision.FullBecause? {
        var flow := FullUpdate();
        if flow.Finished? {
          LeaveNoPackage();
        }
      }
    }

    /** The package is deleted after either kind of update. */
    method LeaveNoPackage()
      requires Valid() && (at == Mcf(McfReturned) || (at.Full? && at.f.Returned?))
      modifies this`pkg, this`at, this`history
      ensures Valid() && From() == old(From()) && at == Off
    {
      hide Good, Origin, Next, CheckGo, DownGo;
      var killed := MayBeKilled();
      if killed { return; }
      DeletePackage();
      Went(Off);
    }

    /** `NeedUpdate`, with the package check it makes: `filesFit` is what CheckInstall answers, `goodPackage`
        what CheckUpdate finds. */
    method NeedUpdate(filesFit: bool, goodPackage: bool) returns (d: Decision)
      requires Valid() && at == Check(Need)
      modifies this`pkg, this`at, this`history
      ensures Valid() && From() == old(From()) && at == AfterDeciding(d)
      ensures d != KilledDeciding ==>
                d == if !xml then FullBecause(MissingXml)
                     else if !filesFit then FullBecause(BadFiles)
                     else if old(pkg) && goodPackage then FromMcf
                     else NoUpdate
      ensures if d.NoUpdate? then !pkg else pkg == old(pkg)
    {
      hide Good, Origin, Next, FullGo, DownGo, McfGo;
      var killed := MayBeKilled();
      if killed { return KilledDeciding; }
      if !xml {
        Went(Full(DropPackage(MissingXml)));
        return FullBecause(MissingXml);
      }
      Went(Check(CheckInstall));
      killed := MayBeKilled();
      if killed { return KilledDeciding; }
      if !filesFit {
        Fell(Full(DropPackage(BadFiles)));
        return FullBecause(BadFiles);
      }
      Went(Check(CheckUpdate));
      d := LookAtPackage(goodPackage);
    }

    /** The last part of `NeedUpdate`: a package is used if it is good and deleted if it is not. */
    method LookAtPackage(goodPackage: bool) returns (d: Decision)
      requires Valid() && at == Check(CheckUpdate)
      modifies this`pkg, this`at, this`history
      ensures Valid() && From() == old(From()) && at == AfterDeciding(d)
      ensures d != KilledDeciding ==> d == if old(pkg) && goodPackage then FromMcf else NoUpdate
      ensures if d.NoUpdate? then !pkg else pkg == old(pkg)
    {
      hide Good, Origin, Next, FullGo, DownGo, McfGo;
      var killed := MayBeKilled();
      if killed { return KilledDeciding; }
      if pkg {
        if goodPackage {
          Went(Mcf(McfParse));
          return FromMcf;
        }
        pkg := false;
        Fell(Off);
        return NoUpdate;
      }
      Went(Off);
      d := NoUpdate;
    }

    /** `FullUpdate`. */
    method FullUpdate() returns (flow: Flow)
      requires Valid() && at.Full? && at.f.DropPackage?
      modifies this
      ensures Valid() && From() == old(From()) && flow != Threw
      ensures flow.Killed? ==> at == Off
      ensures flow.Finished? ==> at.Full? && at.f.Returned? && (at.f.outcome.Refused? <==> old(lock)) && !lock && !pkg
    {
      hide Good, Origin, Next, CheckGo, DownGo, McfGo;
      var killed := MayBeKilled();
      if killed { return Killed; }
      DeletePackage();
      Went(Full(TestLock));
      killed := MayBeKilled();
      if killed { return Killed; }
      if lock {
        lock := false;
        Went(Full(Returned(Refused)));
        return Finished;
      }
      Went(Full(MakeLock));
      killed := MayBeKilled();
      if killed { return Killed; }
      var lockOpened := Answer();
      if lockOpened {
        lock, made := true, true;
        Went(Down(DropXml));
      } else {
        made := false;
        Fell(Down(DropXml));
      }
      flow := DownloadAndInstallMCF();
      if flow.Killed? { return Killed; }
      flow := FinishFull();
    }

    /** The deletions at the end of `FullUpdate`. */
    method FinishFull() returns (flow: Flow)
      requires Valid() && at.Full? && at.f.EndLock? && !at.f.outcome.Refused?
      modifies this`lock, this`pkg, this`at, this`history
      ensures Valid() && From() == old(From()) && flow != Threw
      ensures flow.Killed? ==> at == Off
      ensures flow.Finished? ==> at == Full(Returned(old(at).f.outcome)) && !lock && !pkg
    {
      hide Good, Origin, Next, CheckGo, DownGo, McfGo;
      var killed := MayBeKilled();
      if killed { return Killed; }
      DeleteLock();
      Went(Full(EndPackage(old(at).f.outcome)));
      killed := MayBeKilled();
      if killed { return Killed; }
      DeletePackage();
      Went(Full(Returned(old(at).f.outcome)));
      flow := Finished;
    }

    /** `DownloadAndInstallMCF`. */
    method DownloadAndInstallMCF() returns (flow: Flow)
      requires Valid() && at == Down(DropXml)
      modifies this
      ensures Valid() && From() == old(From()) && flow != Threw
      ensures flow.Killed? ==> at == Off
      ensures flow.Finished? ==> at.Full? && at.f.EndLock? && !at.f.outcome.Refused?
    {
      hide Good, Origin, Next, Proceed;
      flow := DownloadAndInstall();
      if flow.Killed? { return Killed; }
      if flow.Threw? {
        flow := CatchDownload();
      } else {
        flow := AfterDownload();
      }
    }

    /** Its handler: a cancelled update deletes the package, one with m_bInstalling set the manifest. */
    method CatchDownload() returns (flow: Flow)
      requires Valid() && at == Down(Caught)
      modifies this`xml, this`pkg, this`at, this`history
      ensures Valid() && From() == old(From()) && flow != Threw
      ensures flow.Killed? ==> at == Off
      ensures flow.Finished? ==> at == Full(EndLock(Failed(installing)))
    {
      hide Good, Origin, Next, CheckGo, FullGo, McfGo;
      var killed := MayBeKilled();
      if killed { return Killed; }
      var canceled := Answer();
      if canceled {
        pkg := false;
        Fell(Down(CaughtXml));
      } else {
        Went(Down(CaughtXml));
      }
      killed := MayBeKilled();
      if killed { return Killed; }
      if installing {
        xml := false;
      }
      Went(Full(EndLock(Failed(installing))));
      flow := Finished;
    }

    /** What follows its try block. */
    method AfterDownload() returns (flow: Flow)
      requires Valid() && at == Down(OkLock)
      modifies this`lock, this`pkg, this`at, this`history
      ensures Valid() && From() == old(From()) && flow != Threw
      ensures flow.Killed? ==> at == Off
      ensures flow.Finished? ==> at == Full(EndLock(Succeeded))
    {
      hide Good, Origin, Next, CheckGo, FullGo, McfGo;
      var killed := MayBeKilled();
      if killed { return Killed; }
      DeleteLock();
      Went(Down(OkPackage));
      killed := MayBeKilled();
      if killed { return Killed; }
      DeletePackage();
      Went(Full(EndLock(Succeeded)));
      flow := Finished;
    }

    /** A call that only goes through, throws or is cut off. */
    method Call(next: Pc, caught: Pc) returns (flow: Flow)
      requires Valid() && MayFail(Now())
      requires Proceed(Now()) == Now().(pc := next) && Fall(Now()) == Now().(pc := caught)
      modifies this`at, this`history
      ensures Valid() && From() == old(From())
      ensures at == match flow
                    case Finished => next
                    case Threw => caught
                    case Killed => Off
    {
      hide Good, Origin, Next;
      var killed := MayBeKilled();
      if killed { return Killed; }
      var ok := Answer();
      if ok {
        Went(next);
        return Finished;
      }
      Fell(caught);
      flow := Threw;
    }

    /** `downloadAndInstall`. */
    method DownloadAndInstall() returns (flow: Flow)
      requires Valid() && at == Down(DropXml)
      modifies this
      ensures Valid() && From() == old(From())
      ensures at == match flow
                    case Finished => Down(OkLock)
                    case Threw => Down(Caught)
                    case Killed => Off
    {
      hide Good, Origin, Next, CheckGo, FullGo, McfGo;
      flow := FetchPackage();
      if !flow.Finished? { return flow; }
      flow := Call(Down(SetReg), Down(Caught));     // install
      if !flow.Finished? { return flow; }
      flow := FinishInstall();
    }

    /** The end of `downloadAndInstall`: registration, and the package deleted. */
    method FinishInstall() returns (flow: Flow)
      requires Valid() && at == Down(SetReg)
      modifies this`pkg, this`installing, this`at, this`history
      ensures Valid() && From() == old(From())
      ensures at == match flow
                    case Finished => Down(OkLock)
                    case Threw => Down(Caught)
                    case Killed => Off
      ensures flow.Finished? ==> !pkg && !installing
    {
      hide Good, Origin, Next, CheckGo, FullGo, McfGo;
      var killed := MayBeKilled();
      if killed { return Killed; }
      var registered := Answer();
      if !registered {
        Fell(Down(Caught));
        return Threw;
      }
      installing := false;
      Went(Down(DeleteMcf));
      killed := MayBeKilled();
      if killed { return Killed; }
      pkg := false;
      Went(Down(OkLock));
      flow := Finished;
    }

    /** The first part of `downloadAndInstall`, up to the downloaded package. */
    method FetchPackage() returns (flow: Flow)
      requires Valid() && at == Down(DropXml)
      modifies this`xml, this`pkg, this`installing, this`at, this`history
      ensures Valid() && From() == old(From())
      ensures at == match flow
                    case Finished => Down(Install)
                    case Threw => Down(Caught)
                    case Killed => Off
    {
      hide Good, Origin, Next, CheckGo, FullGo, McfGo;
      flow := SaveInfo();
      if !flow.Finished? { return flow; }
      var killed := MayBeKilled();
      if killed { return Killed; }
      var served := Answer();
      if !served {
        Fell(Down(Caught));
        return Threw;
      }
      installing := false;
      Went(Down(OpenDownload));
      flow := Download();
    }

    /** The manifest is deleted, and `getUpdateInfo` saves a new one. */
    method SaveInfo() returns (flow: Flow)
      requires Valid() && at == Down(DropXml)
      modifies this`xml, this`at, this`history
      ensures Valid() && From() == old(From())
      ensures at == match flow
                    case Finished => Down(CheckMcf)
                    case Threw => Down(Caught)
                    case Killed => Off
      ensures !flow.Killed? ==> (xml <==> flow.Finished?)
    {
      hide Good, Origin, Next, CheckGo, FullGo, McfGo;
      var killed := MayBeKilled();
      if killed { return Killed; }
      if xml {
        xml := false;
      }
      Went(Down(GetInfo));
      killed := MayBeKilled();
      if killed { return Killed; }
      var info := Answer();
      if !info {
        Fell(Down(Caught));
        return Threw;
      }
      xml := true;
      Went(Down(CheckMcf));
      flow := Finished;
    }

    /** `downloadMcf`: the file is opened before the transfer. */
    method Download() returns (flow: Flow)
      requires Valid() && at == Down(OpenDownload)
      modifies this`pkg, this`installing, this`at, this`history
      ensures Valid() && From() == old(From())
      ensures at == match flow
                    case Finished => Down(Install)
                    case Threw => Down(Caught)
                    case Killed => Off
    {
      hide Good, Origin, Next, CheckGo, FullGo, McfGo;
      var killed := MayBeKilled();
      if killed { return Killed; }
      var open := Answer();
      if !open {
        Fell(Down(Caught));
        return Threw;
      }
      pkg := true;
      Went(Down(Updater.Download));
      killed := MayBeKilled();
      if killed { return Killed; }
      var complete := Answer();
      if !complete {
        Fell(Down(Caught));
        return Threw;
      }
      installing := true;
      Went(Down(Install));
      flow := Finished;
    }

    /** `McfUpdate`. */
    method McfUpdate() returns (flow: Flow)
      requires Valid() && at == Mcf(McfParse)
      modifies this`xml, this`lock, this`pkg, this`at, this`history
      ensures Valid() && From() == old(From()) && flow != Threw
      ensures flow.Killed? ==> at == Off
      ensures flow.Finished? ==> at == Mcf(McfReturned) && !lock
    {
      hide Good, Origin, Next, Proceed;
      flow := InstallOnly();
      if flow.Killed? { return Killed; }
      if flow.Threw? {
        flow := CatchInstall();
      } else {
        flow := AfterInstall();
      }
    }

    /** Its handler: unless the user cancelled, the package is deleted. */
    method CatchInstall() returns (flow: Flow)
      requires Valid() && at == Mcf(McfCaught)
      modifies this`lock, this`pkg, this`at, this`history
      ensures Valid() && From() == old(From()) && flow != Threw
      ensures flow.Killed? ==> at == Off
      ensures flow.Finished? ==> at == Mcf(McfReturned) && !lock
    {
      hide Good, Origin, Next, CheckGo, FullGo, DownGo;
      var killed := MayBeKilled();
      if killed { return Killed; }
      var canceled := Answer();
      if canceled {
        Fell(Mcf(McfCaughtLock));
      } else {
        pkg := false;
        Went(Mcf(McfCaughtLock));
      }
      flow := ReleaseLock();
    }

    method ReleaseLock() returns (flow: Flow)
      requires Valid() && at == Mcf(McfCaughtLock)
      modifies this`lock, this`at, this`history
      ensures Valid() && From() == old(From()) && flow != Threw
      ensures flow.Killed? ==> at == Off
      ensures flow.Finished? ==> at == Mcf(McfReturned) && !lock
    {
      hide Good, Origin, Next, CheckGo, FullGo, DownGo;
      var killed := MayBeKilled();
      if killed { return Killed; }
      DeleteLock();
      Went(Mcf(McfReturned));
      flow := Finished;
    }

    /** What follows its try block. */
    method AfterInstall() returns (flow: Flow)
      requires Valid() && at == Mcf(McfLock)
      modifies this`lock, this`pkg, this`at, this`history
      ensures Valid() && From() == old(From()) && flow != Threw
      ensures flow.Killed? ==> at == Off
      ensures flow.Finished? ==> at == Mcf(McfReturned) && !lock && !pkg
    {
      hide Good, Origin, Next, CheckGo, FullGo, DownGo;
      var killed := MayBeKilled();
      if killed { return Killed; }
      DeleteLock();
      Went(Mcf(McfPackage));
      killed := MayBeKilled();
      if killed { return Killed; }
      DeletePackage();
      Went(Mcf(McfReturned));
      flow := Finished;
    }

    /** `installOnly`. A package that is not newer ends it without an exception. */
    method InstallOnly() returns (flow: Flow)
      requires Valid() && at == Mcf(McfParse)
      modifies this`xml, this`at, this`history
      ensures Valid() && From() == old(From())
      ensures at == match flow
                    case Finished => Mcf(McfLock)
                    case Threw => Mcf(McfCaught)
                    case Killed => Off
    {
      hide Good, Origin, Next, CheckGo, FullGo, DownGo;
      flow := Call(Mcf(McfNewer), Mcf(McfCaught));     // parseMCF
      if !flow.Finished? { return flow; }
      flow := Call(Mcf(McfValid), Mcf(McfLock));       // isUpdateNewer
      if flow.Threw? { return Finished; }
      if flow.Killed? { return Killed; }
      flow := Call(Mcf(McfDropXml), Mcf(McfCaught));   // isValidInstaller
      if !flow.Finished? { return flow; }
      flow := ReplaceInstall();
    }

    /** The part of `installOnly` from the removal of the manifest on. */
    method ReplaceInstall() returns (flow: Flow)
      requires Valid() && at == Mcf(McfDropXml)
      modifies this`xml, this`at, this`history
      ensures Valid() && From() == old(From())
      ensures at == match flow
                    case Finished => Mcf(McfLock)
                    case Threw => Mcf(McfCaught)
                    case Killed => Off
      ensures flow.Finished? ==> xml
    {
      hide Good, Origin, Next, CheckGo, FullGo, DownGo;
      var killed := MayBeKilled();
      if killed { return Killed; }
      xml := false;
      Went(Mcf(McfInstall));
      flow := Call(Mcf(McfDump), Mcf(McfCaught));      // install
      if !flow.Finished? { return flow; }
      flow := DumpManifest();
    }

    method DumpManifest() returns (flow: Flow)
      requires Valid() && at == Mcf(McfDump)
      modifies this`xml, this`at, this`history
      ensures Valid() && From() == old(From())
      ensures at == match flow
                    case Finished => Mcf(McfLock)
                    case Threw => Mcf(McfCaught)
                    case Killed => Off
      ensures flow.Finished? ==> xml
    {
      hide Good, Origin, Next, CheckGo, FullGo, DownGo;
      var killed := MayBeKilled();
      if killed { return Killed; }
      var dumped := Answer();
      if !dumped {
        Fell(Mcf(McfCaught));
        return Threw;
      }
      xml := true;
      Went(Mcf(McfSetReg));
      flow := Call(Mcf(McfLock), Mcf(McfCaught));      // setRegValues
    }
  }
}
