# Desura client: verified models

This project models the self-contained algorithms and protocols of the Desura client and proves
properties of them that hold for every input, every run or every interleaving.

| part | modules | subject |
|---|---|---|
| Reference counting | RefHeap, RefInvariant, RefSafety, RefGraph, RefRuns, RefAcyclic, RefOrder, RefOutcome, RefMemory | intrusive counts, cascading deletes, live against reachable objects |
| Events | EventFold, EventQueue, EventThreads, EventOperations | deferred registration: one thread with an ownership ledger, and any number of threads over two locks |
| Call hand-over | Invoker | one invoke, any number of cancels and one wait, step by step |
| Formatting | FormatSpec, FormatMeaning, FormatRendered, FormatScanner | the placeholder language and the scanner that consumes its input |
| Traces | TraceRecord, TraceRing, TraceRecovery, TraceThreads, TraceDump | escaped records, the ring with its wrapping ticket, concurrent writers, the dump |
| JavaScript bindings | JsTable, JsPins | the dispatch table as a map, the cache that pins objects |
| Context menus | ContextMenu | a tree kept as a flat bracketed list |
| Updater | Updater, UpdaterProcess | three files and a kill at any step |

Code that changes state in place is modelled by classes and loops (RefMemory, EventQueue, FormatScanner,
TraceRecord, TraceRing, TraceDump, JsTable, JsPins, ContextMenu, UpdaterProcess), each method proved against functions
about which the properties are then proved. Protocols between threads or processes are step relations
(EventThreads, Invoker, TraceThreads, Updater) with an invariant over all runs.

The parts build on one another: the trace records and the pin keys are produced by the modelled
scanner, the dump reads the memory that the modelled ring has written, and the pins are references in
the modelled heap.

Where the code and its comments or evident intent differ, the code is modelled:

- `swap` leaves the release functions where they are. RefRuns.SwapSafeIff says when that is harmless,
  RefOrder.SwapLosesRelease is a heap in which it is not. RefAcyclic.SwapExactIff says when it leaks.
- A write to a member may free the object that is written to. RefSafety.AssignFaultIff and
  RefSafety.ResetFaultIff say exactly when, RefOrder.RingMemberFreed is a heap in which it happens.
- A placeholder such as `{0,x}` makes the scanner loop for ever (FormatMeaning.BadWidthDiverges);
  FormatMeaning.TerminatesIff says for which formats it returns.
- Trace keys are not escaped (TraceRecord.QuotedKeyLost); TraceRecord.RecordReadsBackIff says when a
  record still reads back.
- A record may total 512 characters, of which a segment keeps 511 (TraceRecovery.FullSegmentLost);
  TraceRecovery.CutReadsBackIff says which records survive their segment, TraceDump.DumpReadsBackIff
  which dumps read back.
- Moving queued delegates into an event's list shows if one of them has been cancelled meanwhile
  (EventQueue.CanceledShows); EventQueue.MigrationInvisibleIff says exactly when.
- A hash can be in the dispatch table and not be found (JsTable.EveryHashHides); JsTable.FindIff names
  the one case.
- `m_bInstalling` is not set when an update starts, so a failure before the download may delete the
  manifest just saved (Updater.FreshManifestLost); Updater.FailureKeepsManifestIff says when.
- A menu appended to itself is copied for ever (ContextMenu.SelfAppendNeverEnds).
- A full update killed just before its lock is made or just after it is deleted is not refused next
  time; Updater.RetryIff says when exactly.

`dafny verify dfyconfig.toml` checks the whole project.

## Model

| member | source | states |
|---|---|---|
| `RefInvariant.CascadeDelRef` | src/include/util/UtilPtr.h:100-108 | Releasing one reference, however far the cascade of deletes goes, touches no freed memory, leaves every count exact and keeps everything that is still led to from outside |
| `RefInvariant.CascadeFields` | src/include/util/UtilPtr.h:158-162 | The members of a dying object are destroyed one after another; each may start a cascade, and the members still to come outlive it |
| `RefInvariant.CascadeSlot` | src/include/util/UtilPtr.h:158-162 | Destroying a slot ends its lifetime and gives back exactly its reference |
| `RefInvariant.DyingUnkept` | src/include/util/UtilPtr.h:103-107 | An object whose destructor is running is led to by nothing outside and held by no set of objects that keeps itself alive |
| `RefInvariant.ReachedIsKept` | src/include/util/UtilPtr.h:100-112 | What something outside leads to belongs to a set of objects that keeps itself alive |
| `RefSafety.LedgerDelRef` | src/include/util/UtilPtr.h:103-107 | Across a cascade every allocation stays either live at one address or freed, and freed once |
| `RefSafety.AssignSafe` | src/include/util/UtilPtr.h:187-204 | In any heap, cyclic or not, assignment keeps the count invariant and frees neither its new target nor the object that contains the slot, if that object is kept alive by anything but the slot |
| `RefSafety.AssignFaultIff` | src/include/util/UtilPtr.h:187-199 | Assignment touches freed memory exactly if the object that contains the slot is kept alive by nothing else: not from outside, not through the new target, not by a cycle |
| `RefSafety.ResetSafe` | src/include/util/UtilPtr.h:243-250 | `reset` keeps the count invariant, leaves the slot null and does not free the object that contains the slot, under the same condition |
| `RefSafety.ResetFaultIff` | src/include/util/UtilPtr.h:243-250 | `reset` touches freed memory exactly if the object that contains the slot is kept alive by nothing else |
| `RefSafety.WritableSurvives` | src/include/util/UtilPtr.h:187-250 | A slot of an object that something outside leads to may always be written |
| `RefSafety.ConstructRawSafe` | src/include/util/UtilPtr.h:128-136 | Constructing from a live pointer adds one reference and changes nothing else |
| `RefSafety.ConstructCopySafe` | src/include/util/UtilPtr.h:148-156 | Copy construction adds one reference if the source is non-null and changes nothing else |
| `RefSafety.CreateSafe` | src/include/util/UtilPtr.h:223-227 | A created object has null members, one reference, a serial never used before, and nothing else changes |
| `RefSafety.DestroySafe` | src/include/util/UtilPtr.h:158-162 | Ending the life of a slot keeps the count invariant and removes only that slot and objects freed with their members |
| `RefSafety.TakeRawSafe` | src/include/util/UtilPtr.h:102-102 | A bare `addRef` is one reference more to account for |
| `RefSafety.DropRawSafe` | src/include/util/UtilPtr.h:103-108 | A bare `delRef` is one reference less; every object still led to survives |
| `RefSafety.NonNullHasFn` | src/include/util/UtilPtr.h:124-162 | A non-null slot has a release function, and its target is live |
| `RefSafety.WriteSlot` | src/include/util/UtilPtr.h:195-197 | Taking the new reference, dropping the old one and storing, in that order, keeps the invariant although the drop may cascade |
| `RefSafety.WriteFaultIff` | src/include/util/UtilPtr.h:195-197 | Such a write touches freed memory exactly if the container of the slot does not survive it |
| `RefGraph.GarbageHasHolder` | src/include/util/UtilPtr.h:100-112 | An object that leaks is held by a member of another one that leaks |
| `RefGraph.LeakIffCycle` | src/include/util/UtilPtr.h:100-112 | There are leaked objects exactly if there is a cycle of leaked objects |
| `RefGraph.LiveIsReached` | src/include/util/UtilPtr.h:100-112 | In an acyclic heap the live objects are exactly those that something outside leads to |
| `RefGraph.AssignAcyclicIff` | src/include/util/UtilPtr.h:187-199 | Assignment to a member closes a cycle exactly when the new target already leads to the object of the member |
| `RefGraph.WriteKeepsAcyclic` | src/include/util/UtilPtr.h:187-199 | A store that leads nowhere back to its own object closes no cycle |
| `RefGraph.ReleaseKeepsAcyclic` | src/include/util/UtilPtr.h:158-162 | Giving references back, with all that this frees, closes no cycle |
| `RefRuns.SwapSafeIff` | src/include/util/UtilPtr.h:211-221 | `swap` exchanges pointers only, so it keeps the invariant exactly when no pointer lands in a slot without a release function |
| `RefRuns.EmptyInv` | src/include/util/UtilPtr.h:82-82 | The invariant holds before anything has been allocated |
| `RefRuns.StepSafe` | src/include/util/UtilPtr.h:120-250 | Every legal operation keeps the invariant |
| `RefRuns.StepSafeIff` | src/include/util/UtilPtr.h:120-250 | An operation on existing slots and live targets keeps the invariant exactly if it is legal |
| `RefRuns.RunSafe` | src/include/util/UtilPtr.h:120-250 | No legal run of operations ever touches freed memory; counts are exact at the end |
| `RefAcyclic.AcyclicIsLegal` | src/include/util/UtilPtr.h:187-250 | In an acyclic heap every write to an existing slot is legal: none frees the object that contains the slot |
| `RefAcyclic.StepExact` | src/include/util/UtilPtr.h:120-250 | In any acyclic heap each construction, copy, assignment, reset and destruction leaves exactly the objects alive that something outside leads to, even if it closes a cycle |
| `RefAcyclic.WriteExact` | src/include/util/UtilPtr.h:187-204 | A write leaves no garbage: a cycle that it closes goes through an object that is still led to |
| `RefAcyclic.SwapAcyclicIff` | src/include/util/UtilPtr.h:211-221 | `swap` closes a cycle exactly when the target of one slot leads to the object the other belongs to |
| `RefAcyclic.SwapExactIff` | src/include/util/UtilPtr.h:211-221 | `swap` in an acyclic heap leaves exactly the reached objects alive if and only if each member among the two slots belongs to an object led to without them |
| `RefAcyclic.StepAcyclicIff` | src/include/util/UtilPtr.h:120-250 | Which operations keep an acyclic heap acyclic, in terms of the heap before them |
| `RefAcyclic.AcyclicRunExact` | src/include/util/UtilPtr.h:120-250 | At the end of every run from an acyclic heap whose operations before the last close no cycle, exactly the objects led to from outside are alive |
| `RefAcyclic.AcyclicRunFreesAll` | src/include/util/UtilPtr.h:100-112 | If nothing outside points in at the end, all that was ever allocated has been freed, once |
| `RefAcyclic.AllFreedOnce` | src/include/util/UtilPtr.h:100-112 | When nothing outside points into a heap without leaks it is empty and each allocation has been freed exactly once |
| `RefOrder.DropFirstFaultIff` | src/include/util/UtilPtr.h:195-197 | With the two reference updates exchanged, assignment would touch freed memory exactly if only the slot keeps the new target, or the container of the slot, alive |
| `RefOrder.DropFirstFreesTarget` | src/include/util/UtilPtr.h:195-197 | A witness: advancing along a list, which as written is safe |
| `RefOrder.RingMemberFreed` | src/include/util/UtilPtr.h:195-197 | A witness for the fault: clearing a member of a ring that nothing else keeps frees the object before the store |
| `RefOrder.RingInv` | src/include/util/UtilPtr.h:195-197 | The ring satisfies the invariant |
| `RefOrder.LoopMemberSafe` | src/include/util/UtilPtr.h:195-197 | A witness against asking for more: an unreached object that holds itself may have its other member cleared |
| `RefOrder.SwapLosesRelease` | src/include/util/UtilPtr.h:211-221 | A witness: a pointer swapped into a slot without a release function is never given back |
| `RefOrder.SwapLeaks` | src/include/util/UtilPtr.h:211-221 | A witness: swapping a slot with a member of its own target leaves an object holding itself |
| `RefOutcome.AssignLeaves` | src/include/util/UtilPtr.h:187-199 | After `a = p` the slot holds `p`, every slot of a surviving object but that one is as before, and alive are exactly the objects that the other slots, the references outside and `p` keep |
| `RefOutcome.AssignFromLeaves` | src/include/util/UtilPtr.h:201-204 | After `a = b` the slot holds the pointer of `b`, has its release function if it had one or the pointer changed, `b` if it still exists is unchanged, and the same objects are alive |
| `RefOutcome.ResetLeaves` | src/include/util/UtilPtr.h:243-250 | After `reset` the slot is null without a release function and alive are exactly the objects that the other slots and the references outside keep |
| `RefOutcome.DestroyLeaves` | src/include/util/UtilPtr.h:158-162 | The same after the destructor of a slot outside objects, whose slot is gone |
| `RefOutcome.DelRefLeaves` | src/include/util/UtilPtr.h:103-108 | After a bare `delRef` alive are exactly the objects that something still keeps |
| `RefOutcome.SwapExchanges` | src/include/util/UtilPtr.h:211-221 | `swap` exchanges the pointers of any two slots and nothing else; done twice it undoes itself |
| `RefOutcome.OwnMemoryLast` | src/include/util/UtilPtr.h:103-107 | The memory of an object is returned after that of everything its members release |
| `RefOutcome.PairFreed` | src/include/util/UtilPtr.h:103-107 | A witness for the order of the members: the last is released first |
| `RefMemory.Memory.AddRef` | src/include/util/UtilPtr.h:102-102 | The in-place operation does to the heap what the specification says |
| `RefMemory.Memory.DelRef` | src/include/util/UtilPtr.h:103-108 | Decrement, and at zero the members from the last to the first and then the memory, as specified |
| `RefMemory.Memory.DestroySlot` | src/include/util/UtilPtr.h:158-162 | As specified |
| `RefMemory.Memory.Create` | src/include/util/UtilPtr.h:223-227 | As specified |
| `RefMemory.Memory.ConstructRaw` | src/include/util/UtilPtr.h:128-136 | As specified |
| `RefMemory.Memory.ConstructCopy` | src/include/util/UtilPtr.h:148-156 | As specified |
| `RefMemory.Memory.Assign` | src/include/util/UtilPtr.h:187-199 | As specified: unchanged on self-assignment, otherwise take, drop, store |
| `RefMemory.Memory.AssignFrom` | src/include/util/UtilPtr.h:201-204 | As specified; RefOutcome.AssignFromLeaves says what that leaves |
| `RefMemory.Memory.Reset` | src/include/util/UtilPtr.h:243-250 | As specified |
| `RefMemory.Memory.Swap` | src/include/util/UtilPtr.h:211-221 | As specified: pointers move, release functions stay |
| `EventFold.Find` | src/include/Event.h:324-333 | The first delegate with the hash, or none exactly if no delegate has it |
| `EventFold.FoldMember` | src/include/Event.h:341-364 | After migration a hash is a member exactly if the last pending change about it was an add, or there was none and it was a member |
| `EventFold.FoldDistinct` | src/include/Event.h:341-364 | The list never holds two delegates with one compare hash |
| `EventFold.FoldOrder` | src/include/Event.h:341-364 | The list is ordered by the time its delegates joined, and each is the delegate of its first effective add |
| `EventFold.FoldConserves` | src/include/Event.h:341-364 | Every delegate that was live or pending is afterwards live or destroyed, once |
| `EventFold.FoldConcat` | src/include/Event.h:341-364 | Migrating in two portions is migrating at once |
| `EventFold.DeadIs` | src/include/Event.h:341-364 | A queued remove destroys its own clone and then the delegate with its hash, if there is one; a queued add destroys its clone if the hash is taken |
| `EventQueue.FoldHolds` | src/include/Event.h:341-364 | The migrated list holds exactly what was there and is not removed by the queue, and what the queue adds to stay |
| `EventQueue.MigrationInvisibleIff` | src/include/Event.h:335-381 | Migration leaves the observed set unchanged exactly when no queued add that finds its hash absent and is not removed later is of a cancelled delegate |
| `EventQueue.CanceledShows` | src/include/Event.h:335-381 | A witness: a queued delegate that is cancelled is observed before the migration and gone after it |
| `EventQueue.EnqueueObserved` | src/include/Event.h:242-280 | Queueing a change applies it to the observed set at that moment; migrating it then shows exactly when a delegate that the queue brings in has been cancelled |
| `EventQueue.ValidsAre` | src/include/Event.h:369-381 | Removing invalid delegates keeps exactly the valid ones, and the whole list exactly if all are valid |
| `EventQueue.ValidsOrder` | src/include/Event.h:369-381 | What is kept is a subsequence of the list: the places it is taken from only go up |
| `EventQueue.InvalidsAre` | src/include/Event.h:369-381 | What is destroyed is a subsequence too, and exactly the invalid delegates |
| `EventQueue.NewInIs` | src/include/Event.h:203-214 | The delegates that `+=` takes from another event are a subsequence of its list, exactly those whose hash is not here |
| `EventQueue.OwnsMigrated` | src/include/Event.h:335-381 | Migration keeps each delegate in one place: queue, list or destroyed |
| `EventQueue.EventBase.FindInfo` | src/include/Event.h:324-333 | The index the specification gives |
| `EventQueue.EventBase.RemoveInvalidDelegates` | src/include/Event.h:369-381 | Exactly the valid delegates stay, in their order; the others are destroyed in theirs |
| `EventQueue.EventBase.MigratePending` | src/include/Event.h:335-367 | The list becomes the observed set, the queue becomes empty, and exactly the dropped delegates are destroyed |
| `EventQueue.EventBase.MigrateOne` | src/include/Event.h:343-363 | One pending change is applied and its casualties destroyed |
| `EventQueue.EventBase.Enqueue` | src/include/Event.h:247-259 | A clone is queued and the argument destroyed; if the main lock was free the list is then the old observed set with the change applied; the observed set changes as by one change exactly if nothing that joins has been cancelled or the lock was taken |
| `EventQueue.EventBase.Add` | src/include/Event.h:242-260 | A null delegate changes nothing; any other changes the observed set as one add, exactly if the lock was taken or nothing that joins has been cancelled |
| `EventQueue.EventBase.Remove` | src/include/Event.h:262-280 | The same for a remove |
| `EventQueue.EventBase.Flush` | src/include/Event.h:317-321 | The list is the observed set and the queue is empty |
| `EventQueue.EventBase.Dispatch` | src/include/Event.h:143-186 | Exactly the observed set is called, in order; with an empty queue that is a subsequence of the list, its valid delegates. What the callbacks leave valid stays, in order |
| `EventQueue.EventBase.Reset` | src/include/Event.h:282-315 | No delegate remains and each one ever made has been destroyed exactly once |
| `EventQueue.EventBase.AssignFrom` | src/include/Event.h:188-201 | The own list is destroyed and replaced by clones of the other list, in order; the queues stay. Assigned to itself an event ends empty |
| `EventQueue.EventBase.AddAll` | src/include/Event.h:203-214 | Clones of exactly the delegates that are new here are appended, in order; added to itself an event stays as it is |
| `EventThreads.InitInv` | src/include/Event.h:384-391 | A new event satisfies the invariant |
| `EventThreads.LocksStep` | src/include/Event.h:148-149 | Each lock has one owner, which the program counters name; a thread takes a lock only when it is free and gives back only its own |
| `EventThreads.AbstractStep` | src/include/Event.h:242-315 | For any number of threads: the ordered set changes only at the step that enters the queue, or that clears it in `reset`; migrations by any thread leave it unchanged |
| `EventThreads.LedgerStep` | src/include/Event.h:242-381 | At every step each queued delegate is pending, live or destroyed, once |
| `EventThreads.HistoryStep` | src/include/Event.h:143-165 | Every finished dispatch called exactly the set left by its opening migration, in order |
| `EventThreads.StepInv` | src/include/Event.h:143-381 | Every step of every thread keeps the invariant |
| `EventThreads.RunInv` | src/include/Event.h:143-381 | Every state of every run satisfies the invariant |
| `EventThreads.LogIsEffects` | src/include/Event.h:242-315 | The ordered set is the value of the queued changes themselves, each once and in the order of their queueing, and of the resets between them |
| `EventThreads.MigrationSettles` | src/include/Event.h:335-367 | When a migration ends, the list is the sequential value of the log and the queue is empty |
| `EventThreads.QuiescentSettles` | src/include/Event.h:317-321 | With nobody inside and nothing queued, the list is the sequential value of the log |
| `EventThreads.ListDistinct` | src/include/Event.h:341-351 | At no step of any run does the list hold two delegates with one hash |
| `EventThreads.HoldersMove` | src/include/Event.h:247-277 | The holder of the pending lock is never blocked; the holder of the main lock waits only for the holder of the pending lock |
| `EventThreads.NeverStuck` | src/include/Event.h:148-337 | No deadlock: whenever an operation is unfinished, some unfinished operation can step |
| `EventThreads.OwnStepFalls` | src/include/Event.h:143-381 | Every step of an operation brings it nearer to its end: an earlier phase, or fewer entries or callbacks left |
| `EventThreads.OtherStepKeeps` | src/include/Event.h:143-381 | No step of another thread takes it further away |
| `EventThreads.OperationsEnd` | src/include/Event.h:143-381 | Over whole runs: an operation ends after finitely many of its own steps, whatever the others do |
| `EventOperations.OperationDoes` | src/include/Event.h:143-321 | Under any interleaving, what a thread has done when its operation ends is told by its command: `+=` has queued one add of a clone with the given hash and callback, `-=` one remove, both have then migrated exactly if they found the main lock free, `reset` has cleared once, `operator()` has entered one finished dispatch, of the list that its first of two migrations left, `flush` has migrated once; and nothing else |
| `EventOperations.OperationSoFar` | src/include/Event.h:143-321 | What it has done at each place on the way |
| `EventOperations.SettledAreValues` | src/include/Event.h:335-367 | Each list that a migration leaves is the value of the changes queued up to that moment |
| `EventOperations.CancelIff` | src/include/Event.h:143-315 | `m_bCancel` is set exactly while a `reset` is at work, so no dispatch of another thread is cut short |
| `Invoker.StepInv` | src/include/wx_controls/guiDelegate.h:54-132 | Every step of the invoking, cancelling and waiting threads keeps the invariant |
| `Invoker.RunInv` | src/include/wx_controls/guiDelegate.h:54-132 | Every state of every interleaving satisfies it |
| `Invoker.AtMostOnce` | src/include/wx_controls/guiDelegate.h:95-106 | The callback is entered at most once |
| `Invoker.NeverAfterClear` | src/include/wx_controls/guiDelegate.h:108-120 | Once a cancel has cleared the callback it never starts |
| `Invoker.SafeAfterWait` | src/include/wx_controls/guiDelegate.h:122-125 | After `wait` has returned the callback is neither running nor able to start, so what it refers to may go |
| `Invoker.OutcomeOfWait` | src/include/wx_controls/guiDelegate.h:66-70 | When `wait` returns, the callback has run to its end once or was cancelled and never ran |
| `Invoker.CallbackRuns` | src/include/wx_controls/guiDelegate.h:95-125 | The one outcome happens: a run in which the callback finishes and `wait` returns |
| `Invoker.CallbackCancelled` | src/include/wx_controls/guiDelegate.h:108-125 | So does the other: a run in which it is cancelled and `wait` returns |
| `Invoker.CallbackKept` | src/include/wx_controls/guiDelegate.h:115-119 | The callback is gone exactly if a cancel removed it |
| `Invoker.LateCancelReturns` | src/include/wx_controls/guiDelegate.h:108-113 | A `cancel` that comes after the callback was hit returns at once and changes nothing |
| `Invoker.Monotone` | src/include/wx_controls/guiDelegate.h:57-64 | Once done, always done, and no callback is started after |
| `Invoker.InvokeAndCancelFinish` | src/include/wx_controls/guiDelegate.h:95-120 | `invoke` and `cancel` finish in a bounded number of own steps; only the lock delays them, and its owner can move |
| `Invoker.WaitReturns` | src/include/wx_controls/guiDelegate.h:66-70 | A finished `invoke`, or a `cancel` that was not overtaken, lets the waiter out within two steps |
| `FormatSpec.FirstGroupIs` | src/include/util/gcString.h:925-953 | The brace pair that closes first is the innermost one at the front, and is missing exactly if there is no placeholder |
| `FormatSpec.ParseCanonical` | src/include/util/gcString.h:917-953 | Every format is cut into literals that hide no placeholder and brace-free groups, and the pieces put together are the format |
| `FormatMeaning.AnyCutRenders` | src/include/util/gcString.h:917-1081 | However a format is so cut, the result is the pieces rendered in order: literals and stray braces verbatim, substituted text never rescanned |
| `FormatMeaning.ParseFirst` | src/include/util/gcString.h:925-1076 | The first group is replaced, everything before it is copied, and the rest is treated alike |
| `FormatMeaning.CopiedPrefix` | src/include/util/gcString.h:934-939 | Text that closes no group of its own is copied, an opened brace that is opened again included |
| `FormatMeaning.PlainMeaning` | src/include/util/gcString.h:919-953 | A format without groups comes back unchanged |
| `FormatMeaning.NoArgsIdentity` | src/include/util/gcString.h:917-993 | With no arguments every format comes back unchanged |
| `FormatMeaning.TerminatesIff` | src/include/util/gcString.h:1006-1070 | The scanner returns exactly for the formats in which every placeholder naming an argument has digits for width and precision and an alphanumeric type |
| `FormatMeaning.SpecTextParses` | src/include/util/gcString.h:1144-1150 | Every documented placeholder form fits and is given its type, width and precision |
| `FormatRendered.DocumentedRendered` | src/include/util/gcString.h:958-1076 | A documented placeholder is replaced by its argument rendered with that type, the width after the comma and the precision after the dot, in that order; each may be absent |
| `FormatRendered.NumbersRendered` | src/include/util/gcString.h:958-1076 | With width and precision in decimal digits and a type by its name, these are the numbers and the type the argument is rendered with |
| `FormatRendered.FloatExample` | src/include/util/gcString.h:1144-1150 | {0,8.2:f} renders a float of width 8 with precision 2 |
| `FormatRendered.TypeOfNames` | src/include/util/gcString.h:179-221 | Every type has one name, and no other text names it |
| `FormatRendered.AtoiDecimal` | src/include/util/UtilSafeString.h:213-219 | The decimal digits of a number read as that number below 2 to the 31, and as a negative int made unsigned up to 32 bits |
| `FormatRendered.AtoiOctal` | src/include/util/UtilSafeString.h:213-219 | After a leading nought the digits are octal |
| `FormatRendered.OtherBracesCopied` | src/include/util/gcString.h:958-993 | A brace pair that does not begin with the number of an argument is copied |
| `FormatRendered.JunkIgnored` | src/include/util/gcString.h:995-1076 | Text after the number that no clause begins is ignored |
| `FormatRendered.EmptyWidth` | src/include/util/gcString.h:1001-1024 | A comma without digits before the next clause is as good as none |
| `FormatRendered.EmptyPrecision` | src/include/util/gcString.h:1026-1049 | So is a dot without digits |
| `FormatRendered.AfterTypeIgnored` | src/include/util/gcString.h:1051-1073 | What follows a second colon is ignored |
| `FormatRendered.BadWidth` | src/include/util/gcString.h:1001-1024 | On a width that is not a number the scanner never returns, whatever follows |
| `FormatRendered.BadPrecision` | src/include/util/gcString.h:1026-1049 | Nor on such a precision, with or without a width |
| `FormatRendered.BadType` | src/include/util/gcString.h:1051-1073 | Nor on a type that is not alphanumeric |
| `FormatScanner.ScanEndsIff` | src/include/util/gcString.h:1006-1020 | The inner loop ends exactly if every character up to the next stop is allowed; otherwise it never consumes input again |
| `FormatMeaning.BadWidthDiverges` | src/include/util/gcString.h:1008-1016 | A witness: on {0,x} the scanner never returns |
| `FormatScanner.StuckForever` | src/include/util/gcString.h:1008-1016 | A character that is not allowed is never passed |
| `FormatScanner.ScanWhile` | src/include/util/gcString.h:1006-1020 | The characters before the next stop, or nothing if one of them is not allowed |
| `FormatScanner.NumberClause` | src/include/util/gcString.h:1001-1024 | Width and precision clauses as specified |
| `FormatScanner.TypeClause` | src/include/util/gcString.h:1051-1073 | Type clause as specified |
| `FormatScanner.Placeholder` | src/include/util/gcString.h:958-1076 | What stands for one brace pair, as specified; FormatRendered says what that is from the text of the pair |
| `FormatScanner.FormatString` | src/include/util/gcString.h:895-1094 | The erasing and appending scanner computes the meaning of the format |
| `TraceRecord.CleanUpString` | src/common/Tracer.cpp:130-149 | The loop computes the escaped text |
| `TraceRecord.EscapeByLetter` | src/common/Tracer.cpp:135-146 | Escaping goes letter by letter: newline, tab, quote and backslash become two letters, any other stays |
| `TraceRecord.EscapeReadsBack` | src/common/Tracer.cpp:135-146 | What stands before the first unescaped quote of escaped text decodes to the original, for every string (section 7 of RFC 8259, four escapes only) |
| `TraceRecord.EscapeInjective` | src/common/Tracer.cpp:130-149 | Different strings stay different |
| `TraceRecord.EscapeWithout` | src/common/Tracer.cpp:140-143 | Escaped text has no raw newline or tab |
| `TraceRecord.EscapeUpToNul` | src/common/Tracer.cpp:107-107 | Formatting cuts at a NUL; cutting and escaping commute |
| `TraceRecord.RawReadsBackIff` | src/common/Tracer.cpp:117-117 | A key, which is not escaped, reads back exactly if it needs no escaping |
| `TraceRecord.FormatTrace` | src/common/Tracer.cpp:105-128 | The record is the message and the longest prefix of the non-empty entries with which it totals at most 512 characters |
| `TraceRecord.LongestPrefixUnique` | src/common/Tracer.cpp:119-120 | Only one prefix is the longest |
| `TraceRecord.KeepsAllThatFits` | src/common/Tracer.cpp:119-123 | Every prefix of the non-empty entries with which the record totals at most 512 characters is kept, and with a kept entry it never totals more |
| `TraceRecord.NonEmptyIs` | src/common/Tracer.cpp:114-115 | The non-empty entries are a subsequence of the entries, and all of them |
| `TraceRecord.RecordLayout` | src/common/Tracer.cpp:105-127 | The text of a record: the opening brace and the message, for each entry a comma, key and value, then the closing brace |
| `TraceRecord.AsWrittenAt` | src/common/Tracer.cpp:117-117 | An entry reads back as its key and value up to a NUL |
| `TraceRecord.RecordFitsIff` | src/common/Tracer.cpp:119-126 | The record totals at most 512 characters exactly if the message part plus 2 does; otherwise no entry is kept |
| `TraceRecord.RecordReadsBackIff` | src/common/Tracer.cpp:105-128 | A record reads back to its message and kept entries exactly if the kept keys need no escaping |
| `TraceRecord.QuotedKeyLost` | src/common/Tracer.cpp:117-117 | A witness: a key that is a quote does not read back |
| `TraceRecord.RecordWithout` | src/common/Tracer.cpp:105-128 | No record has a NUL; with clean keys none has a raw newline or tab |
| `TraceRing.TicketSlot` | src/common/Tracer.cpp:78-83 | Call n writes slot (n-1) mod 4096, also when the 32-bit counter has wrapped |
| `TraceRing.SameSlotIff` | src/common/Tracer.h:64-66 | Two calls share a slot exactly when a multiple of 4096 calls apart; any 4096 consecutive ones get distinct slots |
| `TraceRing.SlotHoldsNewest` | src/common/Tracer.cpp:78-88 | A slot stands for the newest call that was given it |
| `TraceRing.WriteHolds` | src/common/Tracer.cpp:83-88 | One record written to its slot makes the ring stand for one call more, every segment stays terminated |
| `TraceRing.CutIs` | src/common/Tracer.cpp:84-88 | A record keeps its first 511 characters, all of them if it has no more |
| `TraceRing.TracerStorage.Trace` | src/common/Tracer.cpp:72-89 | The segment of the slot then reads as the first 511 characters of the record, or as all of it; the counter wraps at 32 bits and no byte of another segment changes |
| `TraceRing.TracerStorage.CopyInto` | src/common/Tracer.cpp:88-88 | Characters up to the limit or a NUL, then a NUL, and nothing else |
| `TraceThreads.WritesInOwnSegment` | src/common/Tracer.cpp:83-88 | Any number of callers interleaved byte by byte: every write is inside the segment of its own call |
| `TraceThreads.RunContained` | src/common/Tracer.cpp:77-88 | In every run every segment is NUL-terminated at every moment |
| `TraceThreads.OwnSlot` | src/common/Tracer.h:64-66 | Calls less than 4096 apart write to different slots |
| `TraceThreads.StepInv` | src/common/Tracer.cpp:77-88 | Every step keeps the invariant as long as no call lags 4096 calls behind |
| `TraceThreads.RunInv` | src/common/Tracer.cpp:77-88 | When nobody is writing, the ring holds what the calls made one after another in ticket order would have left |
| `TraceDump.DumpTracerToFile` | src/shared/crashuploader/code/CrashuploaderShared.cpp:68-90 | The walk writes the bracketed, separated list of the non-empty segments in slot order |
| `TraceDump.DumpIs` | src/shared/crashuploader/code/CrashuploaderShared.cpp:73-88 | After n calls that list is exactly the last min(n, 4096) records, each cut to 511 characters |
| `TraceDump.DumpLayout` | src/shared/crashuploader/code/CrashuploaderShared.cpp:70-90 | The text of a dump: brackets, a newline and a tab before each record, a comma between two |
| `TraceDump.DumpPlaces` | src/shared/crashuploader/code/CrashuploaderShared.cpp:73-88 | Each of them is there at the place of its slot |
| `TraceRecovery.UnquoteInverts` | src/common/Tracer.cpp:135-146 | What reading an escaped text consumes is the escaped form of what it gives |
| `TraceRecovery.CutReadsBackIff` | src/common/Tracer.cpp:84-88 | What the ring keeps of a record reads back to message and entries exactly if the record is shorter than 512 characters and its keys need no escaping |
| `TraceRecovery.FullSegmentLost` | src/common/Tracer.cpp:84-88 | A witness: a message of 495 letters makes a record of exactly 512 characters, which the builder admits and the ring cuts, and it does not read back |
| `TraceDump.DumpReadsBackIff` | src/shared/crashuploader/code/CrashuploaderShared.cpp:70-90 | A dump reads back as its list exactly if nothing in it has a newline, whatever brackets and commas there are |
| `TraceDump.DumpAfter` | src/shared/crashuploader/code/CrashuploaderShared.cpp:68-90 | Tracing any number of messages into a new ring and dumping it gives the list of exactly the records still in it |
| `TraceDump.DumpTellsTraces` | src/shared/crashuploader/code/CrashuploaderShared.cpp:68-90 | End to end: the dump has the first 511 characters of the record of each of the last 4096 calls at the place of its slot, reads back as that list exactly if nothing in it has a newline, and gives back the message and entries of a call exactly if its record is shorter than 512 characters and its keys need no escaping |
| `TraceDump.DumpTellsAllIff` | src/shared/crashuploader/code/CrashuploaderShared.cpp:68-90 | It gives back all of the last 4096 calls exactly if that holds of all of them |
| `JsTable.FindBetweenIs` | src/common/gcJSBase.cpp:349-378 | On a sorted table bisection finds the index exactly if the hash is between the bounds |
| `JsTable.FindIff` | src/common/gcJSBase.cpp:341-347 | `find` returns an index exactly if the hash is present, except in the one table whose last index is the sentinel |
| `JsTable.EveryHashHides` | src/common/gcJSBase.cpp:341-347 | That table, and the hash it hides |
| `JsTable.SortIs` | src/common/gcJSBase.cpp:335-337 | Sorting different hashes gives a strictly sorted rearrangement |
| `JsTable.SortedUnique` | src/common/gcJSBase.cpp:335-337 | There is only one, so it does not matter how the sort works |
| `JsTable.LookupIsView` | src/common/gcJSBase.cpp:305-314 | Looking up through the index is looking up in the map, except for the largest hash in the full table |
| `JsTable.RegisteredIs` | src/common/gcJSBase.cpp:324-337 | Registering keeps the table strictly sorted and updates one entry of the map |
| `JsTable.RegisteredSortedIff` | src/common/gcJSBase.cpp:324-337 | It does so in every table and for every hash but the largest one in the full table |
| `JsTable.DesuraJSBase.RegisterFunction` | src/common/gcJSBase.cpp:322-338 | The same in place; the replaced delegate, if any, is destroyed, and each delegate handed over is in the table or destroyed, once |
| `JsTable.DesuraJSBase.Execute` | src/common/gcJSBase.cpp:292-320 | The delegate registered under the hash is called, or the function is not found |
| `JsTable.DesuraJSBase.Destroy` | src/common/gcJSBase.cpp:264-265 | Every delegate handed over has been destroyed, once |
| `JsPins.KeyInjective` | src/common/gcJSBase.h:239-239 | A key names one type and one address |
| `JsPins.KeyLayout` | src/common/gcJSBase.h:239-239 | A key is the name of the type, a dash and the address |
| `JsPins.MakeKey` | src/common/gcJSBase.h:239-239 | The formatted key is type, dash, address |
| `JsPins.FoundIff` | src/common/gcJSBase.h:240-242 | There is an entry for a live object exactly if that object, not only its address, was exported as that type since the last cleanup |
| `JsPins.ExportAgrees` | src/common/gcJSBase.h:236-254 | An export adds one reference and one key the first time and none after that; no slot changes and nothing is freed |
| `JsPins.BirthKept` | src/common/gcJSBase.h:242-250 | No other operation gives a live object another identity |
| `JsPins.ProgramAgrees` | src/common/gcJSBase.h:242-250 | Whatever the program does with its own references, cached objects stay alive and stay themselves |
| `JsPins.ReleaseAgrees` | src/common/gcJSBase.cpp:49-50 | Releasing some entries leaves exactly the references of the others |
| `JsPins.CleanupAgrees` | src/common/gcJSBase.cpp:45-53 | The cleanup gives back each cached reference once and no other |
| `JsPins.CleanupLeaves` | src/common/gcJSBase.cpp:45-53 | After the cleanup exactly the objects are alive that something other than the cache keeps |
| `JsPins.RunAgrees` | src/common/gcJSBase.h:229-255 | Over whole runs a cached key never denotes a reused address |
| `JsPins.EmptyAgrees` | src/common/gcJSBase.cpp:27-28 | The cache agrees with the heap before anything is exported |
| `JsPins.RunFromEmptyAgrees` | src/common/gcJSBase.h:229-255 | So it does after every run from the beginning |
| `JsPins.JsExports.ToJSObject` | src/common/gcJSBase.h:233-255 | As specified, in place |
| `JsPins.JsExports.JSObjectCleanup` | src/common/gcJSBase.cpp:45-53 | As specified: one release for each entry, then an empty map |
| `ContextMenu.DecodeMarks` | build_out/data/bindings/native_binding.js:548-560 | A bracket sequence of any depth reads back to its tree, whatever follows it |
| `ContextMenu.MenuReadsBack` | build_out/data/bindings/native_binding.js:540-561 | The flat list with its ids and handlers reads back to the tree, handlers included |
| `ContextMenu.SelectableIds` | build_out/data/bindings/native_binding.js:516-558 | The id of every selectable entry is its place and leads to its own handler, also in copies of copies |
| `ContextMenu.HandlersSelectable` | build_out/data/bindings/native_binding.js:552-558 | Only selectable entries have handlers |
| `ContextMenu.OneSubmenu` | build_out/data/bindings/native_binding.js:548-560 | Appending a menu copies its list between brackets and moves its handlers along |
| `ContextMenu.EntriesShow` | build_out/data/bindings/native_binding.js:516-538 | What the list shows of an item, a checkbox and a separator: kind, id, text, checked and enabled, and where the handler goes |
| `ContextMenu.TrimmedLosesSeparator` | build_out/data/bindings/native_binding.js:500-503 | Before a menu is shown at most one separator goes, and nothing else |
| `ContextMenu.TidyList` | build_out/data/bindings/native_binding.js:530-538 | Separators never lead or repeat, at any depth |
| `ContextMenu.LastId` | build_out/data/bindings/native_binding.js:535-536 | The test for a missing id is the test for a separator of the menu itself |
| `ContextMenu.Menu.AppendItem` | build_out/data/bindings/native_binding.js:516-521 | The tree gets one leaf; list and handlers stay its flattening |
| `ContextMenu.Menu.AppendCheckboxItem` | build_out/data/bindings/native_binding.js:523-528 | The tree gets one checkbox |
| `ContextMenu.Menu.AppendSeparator` | build_out/data/bindings/native_binding.js:530-538 | The tree gets a separator unless it is empty or ends with one |
| `ContextMenu.Menu.AppendMenu` | build_out/data/bindings/native_binding.js:540-561 | The tree gets the other tree as a submenu, unless that is missing or empty; the other menu stays as it is. It does not end exactly for a menu with something in it that is appended to itself |
| `ContextMenu.SelfAppendNeverEnds` | build_out/data/bindings/native_binding.js:550-558 | In that case there is an element left to copy after any number of turns |
| `ContextMenu.Menu.Show` | build_out/data/bindings/native_binding.js:498-514 | A separator at the end goes, nothing else, and what is displayed does not end with one |
| `ContextMenu.Menu.ItemSelected` | build_out/data/bindings/native_binding.js:563-567 | The entry with the id gets its own handler called |
| `Updater.StepInv` | src/executable/bootloader_lin/code/update.cpp:50-306 | Every step of the updater, and a kill anywhere, keeps what is known of the three files |
| `Updater.RunInv` | src/executable/bootloader_lin/code/update.cpp:50-306 | So does every run of any number of processes |
| `Updater.FullReturnsClean` | src/executable/bootloader_lin/code/update.cpp:196-229 | A full update that returns leaves no lock and no package; a manifest if it succeeded, none if it failed with m_bInstalling set |
| `Updater.FailureKeepsManifestIff` | src/executable/bootloader_lin/code/update.cpp:281-295 | After a failure the manifest is on disk exactly if the download failed, or the check before it with m_bInstalling not set |
| `Updater.FreshManifestLost` | src/executable/bootloader_lin/code/update.cpp:289-293 | A witness: a run that deletes the manifest it has just saved although nothing had been installed |
| `Updater.UnsetUntilDownload` | src/executable/bootloader_lin/code/UpdateForm.cpp:25-30 | Until the download starts m_bInstalling is what it happened to be at the start of the process |
| `Updater.StaysMissing` | src/executable/bootloader_lin/code/UpdateForm.cpp:99-103 | A missing manifest stays missing until one is saved |
| `Updater.CutInstallNoticed` | src/executable/bootloader_lin/code/UpdateForm.cpp:94-104 | A package install cut short after it removed the manifest makes every later check report the missing manifest until one is saved |
| `Updater.LockOnDiskIff` | src/executable/bootloader_lin/code/update.cpp:212-221 | The lock is on disk exactly from making it, if that worked, to the first deletion |
| `Updater.LockHonoured` | src/executable/bootloader_lin/code/update.cpp:204-210 | While a lock is left over no full update gets past its test |
| `Updater.KilledNotRetried` | src/executable/bootloader_lin/code/update.cpp:204-221 | A full update killed while its lock is on disk is not tried again without a refused run or a finished package update between |
| `Updater.LockFromMaking` | src/executable/bootloader_lin/code/update.cpp:212-221 | From the step that makes it the lock stays on disk until the update comes to a place that deletes it |
| `Updater.InstallPrepared` | src/executable/bootloader_lin/code/UpdateForm.cpp:38-109 | Every install has its package on disk; that of a download has the new manifest as well, that of a package none |
| `Updater.PackageUpdateHasManifest` | src/executable/bootloader_lin/code/UpdateForm.cpp:71-109 | A package update that gets through its try block leaves a manifest |
| `Updater.UpdateEndsClean` | src/executable/bootloader_lin/code/update.cpp:50-91 | A check for updates that ends after an update of either kind leaves neither package nor lock |
| `Updater.HandlersDropPackageIff` | src/executable/bootloader_lin/code/update.cpp:231-295 | Which handler deletes the package: of a full update exactly if the user cancelled, of a package update exactly if not |
| `UpdaterProcess.GoodIsRun` | src/executable/bootloader_lin/code/update.cpp:50-306 | What a process notes while it runs is a run of the step relation, so the theorems about runs speak of the processes |
| `UpdaterProcess.Bootloader.CheckForUpdates` | src/executable/bootloader_lin/code/update.cpp:50-91 | One process, from its start to its end or its kill at any point, is a run of the step relation from the files it found to the files it leaves |
| `UpdaterProcess.Bootloader.NeedUpdate` | src/executable/bootloader_lin/code/update.cpp:93-156 | Unless killed, a missing manifest leads to a full update, else files that do not fit to another, else a good package on disk to the package update, else to none; a bad package is deleted and a good one kept |
| `UpdaterProcess.Bootloader.LookAtPackage` | src/executable/bootloader_lin/code/update.cpp:110-146 | A package is used exactly if it is there and good, and deleted if it is there and bad |
| `UpdaterProcess.Bootloader.FullUpdate` | src/executable/bootloader_lin/code/update.cpp:196-229 | Unless killed it leaves no lock and no package, and it is refused exactly if it found a lock |
| `UpdaterProcess.Bootloader.DownloadAndInstallMCF` | src/executable/bootloader_lin/code/update.cpp:271-306 | Unless killed it ends with an outcome that is not a refusal, after the steps of the relation |
| `UpdaterProcess.Bootloader.CatchDownload` | src/executable/bootloader_lin/code/update.cpp:281-295 | The handler ends with a failure that tells whether m_bInstalling was set |
| `UpdaterProcess.Bootloader.DownloadAndInstall` | src/executable/bootloader_lin/code/UpdateForm.cpp:38-69 | It finishes, throws or is killed only as the step relation allows |
| `UpdaterProcess.Bootloader.SaveInfo` | src/executable/bootloader_lin/code/UpdateForm.cpp:48-51 | Unless killed, there is a manifest afterwards exactly if the information was fetched |
| `UpdaterProcess.Bootloader.McfUpdate` | src/executable/bootloader_lin/code/update.cpp:231-269 | Unless killed it leaves no lock |
| `UpdaterProcess.Bootloader.InstallOnly` | src/executable/bootloader_lin/code/UpdateForm.cpp:71-109 | It finishes, throws or is killed only as the step relation allows; a package that is not newer is no error |
| `UpdaterProcess.Bootloader.ReplaceInstall` | src/executable/bootloader_lin/code/UpdateForm.cpp:99-104 | If it finishes there is a manifest |
| `Updater.RetryIff` | src/executable/bootloader_lin/code/update.cpp:200-224 | A killed full update can be tried again at once exactly if it was killed before the lock was made, after it was gone, or when making it had failed |

## Left out

- Reference counts: the 32-bit width of `m_nRef` and the interleaving of threads at single count updates; one operation is one step here.
- The `gcRefPtr` constructor that takes a caller's own release function (src/include/util/UtilPtr.h:138-146) and the raw `swap(T**)`, which lets a bare pointer in.
- Destructor bodies of counted classes other than the destruction of their `gcRefPtr` members.
- EventQueue.EventBase.Dispatch: callbacks that add to, remove from or reset the same event on the same thread; the recursive lock then lets the list change under the iteration. Callbacks are required not to touch the event.
- `EventBase -= EventBase` (src/include/Event.h:216-239): it erases at an index one past the end of the index list.
- EventQueue.EventBase.FindInfo: a list of 4294967295 or more delegates, where an index equals UNKNOWN_ITEM.
- EventThreads.AbstractStep: delegates that become invalid while threads run; validity is in the single-threaded model, where EventQueue.MigrationInvisibleIff says exactly when it shows.
- `InvokeI::cancel` of the delegate being dispatched when another thread calls `reset`: `reset` needs the lock that the dispatch holds, so it is reached only from the same thread.
- Invoker.WaitReturns: how soon a sleeping waiter wakes up. The wait is timed and may end at any moment here, so the signal itself has no effect in the model.
- GuiDelegate as a whole: its clean-up list and its own cancelled flag take two locks in opposite orders; only Invoker and EventHelper are modelled, with both atomics false at the start, one `invoke`, and callbacks that do not throw.
- Rendering of format arguments (numbers, width, precision, wide strings): an argument is any function of type, width and precision; string arguments of traces and keys print as their C string.
- Assertions and debugger breaks in the scanner, which print nothing.
- TraceRing.TracerStorage.Trace: the mapping is there and its pages start as zeros; the constructor's clearing loop (src/common/Tracer.cpp:59-60), which runs past the last segment, is not modelled. The sink is assumed to copy like strncpy_s without filling the rest of the segment.
- TraceThreads.RunInv: what the ring holds after a call that was still writing when the call 4096 later began; TraceThreads.RunContained covers such runs as well.
- TraceDump.DumpTracerToFile: mapping the memory, a dump taken while callers write, and a callback that throws.
- TraceRecord.RecordReadsBackIff: control characters other than newline, tab and NUL are written raw, as the source does.
- JsTable.DesuraJSBase.RegisterFunction: the hash of a name is taken as given, and two names with one hash are one entry. A second pair for the largest hash in a table that holds all 4294967296 hashes is placed by the model's sort.
- `std::sort` is called with `<=`, which is not an ordering as the library requires; on different hashes it compares like `<`, and the model sorts.
- JsPins.JsExports.JSObjectCleanup: the global lock, exports from several threads, and destructors that export again during the cleanup.
- The display of a context menu and its native side.
- Updater: what UMcf and UMcfEx do inside (each call succeeds, throws or is cut off by a kill), dialogs, icons and the restart, deletions that fail, and partially written manifests. Help dialogs that replace the process are kills here.
- DownloadFilesForTest, InstallFilesForTest and the Windows bootloader.
- wxWidgets, X11, sockets, services, IPC proxies, XML and SQL wrappers, enum tables and plain accessors: no algorithm to prove.
