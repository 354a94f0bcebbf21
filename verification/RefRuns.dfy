/** `swap`, the operations taken together, and whole runs of them. */
module RefRuns {
  import opened Wrappers
  import opened RefHeap
  import opened RefInvariant
  import opened RefSafety
  import opened RefGraph

  // ---------------------------------------------------------------- swap

  /** Neither slot would receive a pointer without having a release function to give it back. */
  ghost predicate SwapOk(h: Heap, l: Loc, m: Loc)
    requires l in h.slots && m in h.slots
  {
    (h.slots[l].ptr.Some? ==> h.slots[m].fn) && (h.slots[m].ptr.Some? ==> h.slots[l].fn)
  }

  ghost function OneIf(h: Heap, l: Loc, o: Addr): set<Loc>
    requires l in h.slots
  {
    if h.slots[l].ptr == Some(o) then {l} else {}
  }

  lemma HoldersApart(h: Heap, l: Loc, m: Loc, o: Addr)
    requires l in h.slots && m in h.slots
    ensures Holders(h, {}, o) == Holders(h, {l, m}, o) + OneIf(h, l, o) + OneIf(h, m, o)
  {
  }

  lemma HoldersCount(h: Heap, l: Loc, m: Loc, o: Addr)
    requires l in h.slots && m in h.slots && l != m
    ensures |Holders(h, {}, o)| == |Holders(h, {l, m}, o)| + |OneIf(h, l, o)| + |OneIf(h, m, o)|
  {
    HoldersApart(h, l, m, o);
    var rest, a, b := Holders(h, {l, m}, o), OneIf(h, l, o), OneIf(h, m, o);
    assert rest !! a && (rest + a) !! b;
    hide Holders, OneIf;
    assert |rest + a + b| == |rest| + |a| + |b|;
  }

  lemma HoldersOfOthers(h: Heap, r: Heap, l: Loc, m: Loc, o: Addr)
    requires l in h.slots && m in h.slots && l != m
    requires r.slots == h.slots[l := h.slots[l].(ptr := h.slots[m].ptr)][m := h.slots[m].(ptr := h.slots[l].ptr)]
    ensures Holders(r, {l, m}, o) == Holders(h, {l, m}, o)
  {
  }

  lemma HoldersSwapCount(h: Heap, r: Heap, l: Loc, m: Loc, o: Addr)
    requires l in h.slots && m in h.slots && l != m
    requires r.slots == h.slots[l := h.slots[l].(ptr := h.slots[m].ptr)][m := h.slots[m].(ptr := h.slots[l].ptr)]
    ensures |Holders(r, {}, o)| == |Holders(h, {}, o)|
  {
    hide Holders;
    HoldersOfOthers(h, r, l, m, o);
    HoldersCount(h, l, m, o);
    HoldersCount(r, l, m, o);
  }

  lemma HoldersBySlots(h: Heap, r: Heap, o: Addr)
    requires r.slots == h.slots
    ensures Holders(r, {}, o) == Holders(h, {}, o)
  {
  }

  lemma SwapBalanced(h: Heap, r: Heap, ext: multiset<Addr>, l: Loc, m: Loc)
    requires Balanced(h, {}, ext) && l in h.slots && m in h.slots && r == Swap(h, l, m)
    ensures Balanced(r, {}, ext)
  {
    hide Holders;
    forall o | o in r.objs ensures r.objs[o].count == |Holders(r, {}, o)| + ext[o] {
      if l == m {
        HoldersBySlots(h, r, o);
      } else {
        HoldersSwapCount(h, r, l, m, o);
      }
    }
  }

  lemma SwapGood(h: Heap, r: Heap, ext: multiset<Addr>, l: Loc, m: Loc)
    requires Good(h, {}, ext) && l in h.slots && m in h.slots && r == Swap(h, l, m) && SwapOk(h, l, m)
    ensures Good(r, {}, ext)
  {
    SwapBalanced(h, r, ext, l, m);
    hide Balanced;
  }

  /** `swap` exchanges the pointers only, so it keeps the invariant exactly when no pointer lands in
      a slot that has no release function. */
  lemma SwapSafeIff(h: Heap, ext: multiset<Addr>, l: Loc, m: Loc)
    requires Inv(h, ext) && l in h.slots && m in h.slots
    ensures Inv(Swap(h, l, m), ext) <==> SwapOk(h, l, m)
  {
    var r := Swap(h, l, m);
    if SwapOk(h, l, m) {
      SwapGood(h, r, ext, l, m);
      LedgerOfObjects(h, r);
    } else if l == m {
    } else if h.slots[l].ptr.Some? && !h.slots[m].fn {
      assert r.slots[m].ptr.Some? && !r.slots[m].fn;
    } else {
      assert r.slots[l].ptr.Some? && !r.slots[l].fn;
    }
  }

  // ---------------------------------------------------------------- runs

  datatype Op =
    | MakeNull(l: Loc)
    | MakeRaw(l: Loc, p: Option<Addr>)
    | MakeNew(l: Loc, a: Addr, arity: nat)
    | MakeCopy(l: Loc, src: Loc)
    | SetRaw(l: Loc, p: Option<Addr>)
    | SetFrom(l: Loc, src: Loc)
    | Clear(l: Loc)
    | Exchange(l: Loc, m: Loc)
    | End(l: Loc)
    | Take(o: Addr)
    | Give(o: Addr)

  function Apply(h: Heap, op: Op): Heap {
    match op
    case MakeNull(l) => ConstructNull(h, l)
    case MakeRaw(l, p) => ConstructRaw(h, l, p)
    case MakeNew(l, a, arity) => Create(h, l, a, arity)
    case MakeCopy(l, src) => ConstructCopy(h, l, src)
    case SetRaw(l, p) => Assign(h, l, p)
    case SetFrom(l, src) => AssignFrom(h, l, src)
    case Clear(l) => Reset(h, l)
    case Exchange(l, m) => Swap(h, l, m)
    case End(l) => DestroySlot(h, l)
    case Take(o) => AddRef(h, o)
    case Give(o) => DelRef(h, o)
  }

  function ExtAfter(ext: multiset<Addr>, op: Op): multiset<Addr> {
    match op
    case Take(o) => ext + multiset{o}
    case Give(o) => ext - multiset{o}
    case _ => ext
  }

  /** What a program owes: slots are constructed once and used while they exist, bare pointers it
      passes are live, and it writes to a member only if the object that contains it survives that. */
  ghost predicate Legal(h: Heap, ext: multiset<Addr>, op: Op) {
    match op
    case MakeNull(l) => l.Root? && l !in h.slots
    case MakeRaw(l, p) => l.Root? && l !in h.slots && Holdable(h, p)
    case MakeNew(l, a, _) => l.Root? && l !in h.slots && a !in h.objs
    case MakeCopy(l, src) => l.Root? && l !in h.slots && src in h.slots
    case SetRaw(l, p) => l in h.slots && Holdable(h, p) && Survives(h, ext, l, p)
    case SetFrom(l, src) => l in h.slots && src in h.slots && Survives(h, ext, l, h.slots[src].ptr)
    case Clear(l) => l in h.slots && Survives(h, ext, l, None)
    case Exchange(l, m) => l in h.slots && m in h.slots && SwapOk(h, l, m)
    case End(l) => l.Root? && l in h.slots
    case Take(o) => o in h.objs
    case Give(o) => o in ext
  }

  lemma StepSafe(h: Heap, ext: multiset<Addr>, op: Op)
    requires Inv(h, ext) && Legal(h, ext, op)
    ensures Inv(Apply(h, op), ExtAfter(ext, op))
  {
    match op
    case MakeNull(l) => ConstructNullSafe(h, ext, l);
    case MakeRaw(l, p) => ConstructRawSafe(h, ext, l, p);
    case MakeNew(l, a, arity) => CreateSafe(h, ext, l, a, arity);
    case MakeCopy(l, src) => ConstructCopySafe(h, ext, l, src);
    case SetRaw(l, p) => AssignSafe(h, ext, l, p);
    case SetFrom(l, src) => AssignSafe(h, ext, l, h.slots[src].ptr);
    case Clear(l) => ResetSafe(h, ext, l);
    case Exchange(l, m) => SwapSafeIff(h, ext, l, m);
    case End(l) => DestroySafe(h, ext, l);
    case Take(o) => TakeRawSafe(h, ext, o);
    case Give(o) =>
      assert ext - multiset{o} + multiset{o} == ext;
      DropRawSafe(h, ext - multiset{o}, o);
  }

  function Run(h: Heap, ops: seq<Op>): Heap
    decreases |ops|
  {
    if ops == [] then h else Run(Apply(h, ops[0]), ops[1..])
  }

  function ExtRun(ext: multiset<Addr>, ops: seq<Op>): multiset<Addr>
    decreases |ops|
  {
    if ops == [] then ext else ExtRun(ExtAfter(ext, ops[0]), ops[1..])
  }

  ghost predicate LegalRun(h: Heap, ext: multiset<Addr>, ops: seq<Op>)
    decreases |ops|
  {
    ops == [] || (Legal(h, ext, ops[0]) && LegalRun(Apply(h, ops[0]), ExtAfter(ext, ops[0]), ops[1..]))
  }

  /** No legal run ever touches freed memory, and at its end every count is exact and every
      allocation is live or freed once. */
  lemma {:induction false} RunSafe(h: Heap, ext: multiset<Addr>, ops: seq<Op>)
    requires Inv(h, ext) && LegalRun(h, ext, ops)
    ensures Inv(Run(h, ops), ExtRun(ext, ops)) && !Run(h, ops).fault
    decreases |ops|
  {
    if ops != [] {
      StepSafe(h, ext, ops[0]);
      RunSafe(Apply(h, ops[0]), ExtAfter(ext, ops[0]), ops[1..]);
    }
  }

  lemma EmptyInv()
    ensures Inv(EMPTY, multiset{}) && Acyclic(EMPTY)
  {
    assert forall x, y :: !Edge(EMPTY, {}, x, y);
    assert forall c | IsCycle(EMPTY, c) :: Edge(EMPTY, {}, c[0], c[1]);
  }

  /** The same obligations with nothing asked about what keeps a container alive, or about swap's
      release functions. */
  ghost predicate LegalPlain(h: Heap, ext: multiset<Addr>, op: Op) {
    match op
    case SetRaw(l, p) => l in h.slots && Holdable(h, p)
    case SetFrom(l, src) => l in h.slots && src in h.slots
    case Clear(l) => l in h.slots
    case Exchange(l, m) => l in h.slots && m in h.slots
    case _ => Legal(h, ext, op)
  }

  /** Nothing less will do: an operation keeps the invariant exactly if it is legal. */
  lemma StepSafeIff(h: Heap, ext: multiset<Addr>, op: Op)
    requires Inv(h, ext) && LegalPlain(h, ext, op)
    ensures Inv(Apply(h, op), ExtAfter(ext, op)) <==> Legal(h, ext, op)
  {
    if Legal(h, ext, op) {
      StepSafe(h, ext, op);
    } else if op.SetRaw? {
      AssignFaultIff(h, ext, op.l, op.p);
    } else if op.SetFrom? {
      SlotHoldable(h, ext, op.src);
      AssignFaultIff(h, ext, op.l, h.slots[op.src].ptr);
    } else if op.Clear? {
      ResetFaultIff(h, ext, op.l);
    } else {
      SwapSafeIff(h, ext, op.l, op.m);
    }
  }

  lemma SlotHoldable(h: Heap, ext: multiset<Addr>, l: Loc)
    requires Inv(h, ext) && l in h.slots
    ensures Holdable(h, h.slots[l].ptr)
  {
  }
}
