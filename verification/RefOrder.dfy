/** Why assignment takes the new reference before it drops the old one, and heaps that lie outside what
    the operations promise. */
module RefOrder {
  import opened Wrappers
  import opened RefHeap
  import opened RefInvariant
  import opened RefSafety
  import opened RefGraph
  import opened RefRuns
  import opened RefAcyclic

  // ---------------------------------------------------------------- the order of the two updates

  /** Assignment with the two reference updates exchanged. */
  function AssignDropFirst(h: Heap, l: Loc, p: Option<Addr>): Heap
    requires l in h.slots
  {
    Store(AddRefOpt(DelRefOpt(h, h.slots[l].ptr), p), l, Slot(p, true))
  }

  /** Something other than slot `l` keeps `x` alive. */
  ghost predicate KeptElsewhere(h: Heap, ext: multiset<Addr>, l: Loc, x: Option<Addr>) {
    x.Some? ==> Kept(h, {l}, ext, x.value)
  }

  function Owner(l: Loc): Option<Addr> {
    if l.Field? then Some(l.owner) else None
  }

  /** A fault is never taken back. */
  lemma FaultStays(h: Heap, l: Loc, p: Option<Addr>)
    ensures !Store(AddRefOpt(h, p), l, Slot(p, true)).fault <==> !h.fault && Holdable(h, p) && l in h.slots
  {
  }

  /** Dropping first touches freed memory exactly if nothing but the slot keeps the new target, or the
      container of the slot, alive: above all when only the old target leads to the new one. */
  lemma DropFirstFaultIff(h: Heap, ext: multiset<Addr>, l: Loc, p: Option<Addr>)
    requires Inv(h, ext) && l in h.slots && Holdable(h, p)
    ensures AssignDropFirst(h, l, p).fault <==> !(KeptElsewhere(h, ext, l, p) && KeptElsewhere(h, ext, l, Owner(l)))
  {
    var h2 := DelRefOpt(h, h.slots[l].ptr);
    FaultStays(h2, l, p);
    if KeptElsewhere(h, ext, l, p) && KeptElsewhere(h, ext, l, Owner(l)) {
      DropFirstCascade(h, h2, ext, l);
      hide Inv, Released;
      KeptStaysLive(h, h2, ext, l, p);
      KeptStaysLive(h, h2, ext, l, Owner(l));
      SlotStays(h, h2, ext, l);
    } else if !AssignDropFirst(h, l, p).fault {
      DropFirstCascade(h, h2, ext, l);
      hide Inv, AssignDropFirst;
      LiveKeptElsewhere(h, h2, ext, l, p);
      LiveKeptElsewhere(h, h2, ext, l, Owner(l));
    }
  }

  lemma DropFirstCascade(h: Heap, h2: Heap, ext: multiset<Addr>, l: Loc)
    requires Inv(h, ext) && l in h.slots && h2 == DelRefOpt(h, h.slots[l].ptr)
    requires KeptElsewhere(h, ext, l, Owner(l)) || l in h2.slots
    ensures Released(h, h2, {l}, ext, {}) && Dying(h2) == {} && !h2.fault && (l in h2.slots && l.Field? ==> l.owner in h2.objs)
  {
    hide Good, KeepsReached, KeepsSupported, Shrunk, Inv, Kept, Dying;
    var was := h.slots[l].ptr;
    OldIsOwed(h, ext, l);
    if was.Some? {
      CascadeDelRef(h, was.value, {l}, ext);
    } else {
      NothingReleased(h, {l}, ext);
    }
    GoodSlots(h2, ext, l);
  }

  lemma OldIsOwed(h: Heap, ext: multiset<Addr>, l: Loc)
    requires Inv(h, ext) && l in h.slots
    ensures Good(h, {l}, OwedBy(ext, h.slots[l].ptr)) && Dying(h) == {}
  {
    var was := h.slots[l].ptr;
    if was.Some? {
      assert h.slots[l := Slot(was, true)] == h.slots;
      BeginWrite(h, h, ext, l);
    } else {
      forall o ensures Holders(h, {l}, o) == Holders(h, {}, o) {
      }
    }
  }

  lemma GoodSlots(h: Heap, ext: multiset<Addr>, l: Loc)
    requires Good(h, {l}, ext)
    ensures !h.fault && (l in h.slots && l.Field? ==> l.owner in h.objs)
  {
  }

  lemma KeptStaysLive(h: Heap, h2: Heap, ext: multiset<Addr>, l: Loc, x: Option<Addr>)
    requires Released(h, h2, {l}, ext, {}) && KeptElsewhere(h, ext, l, x)
    ensures Holdable(h2, x)
  {
    if x.Some? {
      assert Kept(h2, {l}, ext, x.value);
      KeptIsLive(h2, {l}, ext, x.value);
    }
  }

  lemma SlotStays(h: Heap, h2: Heap, ext: multiset<Addr>, l: Loc)
    requires Released(h, h2, {l}, ext, {}) && l in h.slots && Holdable(h2, Owner(l))
    ensures l in h2.slots
  {
  }

  lemma LiveKeptElsewhere(h: Heap, h2: Heap, ext: multiset<Addr>, l: Loc, x: Option<Addr>)
    requires Released(h, h2, {l}, ext, {}) && Dying(h2) == {} && Holdable(h2, x)
    ensures KeptElsewhere(h, ext, l, x)
  {
    if x.Some? {
      LiveIsKept(h2, {l}, ext, x.value);
      assert forall k <- h2.slots | k != l :: k in h.slots && h.slots[k] == h2.slots[k];
      hide Released;
      KeptWithMore(h2, h, {l}, ext, x.value);
    }
  }

  /** A two-element list held by one slot. */
  const LIST := Heap(
    map[1 := Obj(1, 1, 0), 2 := Obj(1, 0, 1)],
    map[Root(0) := Slot(Some(1), true), Field(1, 0) := Slot(Some(2), true)],
    2, [], false)

  /** Advancing along the list frees the head and keeps the tail; dropping first would free the tail
      before taking it. */
  lemma DropFirstFreesTarget()
    ensures var good := AssignFrom(LIST, Root(0), Field(1, 0)); var bad := AssignDropFirst(LIST, Root(0), Some(2));
            && !good.fault && good.objs.Keys == {2} && good.freed == [0]
            && bad.fault && bad.freed == [1, 0]
  {
    var h := LIST;
    var a := SetCount(h, 1, 0);
    var b := Drop(a, Field(1, 0));
    var c := SetCount(b, 2, 0);
    assert DelRef(b, 2) == Free(c, 2);
    assert DestroyFields(a, 1, 1) == DestroyFields(DestroySlot(a, Field(1, 0)), 1, 0) == Free(c, 2);
    assert DelRef(h, 1) == Free(Free(c, 2), 1);
    var a' := SetCount(AddRef(h, 2), 1, 0);
    var b' := Drop(a', Field(1, 0));
    assert DelRef(b', 2) == SetCount(b', 2, 1);
    assert DestroyFields(a', 1, 1) == DestroyFields(DestroySlot(a', Field(1, 0)), 1, 0) == SetCount(b', 2, 1);
    assert h.slots[Root(0) := Slot(Some(1), true)] == h.slots;
    assert DelRef(AddRef(h, 2), 1) == Free(SetCount(b', 2, 1), 1);
  }

  /** Two objects that hold each other and nothing else. */
  const RING := Heap(
    map[1 := Obj(1, 1, 0), 2 := Obj(1, 1, 1)],
    map[Field(1, 0) := Slot(Some(2), true), Field(2, 0) := Slot(Some(1), true)],
    2, [], false)

  /** Two objects, each held by one member. */
  lemma TwoObjects(h: Heap, l: Loc, m: Loc)
    requires h.objs.Keys == {1, 2} && h.objs[1].birth == 0 && h.objs[2].birth == 1 && h.clock == 2 && h.freed == []
    requires h.objs[1].count == 1 && h.objs[2].count == 1 && Holders(h, {}, 1) == {l} && Holders(h, {}, 2) == {m}
    ensures Ledger(h) && Balanced(h, {}, multiset{}) && Dying(h) == {}
  {
    hide Holders;
    forall b: nat | b < h.clock && b !in h.freed ensures exists o :: o in h.objs && h.objs[o].birth == b {
      assert h.objs[b + 1].birth == b;
    }
  }

  lemma RingShaped()
    ensures Shaped(RING, {}, multiset{}) && Holders(RING, {}, 1) == {Field(2, 0)} && Holders(RING, {}, 2) == {Field(1, 0)}
  {
  }

  /** The ring is a heap that the operations can leave behind. */
  lemma RingInv()
    ensures Inv(RING, multiset{})
  {
    hide Shaped, Balanced, Ledger, Holders, Dying;
    RingShaped();
    TwoObjects(RING, Field(2, 0), Field(1, 0));
  }

  /** Nothing but the ring itself keeps the ring alive: clearing one of its members frees the object that
      contains the slot before the store into it. */
  lemma RingMemberFreed()
    ensures var r := Assign(RING, Field(1, 0), None); r.fault && r.objs.Keys == {}
    ensures !Survives(RING, multiset{}, Field(1, 0), None)
  {
    var h := RING;
    assert h.slots[Field(1, 0) := Slot(Some(2), true)] == h.slots;
    var a := SetCount(h, 2, 0);
    var b := Drop(a, Field(2, 0));
    var c := SetCount(b, 1, 0);
    var d := Drop(c, Field(1, 0));
    var e := SetCount(d, 2, -1);
    assert DestroyFields(c, 1, 1) == DestroyFields(DestroySlot(c, Field(1, 0)), 1, 0) == e;
    assert DelRef(b, 1) == Free(e, 1);
    assert DestroyFields(a, 2, 1) == DestroyFields(DestroySlot(a, Field(2, 0)), 2, 0) == Free(e, 1);
    assert DelRef(h, 2) == Free(Free(e, 1), 2);
    RingInv();
    AssignFaultIff(RING, multiset{}, Field(1, 0), None);
  }

  /** An object that holds itself and another one. */
  const LOOP := Heap(
    map[1 := Obj(1, 2, 0), 2 := Obj(1, 0, 1)],
    map[Field(1, 0) := Slot(Some(1), true), Field(1, 1) := Slot(Some(2), true)],
    2, [], false)

  lemma LoopShaped()
    ensures Shaped(LOOP, {}, multiset{}) && Holders(LOOP, {}, 1) == {Field(1, 0)} && Holders(LOOP, {}, 2) == {Field(1, 1)}
  {
  }

  lemma LoopInv()
    ensures Inv(LOOP, multiset{})
  {
    hide Shaped, Balanced, Ledger, Holders, Dying;
    LoopShaped();
    TwoObjects(LOOP, Field(1, 0), Field(1, 1));
  }

  lemma LoopSurvives()
    ensures Survives(LOOP, multiset{}, Field(1, 1), None)
  {
    assert Edge(LOOP, {Field(1, 1)}, 1, 1) by {
      assert Field(1, 0) in LOOP.slots && Field(1, 0) !in {Field(1, 1)};
    }
    assert Supported(LOOP, {Field(1, 1)}, multiset{}, {1});
  }

  lemma LoopUnreached()
    ensures !Reached(LOOP, {}, multiset{}, 1)
  {
    assert forall x :: !Anchored(LOOP, {}, multiset{}, x);
    hide Anchored;
  }

  /** Nothing outside leads to the object, and yet its other member may be cleared: it keeps itself. */
  lemma LoopMemberSafe()
    ensures Inv(LOOP, multiset{}) && !Reached(LOOP, {}, multiset{}, 1)
    ensures !Assign(LOOP, Field(1, 1), None).fault
  {
    hide Inv, Assign, Survives, Reached;
    LoopInv();
    LoopUnreached();
    LoopSurvives();
    AssignFaultIff(LOOP, multiset{}, Field(1, 1), None);
  }

  // ---------------------------------------------------------------- swaps that go wrong

  /** A set slot and one that has never been set. */
  const HALF := Heap(map[1 := Obj(1, 0, 0)], map[Root(0) := Slot(Some(1), true), Root(1) := NULL_SLOT], 1, [], false)

  /** A pointer swapped into a slot without a release function is never given back. */
  lemma SwapLosesRelease()
    ensures Inv(HALF, multiset{}) && !SwapOk(HALF, Root(0), Root(1)) && !Inv(Swap(HALF, Root(0), Root(1)), multiset{})
    ensures DestroySlot(Swap(HALF, Root(0), Root(1)), Root(1)).objs == HALF.objs
  {
    assert Holders(HALF, {}, 1) == {Root(0)};
    assert HALF.objs[1].birth == 0;
    SwapSafeIff(HALF, multiset{}, Root(0), Root(1));
  }

  /** Swapping the slot that holds the list with the member of its head leaves the head holding itself. */
  lemma SwapLeaks()
    ensures SwapOk(LIST, Root(0), Field(1, 0))
    ensures var r := Swap(LIST, Root(0), Field(1, 0)); 1 in r.objs && !Reached(r, {}, multiset{}, 1)
  {
    var r := Swap(LIST, Root(0), Field(1, 0));
    assert forall y :: !Edge(r, {}, 2, y);
    assert forall x | Anchored(r, {}, multiset{}, x) :: x == 2;
    hide Edge, Anchored;
    forall p ensures !PathTo(r, {}, multiset{}, p, 1) {
      FirstStep(r, p);
    }
  }

  lemma FirstStep(r: Heap, p: seq<Addr>)
    ensures IsPath(r, {}, p) && |p| > 1 ==> Edge(r, {}, p[0], p[1])
  {
  }
}
