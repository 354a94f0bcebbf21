/** What each operation leaves, told from the heap before it: which objects are still alive, what the
    slots hold, and in which order memory is returned. */
module RefOutcome {
  import opened Wrappers
  import opened RefHeap
  import opened RefInvariant
  import opened RefSafety
  import opened RefRuns

  /** Alive are exactly the objects that something keeps when the slots `w` no longer count. */
  ghost predicate Leaves(h: Heap, r: Heap, w: set<Loc>, e: multiset<Addr>) {
    forall o :: o in r.objs <==> o in h.objs && Kept(h, w, e, o)
  }

  lemma ReleasedLeaves(h: Heap, r: Heap, w: set<Loc>, e: multiset<Addr>, d: set<Loc>)
    requires Good(r, w, e) && Dying(r) == {} && Shrunk(h, r, d) && KeepsSupported(h, r, w, e)
    ensures Leaves(h, r, w, e)
  {
    hide Good, Supported, Dying;
    forall o ensures o in r.objs <==> o in h.objs && Kept(h, w, e, o) {
      if o in r.objs {
        LiveIsKept(r, w, e, o);
        KeptWithMore(r, h, w, e, o);
      }
      if Kept(h, w, e, o) {
        assert Kept(r, w, e, o);
        KeptIsLive(r, w, e, o);
      }
    }
  }

  /** Leaving out the written slots, two heaps with the same other slots keep the same objects. */
  lemma LeavesAlike(h: Heap, h2: Heap, r: Heap, l: Loc, e: multiset<Addr>)
    requires Leaves(h2, r, {l}, e) && h2.objs.Keys == h.objs.Keys
    requires l in h.slots && l in h2.slots && h2.slots == h.slots[l := h2.slots[l]]
    ensures Leaves(h, r, {l}, e)
  {
    forall o ensures Kept(h, {l}, e, o) <==> Kept(h2, {l}, e, o) {
      if Kept(h, {l}, e, o) { KeptWithMore(h, h2, {l}, e, o); }
      if Kept(h2, {l}, e, o) { KeptWithMore(h2, h, {l}, e, o); }
    }
  }

  // ---------------------------------------------------------------- assignment

  /** After `a = p` the slot holds `p`, with a release function even for a null `p`; alive are exactly the
      objects that the other slots, the references outside and `p` keep; and nothing else is changed. */
  lemma AssignLeaves(h: Heap, ext: multiset<Addr>, l: Loc, p: Option<Addr>)
    requires Inv(h, ext) && l in h.slots && Holdable(h, p) && Survives(h, ext, l, p)
    ensures var r := Assign(h, l, p);
            && Inv(r, ext) && l in r.slots && Wrote(h, r, l, r.slots[l]) && Leaves(h, r, {l}, OwedBy(ext, p))
            && r.slots[l] == if h.slots[l].ptr == p then h.slots[l] else Slot(p, true)
  {
    hide Survives, Inv, Wrote, Assign, Leaves;
    AssignSafe(h, ext, l, p);
    if h.slots[l].ptr == p {
      NothingLost(h, ext, l);
      AssignSame(h, l);
    } else {
      AssignChanges(h, ext, l, p);
    }
  }

  lemma AssignSame(h: Heap, l: Loc)
    requires l in h.slots
    ensures Assign(h, l, h.slots[l].ptr) == h
  {
  }

  lemma AssignIs(h: Heap, l: Loc, p: Option<Addr>)
    requires l in h.slots && h.slots[l].ptr != p
    ensures Assign(h, l, p) == Store(DelRefOpt(Prepare(h, l, p), h.slots[l].ptr), l, Slot(p, true))
  {
  }

  lemma AssignChanges(h: Heap, ext: multiset<Addr>, l: Loc, p: Option<Addr>)
    requires Inv(h, ext) && l in h.slots && Holdable(h, p) && Survives(h, ext, l, p) && h.slots[l].ptr != p
    ensures var r := Assign(h, l, p); Leaves(h, r, {l}, OwedBy(ext, p)) && l in r.slots && r.slots[l] == Slot(p, true)
  {
    hide Survives, Inv, Wrote, Prepare, Released, Assign, Store, DelRefOpt, Dying, Ledger, WritersStay, Kept;
    var h2 := Prepare(h, l, p);
    var h3 := DelRefOpt(h2, h.slots[l].ptr);
    WriteCascade(h, h2, h3, ext, l, p);
    CascadeLeaves(h, h2, h3, l, OwedBy(ext, p));
    AssignIs(h, l, p);
    StoreAfter(h3, l, Slot(p, true));
    AssignSafe(h, ext, l, p);
    SlotKept(h3, l, Slot(p, true));
  }

  lemma SlotKept(h: Heap, l: Loc, s: Slot)
    ensures l in Store(h, l, s).slots ==> l in h.slots
  {
  }

  lemma CascadeLeaves(h: Heap, h2: Heap, h3: Heap, l: Loc, e: multiset<Addr>)
    requires Released(h2, h3, {l}, e, {}) && Dying(h3) == {}
    requires l in h.slots && l in h2.slots && h2.slots == h.slots[l := h2.slots[l]] && h2.objs.Keys == h.objs.Keys
    ensures Leaves(h, h3, {l}, e)
  {
    ReleasedLeaves(h2, h3, {l}, e, {});
    LeavesAlike(h, h2, h3, l, e);
  }

  lemma StoreAfter(h: Heap, l: Loc, s: Slot)
    ensures Store(h, l, s).objs == h.objs && (l in h.slots ==> Store(h, l, s).slots[l] == s)
  {
  }

  lemma NothingLost(h: Heap, ext: multiset<Addr>, l: Loc)
    requires Inv(h, ext) && l in h.slots
    ensures Leaves(h, h, {l}, OwedBy(ext, h.slots[l].ptr))
  {
    var e := OwedBy(ext, h.slots[l].ptr);
    var h1 := h.(slots := h.slots[l := Slot(h.slots[l].ptr, true)]);
    BeginWrite(h, h1, ext, l);
    assert Dying(h1) == {};
    hide Inv, Good, Dying, Kept;
    forall o | o in h.objs ensures Kept(h, {l}, e, o) {
      LiveIsKept(h1, {l}, e, o);
      KeptWithMore(h1, h, {l}, e, o);
    }
  }

  /** After `a = b` both slots hold the pointer of `b`, or the object that held `b` is gone. */
  lemma AssignFromLeaves(h: Heap, ext: multiset<Addr>, l: Loc, src: Loc)
    requires Inv(h, ext) && l in h.slots && src in h.slots && Survives(h, ext, l, h.slots[src].ptr)
    ensures var r := AssignFrom(h, l, src); var p := h.slots[src].ptr;
            && Inv(r, ext) && l in r.slots && r.slots[l].ptr == p && Wrote(h, r, l, r.slots[l])
            && Leaves(h, r, {l}, OwedBy(ext, p))
            && r.slots[l].fn == (h.slots[l].fn || h.slots[l].ptr != p)
            && (src in r.slots ==> r.slots[src].ptr == p)
  {
    SlotHoldable(h, ext, src);
    AssignLeaves(h, ext, l, h.slots[src].ptr);
    hide Assign, Inv, Leaves, Survives;
  }

  // ---------------------------------------------------------------- giving back

  lemma ResetLeaves(h: Heap, ext: multiset<Addr>, l: Loc)
    requires Inv(h, ext) && l in h.slots && Survives(h, ext, l, None)
    ensures var r := Reset(h, l);
            Inv(r, ext) && Wrote(h, r, l, NULL_SLOT) && Leaves(h, r, {l}, ext)
  {
    ResetSafe(h, ext, l);
    if h.slots[l].ptr.Some? {
      NothingPrepared(h, ext, l);
      hide Survives, Inv, Wrote, Released, Reset;
      WriteCascade(h, h, DelRefOpt(h, h.slots[l].ptr), ext, l, None);
      CascadeLeaves(h, h, DelRefOpt(h, h.slots[l].ptr), l, ext);
      StoreAfter(DelRefOpt(h, h.slots[l].ptr), l, NULL_SLOT);
    } else {
      NothingLost(h, ext, l);
      ResetNone(h, ext, l);
    }
  }

  lemma ResetNone(h: Heap, ext: multiset<Addr>, l: Loc)
    requires l in h.slots && h.slots[l].ptr.None? && Leaves(h, h, {l}, ext)
    ensures Leaves(h, Reset(h, l), {l}, ext)
  {
    hide Kept;
  }

  /** The end of a slot outside every object. */
  lemma {:induction false} DestroyLeaves(h: Heap, ext: multiset<Addr>, l: Loc)
    requires Inv(h, ext) && l.Root? && l in h.slots
    ensures var r := DestroySlot(h, l); Inv(r, ext) && Shrunk(h, r, {l}) && l !in r.slots && Leaves(h, r, {l}, ext)
  {
    hide Inv, Good, Shrunk, Dying, DestroySlot, DelRef, Kept, Drop;
    DestroySafe(h, ext, l);
    var r := DestroySlot(h, l);
    var h1 := Drop(h, l);
    DroppedGood(h, h1, ext, l);
    DestroyIs(h, l);
    GoodOf(r, ext);
    if h.slots[l].ptr.Some? {
      DropRawSafe(h1, ext, h.slots[l].ptr.value);
    } else {
      NothingShrunk(h1, ext);
    }
    ReleasedLeaves(h1, r, {}, ext, {});
    forall o ensures Kept(h, {l}, ext, o) <==> Kept(h1, {}, ext, o) {
      KeptWithout(h, h1, l, ext, o);
    }
  }

  lemma {:induction false} DestroyIs(h: Heap, l: Loc)
    requires l in h.slots
    ensures DestroySlot(h, l) == if h.slots[l].ptr.Some? && h.slots[l].fn then DelRef(Drop(h, l), h.slots[l].ptr.value) else Drop(h, l)
  {
  }

  lemma DroppedGood(h: Heap, h1: Heap, ext: multiset<Addr>, l: Loc)
    requires Inv(h, ext) && l.Root? && l in h.slots && h1 == Drop(h, l)
    ensures Inv(h1, OwedBy(ext, h.slots[l].ptr)) && h1.objs == h.objs && h1.slots == h.slots - {l}
    ensures h.slots[l].ptr.Some? ==> h.slots[l].fn && OwedBy(ext, h.slots[l].ptr) == ext + multiset{h.slots[l].ptr.value}
  {
    hide Good, Ledger;
    DropGood(h, h1, {}, ext, l);
    LedgerOfObjects(h, h1);
    assert Dying(h1) == Dying(h);
    if h.slots[l].ptr.Some? {
      NonNullHasFn(h, {}, ext, l);
    }
  }

  lemma GoodOf(h: Heap, ext: multiset<Addr>)
    requires Inv(h, ext)
    ensures Good(h, {}, ext) && Dying(h) == {}
  {
  }

  lemma NothingShrunk(h: Heap, ext: multiset<Addr>)
    ensures Shrunk(h, h, {}) && KeepsSupported(h, h, {}, ext)
  {
  }

  lemma KeptWithout(h: Heap, h1: Heap, l: Loc, ext: multiset<Addr>, o: Addr)
    requires h1.slots == h.slots - {l}
    ensures Kept(h, {l}, ext, o) <==> Kept(h1, {}, ext, o)
  {
    assert forall x, y :: Edge(h, {l}, x, y) <==> Edge(h1, {}, x, y);
    assert forall x :: Anchored(h, {l}, ext, x) <==> Anchored(h1, {}, ext, x);
    hide Edge, Anchored;
    forall k: set<Addr> ensures Supported(h, {l}, ext, k) <==> Supported(h1, {}, ext, k) {
      forall x <- k ensures HeldIn(h, {l}, k, x) <==> HeldIn(h1, {}, k, x) {
      }
    }
    hide Supported;
  }

  /** A bare `delRef`. */
  lemma {:induction false} DelRefLeaves(h: Heap, ext: multiset<Addr>, o: Addr)
    requires Inv(h, ext + multiset{o})
    ensures Inv(DelRef(h, o), ext) && Leaves(h, DelRef(h, o), {}, ext)
  {
    DropRawSafe(h, ext, o);
    GoodOf(DelRef(h, o), ext);
    hide Inv, Good, Shrunk, Dying;
    ReleasedLeaves(h, DelRef(h, o), {}, ext, {});
  }

  // ---------------------------------------------------------------- swap

  /** `swap` exchanges the two pointers, wherever the slots are, and nothing else; done twice it undoes itself. */
  lemma SwapExchanges(h: Heap, l: Loc, m: Loc)
    requires l in h.slots && m in h.slots
    ensures var r := Swap(h, l, m);
            && r.slots.Keys == h.slots.Keys
            && r.slots[l].ptr == h.slots[m].ptr && r.slots[m].ptr == h.slots[l].ptr
            && r.slots[l].fn == h.slots[l].fn && r.slots[m].fn == h.slots[m].fn
            && (forall k <- h.slots | k != l && k != m :: r.slots[k] == h.slots[k])
            && r.(slots := h.slots) == h
            && Swap(r, l, m) == h
  {
    assert Swap(Swap(h, l, m), l, m).slots == h.slots;
  }

  // ---------------------------------------------------------------- the order of the memory

  /** The memory of an object is returned after that of everything its members release. */
  lemma {:induction false} OwnMemoryLast(h: Heap, ext: multiset<Addr>, o: Addr)
    requires Inv(h, ext + multiset{o}) && h.objs[o].count == 1
    ensures var f := DelRef(h, o).freed;
            |f| > |h.freed| && f[|f| - 1] == h.objs[o].birth && f[..|h.freed|] == h.freed
  {
    OwedIsLive(h, {}, ext, o);
    DropRawSafe(h, ext, o);
    var h1 := SetCount(h, o, 0);
    var r := DestroyFields(h1, o, h.objs[o].arity);
    FreedGrows(h1, o, h.objs[o].arity);
    NoFaultFree(r, o);
    assert DelRef(h, o) == Free(r, o);
    hide Inv, Shrunk, DelRef;
    BirthsKept(h1, o, h.objs[o].arity);
  }

  lemma NoFaultFree(r: Heap, o: Addr)
    ensures !Free(r, o).fault ==> o in r.objs
  {
  }

  /** A cascade only adds to the list of returned memory, and no object changes its serial. */
  ghost predicate Onward(h: Heap, r: Heap) {
    h.freed <= r.freed && forall o <- r.objs :: o in h.objs && r.objs[o].birth == h.objs[o].birth
  }

  lemma {:induction false} DelRefOnward(h: Heap, o: Addr)
    ensures Onward(h, DelRef(h, o))
    decreases Positive(h), 0
  {
    if o in h.objs {
      var h1 := SetCount(h, o, h.objs[o].count - 1);
      if h.objs[o].count == 1 {
        assert Positive(h1) == Positive(h) - {o};
        FieldsOnward(h1, o, h.objs[o].arity);
      }
    }
  }

  lemma {:induction false} FieldsOnward(h: Heap, o: Addr, n: nat)
    ensures Onward(h, DestroyFields(h, o, n))
    decreases Positive(h), n + 2
  {
    if n > 0 {
      SlotOnward(h, Field(o, n - 1));
      FieldsOnward(DestroySlot(h, Field(o, n - 1)), o, n - 1);
    }
  }

  lemma {:induction false} SlotOnward(h: Heap, l: Loc)
    ensures Onward(h, DestroySlot(h, l))
    decreases Positive(h), 1
  {
    if l in h.slots && h.slots[l].fn && h.slots[l].ptr.Some? {
      assert Positive(Drop(h, l)) == Positive(h);
      DelRefOnward(Drop(h, l), h.slots[l].ptr.value);
    }
  }

  lemma {:induction false} FreedGrows(h: Heap, o: Addr, n: nat)
    ensures h.freed <= DestroyFields(h, o, n).freed
  {
    FieldsOnward(h, o, n);
  }

  lemma {:induction false} BirthsKept(h: Heap, o: Addr, n: nat)
    ensures forall x <- DestroyFields(h, o, n).objs :: x in h.objs && DestroyFields(h, o, n).objs[x].birth == h.objs[x].birth
  {
    FieldsOnward(h, o, n);
  }

  /** An object whose two members each hold an object of their own. */
  const PAIR := Heap(
    map[1 := Obj(1, 2, 0), 2 := Obj(1, 0, 1), 3 := Obj(1, 0, 2)],
    map[Field(1, 0) := Slot(Some(2), true), Field(1, 1) := Slot(Some(3), true)],
    3, [], false)

  /** The members go from the last to the first, and the object itself after them. */
  lemma PairFreed()
    ensures DelRef(PAIR, 1).freed == [2, 1, 0] && !DelRef(PAIR, 1).fault
  {
    var a := SetCount(PAIR, 1, 0);
    var a1 := Drop(a, Field(1, 1));
    var a2 := SetCount(a1, 3, 0);
    assert DelRef(a1, 3) == Free(DestroyFields(a2, 3, 0), 3) == Free(a2, 3);
    var b := Free(a2, 3);
    var b1 := Drop(b, Field(1, 0));
    var b2 := SetCount(b1, 2, 0);
    assert DelRef(b1, 2) == Free(DestroyFields(b2, 2, 0), 2) == Free(b2, 2);
    var c := Free(b2, 2);
    assert DestroyFields(b, 1, 1) == DestroyFields(c, 1, 0) == c;
    assert DestroyFields(a, 1, 2) == c;
    assert DelRef(PAIR, 1) == Free(c, 1);
  }
}
