/** The operations of gcRefPtr against the invariant, one lemma an operation, and whole runs. */
module RefSafety {
  import opened Wrappers
  import opened RefHeap
  import opened RefInvariant

  // ---------------------------------------------------------------- the allocation ledger

  /** Every allocation so far is either live, at one address, or freed, once. */
  ghost predicate Ledger(h: Heap) {
    && (forall o | o in h.objs :: h.objs[o].birth < h.clock && h.objs[o].birth !in h.freed)
    && (forall o, q | o in h.objs && q in h.objs && h.objs[o].birth == h.objs[q].birth :: o == q)
    && (forall i, j | 0 <= i < j < |h.freed| :: h.freed[i] != h.freed[j])
    && (forall b | b in h.freed :: b < h.clock)
    && Accounted(h)
  }

  ghost predicate Accounted(h: Heap) {
    forall b: nat | b < h.clock && b !in h.freed :: exists o :: o in h.objs && h.objs[o].birth == b
  }

  lemma LedgerFree(h: Heap, o: Addr)
    requires Ledger(h)
    ensures Ledger(Free(h, o))
  {
    if o in h.objs {
      var f := Free(h, o);
      forall b: nat | b < f.clock && b !in f.freed ensures exists q :: q in f.objs && f.objs[q].birth == b {
        assert b !in h.freed;
        var q :| q in h.objs && h.objs[q].birth == b;
        assert h.objs[o].birth in f.freed;
        assert q in f.objs;
      }
    }
  }

  lemma LedgerSetCount(h: Heap, o: Addr, c: int)
    requires Ledger(h) && o in h.objs
    ensures Ledger(SetCount(h, o, c))
  {
    var r := SetCount(h, o, c);
    forall b: nat | b < r.clock && b !in r.freed ensures exists q :: q in r.objs && r.objs[q].birth == b {
      var q :| q in h.objs && h.objs[q].birth == b;
      assert q in r.objs && r.objs[q].birth == b;
    }
  }

  lemma {:induction false} LedgerDelRef(h: Heap, o: Addr)
    requires Ledger(h)
    ensures Ledger(DelRef(h, o))
    decreases Positive(h), 0
  {
    hide Ledger, Accounted;
    if o !in h.objs {
      LedgerOfObjects(h, Fault(h));
    } else {
      var c := h.objs[o].count - 1;
      var h1 := SetCount(h, o, c);
      LedgerSetCount(h, o, c);
      if c == 0 {
        assert Positive(h1) == Positive(h) - {o};
        LedgerFields(h1, o, h.objs[o].arity);
        LedgerFree(DestroyFields(h1, o, h.objs[o].arity), o);
      }
    }
  }

  lemma {:induction false} LedgerFields(h: Heap, o: Addr, n: nat)
    requires Ledger(h)
    ensures Ledger(DestroyFields(h, o, n))
    decreases Positive(h), n + 2
  {
    hide Ledger;
    if n > 0 {
      LedgerSlot(h, Field(o, n - 1));
      LedgerFields(DestroySlot(h, Field(o, n - 1)), o, n - 1);
    }
  }

  lemma {:induction false} LedgerSlot(h: Heap, l: Loc)
    requires Ledger(h)
    ensures Ledger(DestroySlot(h, l))
    decreases Positive(h), 1
  {
    hide Ledger, Accounted;
    if l !in h.slots {
      LedgerOfObjects(h, Fault(h));
    } else {
      var s := h.slots[l];
      var h1 := Drop(h, l);
      LedgerOfObjects(h, h1);
      if s.fn && s.ptr.Some? {
        LedgerDelRef(h1, s.ptr.value);
      }
    }
  }

  // ---------------------------------------------------------------- writing one slot

  /** The invariant between operations: no access to freed memory has happened, every count is the
      number of slots pointing at the object plus the references in `ext`, no slot dangles, and every
      allocation is accounted for. */
  ghost predicate Inv(h: Heap, ext: multiset<Addr>) {
    Good(h, {}, ext) && Dying(h) == {} && Ledger(h)
  }

  /** An object can be given its first reference once its members exist. */
  lemma AddRefGood(h: Heap, r: Heap, w: set<Loc>, ext: multiset<Addr>, o: Addr)
    requires Good(h, w, ext) && o in h.objs && r == AddRef(h, o)
    requires o in Dying(h) ==> forall i: nat | i < h.objs[o].arity :: Field(o, i) in h.slots
    ensures Good(r, w, ext + multiset{o}) && Dying(r) == Dying(h) - {o}
  {
    var e := ext + multiset{o};
    forall x | x in r.objs ensures r.objs[x].count == |Holders(r, w, x)| + e[x] {
      assert Holders(r, w, x) == Holders(h, w, x);
    }
  }

  lemma AddRefOptGood(h: Heap, r: Heap, w: set<Loc>, ext: multiset<Addr>, p: Option<Addr>)
    requires Good(h, w, ext) && Dying(h) == {} && Ledger(h)
    requires (p.Some? ==> p.value in h.objs) && r == AddRefOpt(h, p)
    ensures Good(r, w, OwedBy(ext, p)) && Dying(r) == {} && Ledger(r)
    ensures SameObjects(h, r) && r.slots == h.slots
  {
    hide Good, Dying, Ledger;
    if p.Some? {
      AddRefGood(h, r, w, ext, p.value);
      LedgerSetCount(h, p.value, h.objs[p.value].count + 1);
    }
  }

  ghost predicate SameObjects(h: Heap, r: Heap) {
    && r.objs.Keys == h.objs.Keys && r.clock == h.clock
    && forall o | o in r.objs :: r.objs[o].arity == h.objs[o].arity && r.objs[o].birth == h.objs[o].birth
  }

  lemma HoldersBeginWrite(h: Heap, r: Heap, l: Loc, o: Addr)
    requires l in h.slots && r.slots == h.slots[l := Slot(h.slots[l].ptr, true)]
    ensures h.slots[l].ptr == Some(o) ==> Holders(h, {}, o) == Holders(r, {l}, o) + {l}
    ensures h.slots[l].ptr != Some(o) ==> Holders(h, {}, o) == Holders(r, {l}, o)
  {
  }

  /** From here on the old pointer of `l` is a reference to be given back. */
  lemma BeginWrite(h: Heap, r: Heap, ext: multiset<Addr>, l: Loc)
    requires Good(h, {}, ext) && l in h.slots && r == h.(slots := h.slots[l := Slot(h.slots[l].ptr, true)])
    ensures Good(r, {l}, OwedBy(ext, h.slots[l].ptr)) && Dying(r) == Dying(h)
  {
    var e := OwedBy(ext, h.slots[l].ptr);
    forall o | o in r.objs ensures r.objs[o].count == |Holders(r, {l}, o)| + e[o] {
      HoldersBeginWrite(h, r, l, o);
    }
  }

  lemma HoldersEndWrite(h: Heap, r: Heap, l: Loc, s: Slot, o: Addr)
    requires l in h.slots && r.slots == h.slots[l := s]
    ensures s.ptr == Some(o) ==> l !in Holders(h, {l}, o) && Holders(r, {}, o) == Holders(h, {l}, o) + {l}
    ensures s.ptr != Some(o) ==> Holders(r, {}, o) == Holders(h, {l}, o)
  {
  }

  /** The store turns the reference taken for the new pointer into the slot's own. */
  lemma EndWrite(h: Heap, r: Heap, ext: multiset<Addr>, l: Loc, s: Slot)
    requires Good(h, {l}, OwedBy(ext, s.ptr)) && l in h.slots && r == Store(h, l, s)
    requires s.ptr.Some? ==> s.fn
    ensures Good(r, {}, ext) && Dying(r) == Dying(h)
  {
    EndWriteBalanced(h, r, ext, l, s);
    hide Balanced, Holders;
  }

  lemma EndWriteBalanced(h: Heap, r: Heap, ext: multiset<Addr>, l: Loc, s: Slot)
    requires Balanced(h, {l}, OwedBy(ext, s.ptr)) && l in h.slots && r == Store(h, l, s)
    ensures Balanced(r, {}, ext)
  {
    hide Holders;
    forall o | o in r.objs ensures r.objs[o].count == |Holders(r, {}, o)| + ext[o] {
      HoldersEndWrite(h, r, l, s, o);
    }
  }

  /** A path to `x` can be cut where it first meets `x`. */
  lemma {:induction false} FirstVisit(h: Heap, ext: multiset<Addr>, p: seq<Addr>, x: Addr) returns (q: seq<Addr>)
    requires PathTo(h, {}, ext, p, x)
    ensures PathTo(h, {}, ext, q, x) && forall k | 0 <= k < |q| - 1 :: q[k] != x
    decreases |p|
  {
    if k :| 0 <= k < |p| - 1 && p[k] == x {
      q := FirstVisit(h, ext, p[..k + 1], x);
    } else {
      q := p;
    }
  }

  /** Writing slot `l`, with `p` as its new pointer, leaves the object that contains it alive: without
      the slot, and with the new target counting as referenced, that object is still kept. */
  ghost predicate Survives(h: Heap, ext: multiset<Addr>, l: Loc, p: Option<Addr>) {
    l.Field? ==> Kept(h, {l}, OwedBy(ext, p), l.owner)
  }

  /** A slot of an object that something outside leads to may be written with any pointer. */
  lemma WritableSurvives(h: Heap, ext: multiset<Addr>, l: Loc, p: Option<Addr>)
    requires Writable(h, ext, l)
    ensures Survives(h, ext, l, p)
  {
    if l.Field? {
      var x, e := l.owner, OwedBy(ext, p);
      var path :| PathTo(h, {}, ext, path, x);
      var q := FirstVisit(h, ext, path, x);
      forall k | 0 <= k < |q| - 1 ensures Edge(h, {l}, q[k], q[k + 1]) {
        assert Edge(h, {}, q[k], q[k + 1]);
        var i: nat :| Field(q[k], i) in h.slots && h.slots[Field(q[k], i)].ptr == Some(q[k + 1]);
        assert Field(q[k], i) != l;
      }
      assert Anchored(h, {l}, e, q[0]) by {
        if q[0] !in ext {
          var n: nat :| Root(n) in h.slots && h.slots[Root(n)].ptr == Some(q[0]);
          assert Root(n) != l;
        }
      }
      assert PathTo(h, {l}, e, q, x);
      ReachedIsKept(h, {l}, e, x);
    }
  }

  /** Support looks at the other slots only, so it can only be more where there are more of them. */
  lemma KeptWithMore(h: Heap, r: Heap, w: set<Loc>, e: multiset<Addr>, x: Addr)
    requires Kept(h, w, e, x)
    requires forall k <- h.slots | k !in w :: k in r.slots && r.slots[k] == h.slots[k]
    ensures Kept(r, w, e, x)
  {
    var s: set<Addr> :| x in s && Supported(h, w, e, s);
    forall y <- s ensures Anchored(r, w, e, y) || HeldIn(r, w, s, y) {
      if Anchored(h, w, e, y) {
        if y !in e {
          var n: nat :| Root(n) in h.slots && Root(n) !in w && h.slots[Root(n)].ptr == Some(y);
          assert Root(n) in r.slots;
        }
      } else {
        var z :| z in s && Edge(h, w, z, y);
        var i: nat :| Field(z, i) in h.slots && Field(z, i) !in w && h.slots[Field(z, i)].ptr == Some(y);
        assert Edge(r, w, z, y);
      }
    }
    assert Supported(r, w, e, s);
  }

  /** When nothing is dying, the live objects together keep themselves alive. */
  lemma LiveIsKept(h: Heap, w: set<Loc>, e: multiset<Addr>, x: Addr)
    requires Good(h, w, e) && Dying(h) == {} && x in h.objs
    ensures Kept(h, w, e, x)
  {
    var s := h.objs.Keys;
    forall y <- s ensures Anchored(h, w, e, y) || HeldIn(h, w, s, y) {
      assert y !in Dying(h);
      if y !in e {
        assert |Holders(h, w, y)| > 0;
        var l :| l in Holders(h, w, y);
        if l.Root? {
          assert Root(l.name) in h.slots && Root(l.name) !in w && h.slots[Root(l.name)].ptr == Some(y);
        } else {
          assert Field(l.owner, l.index) in h.slots && Field(l.owner, l.index) !in w;
          assert Edge(h, w, l.owner, y) && l.owner in s;
        }
      }
    }
    assert Supported(h, w, e, s);
  }

  lemma KeptIsLive(h: Heap, w: set<Loc>, e: multiset<Addr>, x: Addr)
    requires Good(h, w, e) && Kept(h, w, e, x)
    ensures x in h.objs
  {
    var s: set<Addr> :| x in s && Supported(h, w, e, s);
    if !Anchored(h, w, e, x) {
      var y :| y in s && Edge(h, w, y, x);
    }
  }

  /** What an operation that writes slot `l` does to everything else: surviving objects keep their
      identity, surviving slots their contents, and a slot disappears only with its object. */
  ghost predicate Wrote(h: Heap, r: Heap, l: Loc, s: Slot) {
    && r.objs.Keys <= h.objs.Keys && r.clock == h.clock
    && (forall o | o in r.objs :: r.objs[o].arity == h.objs[o].arity && r.objs[o].birth == h.objs[o].birth)
    && l in r.slots && r.slots[l] == s
    && (forall k | k in r.slots && k != l :: k in h.slots && r.slots[k] == h.slots[k])
    && (forall k | k in h.slots && k !in r.slots :: k.Field? && k.owner !in r.objs)
  }

  /** The state in which the new reference has been taken and the old one is still to be dropped. */
  function Prepare(h: Heap, l: Loc, p: Option<Addr>): Heap
    requires l in h.slots
  {
    AddRefOpt(h.(slots := h.slots[l := Slot(h.slots[l].ptr, true)]), p)
  }

  lemma PrepareGood(h: Heap, h2: Heap, ext: multiset<Addr>, l: Loc, p: Option<Addr>)
    requires Inv(h, ext) && l in h.slots && (p.Some? ==> p.value in h.objs)
    requires h2 == Prepare(h, l, p)
    ensures Good(h2, {l}, OwedBy(OwedBy(ext, p), h.slots[l].ptr)) && Dying(h2) == {} && Ledger(h2)
    ensures h2.slots == h.slots[l := Slot(h.slots[l].ptr, true)] && SameObjects(h, h2)
  {
    var was := h.slots[l].ptr;
    var h1 := h.(slots := h.slots[l := Slot(was, true)]);
    hide Good, Ledger, Dying, AddRefOpt, OwedBy;
    LedgerOfObjects(h, h1);
    BeginWrite(h, h1, ext, l);
    AddRefOptGood(h1, h2, {l}, OwedBy(ext, was), p);
    OwedByCommutes(ext, was, p);
  }

  lemma OwedByCommutes(ext: multiset<Addr>, p: Option<Addr>, q: Option<Addr>)
    ensures OwedBy(OwedBy(ext, p), q) == OwedBy(OwedBy(ext, q), p)
    ensures ext <= OwedBy(ext, q)
  {
  }

  /** The cascade in the middle of a write, when the container survives or the slot turns out to. */
  lemma WriteCascade(h: Heap, h2: Heap, h3: Heap, ext: multiset<Addr>, l: Loc, p: Option<Addr>)
    requires Inv(h, ext) && l in h.slots && (p.Some? ==> p.value in h.objs)
    requires h2 == Prepare(h, l, p) && h3 == DelRefOpt(h2, h.slots[l].ptr)
    requires Survives(h, ext, l, p) || l in h3.slots
    ensures Released(h2, h3, {l}, OwedBy(ext, p), {}) && Dying(h3) == {} && Ledger(h3)
    ensures WritersStay(h2, h3, {l}, OwedBy(ext, p))
    ensures h2.slots == h.slots[l := Slot(h.slots[l].ptr, true)] && SameObjects(h, h2)
  {
    hide Good, Ledger, KeepsReached, KeepsSupported, Dying, Shrunk, Prepare, Kept, Inv;
    var was, e := h.slots[l].ptr, OwedBy(ext, p);
    PrepareGood(h, h2, ext, l, p);
    if Survives(h, ext, l, p) && l.Field? {
      KeptWithMore(h, h2, {l}, e, l.owner);
    }
    if was.Some? {
      CascadeDelRef(h2, was.value, {l}, e);
      LedgerDelRef(h2, was.value);
    } else {
      NothingReleased(h2, {l}, e);
    }
  }

  /** Replacing the pointer of `l` by `s.ptr`, new reference first: the common core of assignment
      and reset. */
  lemma WriteSlot(h: Heap, h2: Heap, h3: Heap, r: Heap, ext: multiset<Addr>, l: Loc, s: Slot)
    requires Inv(h, ext) && l in h.slots
    requires s.ptr.Some? ==> s.ptr.value in h.objs && s.fn
    requires h2 == Prepare(h, l, s.ptr) && h3 == DelRefOpt(h2, h.slots[l].ptr) && r == Store(h3, l, s)
    requires Survives(h, ext, l, s.ptr) || l in h3.slots
    ensures Inv(r, ext) && Wrote(h, r, l, s)
  {
    var e := OwedBy(ext, s.ptr);
    WriteCascade(h, h2, h3, ext, l, s.ptr);
    hide Good, Ledger, KeepsReached, KeepsSupported, Dying, Wrote, Shrunk, Prepare, Survives, WritersStay;
    WroteAfterCascade(h, h2, h3, e, l, s);
    EndWrite(h3, r, ext, l, s);
    LedgerOfObjects(h3, r);
  }

  /** Such a write touches freed memory exactly if the object that contains the slot does not survive it. */
  lemma WriteFaultIff(h: Heap, h2: Heap, h3: Heap, r: Heap, ext: multiset<Addr>, l: Loc, s: Slot)
    requires Inv(h, ext) && l in h.slots
    requires s.ptr.Some? ==> s.ptr.value in h.objs && s.fn
    requires h2 == Prepare(h, l, s.ptr) && h3 == DelRefOpt(h2, h.slots[l].ptr) && r == Store(h3, l, s)
    ensures !r.fault <==> Survives(h, ext, l, s.ptr)
  {
    hide Good, Ledger, Dying, Released, Prepare, Survives, WritersStay;
    if Survives(h, ext, l, s.ptr) {
      WriteSlot(h, h2, h3, r, ext, l, s);
      NoFault(r, ext);
    } else if !r.fault {
      WriteCascade(h, h2, h3, ext, l, s.ptr);
      SlotShowsSurvival(h, h2, h3, ext, l, s.ptr);
    }
  }

  lemma NoFault(h: Heap, ext: multiset<Addr>)
    requires Inv(h, ext)
    ensures !h.fault
  {
  }

  /** If the slot is still there after the cascade, the live objects are what kept its container alive. */
  lemma SlotShowsSurvival(h: Heap, h2: Heap, h3: Heap, ext: multiset<Addr>, l: Loc, p: Option<Addr>)
    requires l in h.slots && h2.slots == h.slots[l := Slot(h.slots[l].ptr, true)]
    requires Released(h2, h3, {l}, OwedBy(ext, p), {}) && Dying(h3) == {} && l in h3.slots
    ensures Survives(h, ext, l, p)
  {
    if l.Field? {
      assert l.owner in h3.objs && forall k <- h3.slots | k != l :: k in h.slots && h.slots[k] == h3.slots[k];
      LiveIsKept(h3, {l}, OwedBy(ext, p), l.owner);
      hide Released;
      KeptWithMore(h3, h, {l}, OwedBy(ext, p), l.owner);
    }
  }

  lemma LedgerOfObjects(h: Heap, r: Heap)
    requires Ledger(h) && r.objs == h.objs && r.clock == h.clock && r.freed == h.freed
    ensures Ledger(r)
  {
  }

  lemma WroteAfterCascade(h: Heap, h2: Heap, h3: Heap, e: multiset<Addr>, l: Loc, s: Slot)
    requires l in h.slots && h2.slots == h.slots[l := Slot(h.slots[l].ptr, true)]
    requires SameObjects(h, h2)
    requires Shrunk(h2, h3, {}) && Good(h3, {l}, e) && WritersStay(h2, h3, {l}, e) && KeepsSupported(h2, h3, {l}, e)
    ensures l in h3.slots && Wrote(h, Store(h3, l, s), l, s)
  {
    if l !in h3.slots {
      assert l in {l} && Kept(h3, {l}, e, l.owner);
      KeptIsLive(h3, {l}, e, l.owner);
    }
  }

  lemma ReachedIsLive(h: Heap, w: set<Loc>, ext: multiset<Addr>, x: Addr)
    requires Good(h, w, ext) && Reached(h, w, ext, x)
    ensures x in h.objs
  {
    if !Anchored(h, w, ext, x) {
      ReachedBack(h, w, ext, x);
    }
  }

  // ---------------------------------------------------------------- one lemma an operation

  ghost predicate Holdable(h: Heap, p: Option<Addr>) {
    p.Some? ==> p.value in h.objs
  }

  /** A slot outside every object, or a member of an object that something outside leads to. */
  ghost predicate Writable(h: Heap, ext: multiset<Addr>, l: Loc) {
    l in h.slots && (l.Field? ==> Reached(h, {}, ext, l.owner))
  }

  /** Assignment keeps the invariant and frees neither its new target nor the object it writes into,
      whatever cycles the heap has. */
  lemma AssignSafe(h: Heap, ext: multiset<Addr>, l: Loc, p: Option<Addr>)
    requires Inv(h, ext) && l in h.slots && Holdable(h, p) && Survives(h, ext, l, p)
    ensures var r := Assign(h, l, p);
            && Inv(r, ext) && Holdable(r, p) && (l.Field? ==> l.owner in r.objs)
            && l in r.slots && Wrote(h, r, l, r.slots[l]) && r.slots[l].ptr == p
  {
    hide Survives;
    var was := h.slots[l].ptr;
    if was != p {
      var h2 := Prepare(h, l, p);
      WriteSlot(h, h2, DelRefOpt(h2, was), Assign(h, l, p), ext, l, Slot(p, true));
    }
  }

  /** Assignment touches freed memory exactly if the object that contains the slot is kept alive by
      nothing but that slot. */
  lemma AssignFaultIff(h: Heap, ext: multiset<Addr>, l: Loc, p: Option<Addr>)
    requires Inv(h, ext) && l in h.slots && Holdable(h, p)
    ensures Assign(h, l, p).fault <==> !Survives(h, ext, l, p)
  {
    var was := h.slots[l].ptr;
    if was != p {
      hide Survives;
      var h2 := Prepare(h, l, p);
      WriteFaultIff(h, h2, DelRefOpt(h2, was), Assign(h, l, p), ext, l, Slot(p, true));
    } else {
      SamePointerSurvives(h, ext, l);
    }
  }

  lemma SamePointerSurvives(h: Heap, ext: multiset<Addr>, l: Loc)
    requires Inv(h, ext) && l in h.slots
    ensures Survives(h, ext, l, h.slots[l].ptr)
  {
    if l.Field? {
      var h1 := h.(slots := h.slots[l := Slot(h.slots[l].ptr, true)]);
      BeginWrite(h, h1, ext, l);
      LiveIsKept(h1, {l}, OwedBy(ext, h.slots[l].ptr), l.owner);
      KeptWithMore(h1, h, {l}, OwedBy(ext, h.slots[l].ptr), l.owner);
    }
  }

  lemma ResetSafe(h: Heap, ext: multiset<Addr>, l: Loc)
    requires Inv(h, ext) && l in h.slots && Survives(h, ext, l, None)
    ensures var r := Reset(h, l);
            Inv(r, ext) && (l.Field? ==> l.owner in r.objs) && Wrote(h, r, l, NULL_SLOT)
  {
    hide Survives;
    var was := h.slots[l].ptr;
    if was.Some? {
      NothingPrepared(h, ext, l);
      WriteSlot(h, h, DelRefOpt(h, was), Reset(h, l), ext, l, NULL_SLOT);
    } else {
      ResetNull(h, ext, l);
    }
  }

  lemma NothingPrepared(h: Heap, ext: multiset<Addr>, l: Loc)
    requires Inv(h, ext) && l in h.slots && h.slots[l].ptr.Some?
    ensures h.slots[l].fn && Prepare(h, l, None) == h
    ensures Reset(h, l) == Store(DelRefOpt(h, h.slots[l].ptr), l, NULL_SLOT)
  {
    assert h.slots[l := Slot(h.slots[l].ptr, true)] == h.slots;
  }

  /** The same condition for `reset`. */
  lemma ResetFaultIff(h: Heap, ext: multiset<Addr>, l: Loc)
    requires Inv(h, ext) && l in h.slots
    ensures Reset(h, l).fault <==> !Survives(h, ext, l, None)
  {
    var was := h.slots[l].ptr;
    if was.Some? {
      hide Survives;
      NothingPrepared(h, ext, l);
      WriteFaultIff(h, h, DelRefOpt(h, was), Reset(h, l), ext, l, NULL_SLOT);
    } else {
      SamePointerSurvives(h, ext, l);
    }
  }

  lemma HoldersUnwritten(h: Heap, r: Heap, l: Loc, s: Slot, o: Addr)
    requires r.slots == h.slots[l := s] && (l in h.slots ==> h.slots[l].ptr.None?)
    ensures Holders(r, {l}, o) == Holders(h, {}, o)
  {
  }

  /** Placing a slot where no pointer was, its own pointer not yet counted. */
  lemma PlaceSlot(h: Heap, r: Heap, ext: multiset<Addr>, l: Loc, s: Slot)
    requires Good(h, {}, ext) && r == h.(slots := h.slots[l := s]) && (s.ptr.Some? ==> s.fn)
    requires if l in h.slots then h.slots[l].ptr.None? else l.Root?
    ensures Good(r, {l}, ext) && Dying(r) == Dying(h)
  {
    forall o | o in r.objs ensures r.objs[o].count == |Holders(r, {l}, o)| + ext[o] {
      HoldersUnwritten(h, r, l, s, o);
    }
  }

  /** Writing a null pointer over a null pointer, or into a new slot, moves no reference. */
  lemma WriteNull(h: Heap, r: Heap, ext: multiset<Addr>, l: Loc, s: Slot)
    requires Inv(h, ext) && r == h.(slots := h.slots[l := s]) && s.ptr.None?
    requires if l in h.slots then h.slots[l].ptr.None? else l.Root?
    ensures Inv(r, ext)
  {
    hide Good, Ledger, Dying;
    LedgerOfObjects(h, r);
    PlaceSlot(h, r, ext, l, s);
    assert r.slots[l := s] == r.slots;
    EndWrite(r, r, ext, l, s);
  }

  lemma ResetNull(h: Heap, ext: multiset<Addr>, l: Loc)
    requires Inv(h, ext) && l in h.slots && h.slots[l].ptr.None?
    ensures Inv(Reset(h, l), ext) && Wrote(h, Reset(h, l), l, NULL_SLOT)
  {
    var r := Reset(h, l);
    WriteNull(h, r, ext, l, NULL_SLOT);
    if l.Field? {
      assert l.owner in h.objs;
    }
  }

  /** What constructing slot `l` does to everything else: nothing but counts. */
  ghost predicate Made(h: Heap, r: Heap, l: Loc, s: Slot) {
    && r.slots == h.slots[l := s] && r.objs.Keys == h.objs.Keys && r.freed == h.freed && r.clock == h.clock
    && forall o | o in r.objs :: r.objs[o].arity == h.objs[o].arity && r.objs[o].birth == h.objs[o].birth
  }

  lemma PlacedAndCounted(h: Heap, l: Loc, s: Slot)
    requires s.ptr.Some? ==> s.ptr.value in h.objs
    ensures Made(h, AddRefOpt(h.(slots := h.slots[l := s]), s.ptr), l, s)
  {
  }

  lemma ConstructNullSafe(h: Heap, ext: multiset<Addr>, l: Loc)
    requires Inv(h, ext) && l.Root? && l !in h.slots
    ensures Inv(ConstructNull(h, l), ext) && Made(h, ConstructNull(h, l), l, NULL_SLOT)
  {
    WriteNull(h, ConstructNull(h, l), ext, l, NULL_SLOT);
  }

  /** A new slot pointing at an existing object, and the reference it takes. */
  lemma NewSlotGood(h: Heap, r: Heap, ext: multiset<Addr>, l: Loc, s: Slot)
    requires Good(h, {}, ext) && Ledger(h) && l.Root? && l !in h.slots
    requires s.ptr.Some? && s.fn && s.ptr.value in h.objs
    requires s.ptr.value in Dying(h) ==> forall i: nat | i < h.objs[s.ptr.value].arity :: Field(s.ptr.value, i) in h.slots
    requires r == AddRef(h.(slots := h.slots[l := s]), s.ptr.value)
    ensures Good(r, {}, ext) && Ledger(r) && Dying(r) == Dying(h) - {s.ptr.value}
  {
    hide Good, Ledger, Dying;
    var h1 := h.(slots := h.slots[l := s]);
    PlaceSlot(h, h1, ext, l, s);
    AddRefGood(h1, r, {l}, ext, s.ptr.value);
    assert r.slots[l := s] == r.slots;
    EndWrite(r, r, ext, l, s);
    NewSlotLedger(h, r, l, s);
  }

  lemma NewSlotLedger(h: Heap, r: Heap, l: Loc, s: Slot)
    requires Ledger(h) && s.ptr.Some? && s.ptr.value in h.objs
    requires r == AddRef(h.(slots := h.slots[l := s]), s.ptr.value)
    ensures Ledger(r)
  {
    hide Ledger;
    LedgerOfObjects(h, h.(slots := h.slots[l := s]));
    LedgerSetCount(h.(slots := h.slots[l := s]), s.ptr.value, h.objs[s.ptr.value].count + 1);
  }

  lemma ConstructRawSafe(h: Heap, ext: multiset<Addr>, l: Loc, p: Option<Addr>)
    requires Inv(h, ext) && l.Root? && l !in h.slots && Holdable(h, p)
    ensures Inv(ConstructRaw(h, l, p), ext) && Made(h, ConstructRaw(h, l, p), l, Slot(p, p.Some?))
  {
    PlacedAndCounted(h, l, Slot(p, p.Some?));
    hide Made, Good, Ledger;
    var r := ConstructRaw(h, l, p);
    if p.Some? {
      assert p.value !in Dying(h);
      NewSlotGood(h, r, ext, l, Slot(p, true));
    } else {
      WriteNull(h, r, ext, l, Slot(p, false));
    }
  }

  lemma ConstructCopySafe(h: Heap, ext: multiset<Addr>, l: Loc, src: Loc)
    requires Inv(h, ext) && l.Root? && l !in h.slots && src in h.slots
    ensures Inv(ConstructCopy(h, l, src), ext) && Made(h, ConstructCopy(h, l, src), l, h.slots[src])
  {
    var s := h.slots[src];
    if s.ptr.Some? {
      NonNullHasFn(h, {}, ext, src);
    }
    PlacedAndCounted(h, l, s);
    hide Made, Good, Ledger;
    var r := ConstructCopy(h, l, src);
    if s.ptr.Some? {
      assert s.ptr.value !in Dying(h);
      NewSlotGood(h, r, ext, l, s);
    } else {
      WriteNull(h, r, ext, l, s);
    }
  }

  lemma AllocAccounted(h: Heap, r: Heap, a: Addr, arity: nat)
    requires Accounted(h) && a !in h.objs
    requires r.objs == h.objs[a := Obj(0, arity, h.clock)] && r.clock == h.clock + 1 && r.freed == h.freed
    ensures Accounted(r)
  {
    forall b: nat | b < r.clock && b !in r.freed ensures exists q :: q in r.objs && r.objs[q].birth == b {
      if b == h.clock {
        assert r.objs[a].birth == b;
      } else {
        var q :| q in h.objs && h.objs[q].birth == b;
        assert q in r.objs && r.objs[q].birth == b;
      }
    }
  }

  lemma AllocLedger(h: Heap, r: Heap, a: Addr, arity: nat)
    requires Ledger(h) && a !in h.objs
    requires r.objs == h.objs[a := Obj(0, arity, h.clock)] && r.clock == h.clock + 1 && r.freed == h.freed
    ensures Ledger(r)
  {
    AllocAccounted(h, r, a, arity);
    hide Accounted;
  }

  lemma AllocHolders(h: Heap, r: Heap, ext: multiset<Addr>, a: Addr, arity: nat, o: Addr)
    requires Good(h, {}, ext) && a !in h.objs && r == Alloc(h, a, arity)
    ensures Holders(r, {}, o) == Holders(h, {}, o)
    ensures o == a ==> Holders(h, {}, o) == {}
  {
    assert forall i: nat :: Field(a, i) !in h.slots;
    assert forall l | l in h.slots :: h.slots[l].ptr != Some(a);
  }

  lemma AllocShaped(h: Heap, r: Heap, ext: multiset<Addr>, a: Addr, arity: nat)
    requires Good(h, {}, ext) && a !in h.objs && r == Alloc(h, a, arity)
    ensures Shaped(r, {}, ext) && !r.fault
  {
  }

  lemma AllocGood(h: Heap, r: Heap, ext: multiset<Addr>, a: Addr, arity: nat)
    requires Inv(h, ext) && a !in h.objs && r == Alloc(h, a, arity)
    ensures Good(r, {}, ext) && Dying(r) == {a}
  {
    AllocShaped(h, r, ext, a, arity);
    AllocBalanced(h, r, ext, a, arity);
    AllocDying(h, r, ext, a, arity);
  }

  lemma AllocBalanced(h: Heap, r: Heap, ext: multiset<Addr>, a: Addr, arity: nat)
    requires Good(h, {}, ext) && a !in h.objs && r == Alloc(h, a, arity)
    ensures Balanced(r, {}, ext)
  {
    forall o | o in r.objs ensures r.objs[o].count == |Holders(r, {}, o)| + ext[o] {
      AllocHolders(h, r, ext, a, arity, o);
    }
  }

  lemma AllocDying(h: Heap, r: Heap, ext: multiset<Addr>, a: Addr, arity: nat)
    requires Dying(h) == {} && a !in h.objs && r.objs == h.objs[a := Obj(0, arity, h.clock)]
    ensures Dying(r) == {a}
  {
    forall o | o in r.objs && o != a ensures o !in Dying(r) {
      assert o !in Dying(h);
    }
  }

  /** One new object with null members, held by `l`; everything else as it was. */
  ghost predicate Born(h: Heap, r: Heap, l: Loc, a: Addr, arity: nat) {
    && r.objs.Keys == h.objs.Keys + {a} && r.objs[a].birth == h.clock && r.objs[a].arity == arity
    && r.freed == h.freed && r.clock == h.clock + 1
    && l in r.slots && r.slots[l].ptr == Some(a)
    && (forall k | k in h.slots && k != l :: k in r.slots && r.slots[k] == h.slots[k])
    && forall i: nat | i < arity && Field(a, i) != l :: Field(a, i) in r.slots && r.slots[Field(a, i)] == NULL_SLOT
  }

  lemma CreateBorn(h: Heap, l: Loc, a: Addr, arity: nat)
    requires forall i: nat :: Field(a, i) !in h.slots
    ensures Born(h, Create(h, l, a, arity), l, a, arity)
  {
  }

  lemma NoMembersYet(h: Heap, ext: multiset<Addr>, a: Addr)
    requires Good(h, {}, ext) && a !in h.objs
    ensures forall i: nat :: Field(a, i) !in h.slots
  {
  }

  lemma CreateSafe(h: Heap, ext: multiset<Addr>, l: Loc, a: Addr, arity: nat)
    requires Inv(h, ext) && l.Root? && l !in h.slots && a !in h.objs
    ensures Inv(Create(h, l, a, arity), ext) && Born(h, Create(h, l, a, arity), l, a, arity)
  {
    NoMembersYet(h, ext, a);
    CreateBorn(h, l, a, arity);
    hide Born;
    var h1 := Alloc(h, a, arity);
    AllocGood(h, h1, ext, a, arity);
    AllocLedger(h, h1, a, arity);
    hide Good, Ledger;
    NewSlotGood(h1, Create(h, l, a, arity), ext, l, Slot(Some(a), true));
  }

  lemma NonNullHasFn(h: Heap, w: set<Loc>, ext: multiset<Addr>, l: Loc)
    requires Good(h, w, ext) && l in h.slots && h.slots[l].ptr.Some?
    ensures h.slots[l].fn && (l !in w ==> h.slots[l].ptr.value in h.objs)
  {
  }

  /** `~gcRefPtr` of a slot outside every object. */
  lemma {:induction false} DestroySafe(h: Heap, ext: multiset<Addr>, l: Loc)
    requires Inv(h, ext) && l.Root? && l in h.slots
    ensures var r := DestroySlot(h, l); Inv(r, ext) && Shrunk(h, r, {l}) && l !in r.slots
  {
    hide Good, Ledger;
    var s := h.slots[l];
    var h1 := Drop(h, l);
    DropGood(h, h1, {}, ext, l);
    LedgerOfObjects(h, h1);
    assert Dying(h1) == Dying(h);
    if s.ptr.Some? {
      NonNullHasFn(h, {}, ext, l);
      CascadeDelRef(h1, s.ptr.value, {}, ext);
      LedgerDelRef(h1, s.ptr.value);
    }
  }

  /** A bare `addRef` call and the bare `delRef` call that undoes it. */
  lemma TakeRawSafe(h: Heap, ext: multiset<Addr>, o: Addr)
    requires Inv(h, ext) && o in h.objs
    ensures Inv(AddRef(h, o), ext + multiset{o})
  {
    AddRefOptGood(h, AddRef(h, o), {}, ext, Some(o));
  }

  lemma {:induction false} DropRawSafe(h: Heap, ext: multiset<Addr>, o: Addr)
    requires Inv(h, ext + multiset{o})
    ensures Inv(DelRef(h, o), ext) && Shrunk(h, DelRef(h, o), {})
    ensures KeepsReached(h, DelRef(h, o), {}, ext) && KeepsSupported(h, DelRef(h, o), {}, ext)
  {
    hide Good, Ledger;
    CascadeDelRef(h, o, {}, ext);
    LedgerDelRef(h, o);
  }
}
