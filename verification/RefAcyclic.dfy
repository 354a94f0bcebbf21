/** Acyclic heaps: after each operation exactly the objects that something outside leads to are
    alive, which operations close a cycle, and whole runs. */
module RefAcyclic {
  import opened Wrappers
  import opened RefHeap
  import opened RefInvariant
  import opened RefSafety
  import opened RefGraph
  import opened RefRuns

  /** Live is reached. */
  ghost predicate Exact(h: Heap, ext: multiset<Addr>) {
    forall o :: o in h.objs <==> Reached(h, {}, ext, o)
  }

  // ---------------------------------------------------------------- writes

  /** The object that a slot belongs to is still led to after the slot has been written. */
  lemma OwnerStaysReached(h: Heap, r: Heap, ext: multiset<Addr>, l: Loc, s: Slot)
    requires Inv(r, ext) && Wrote(h, r, l, s) && l.Field? && Reached(h, {}, ext, l.owner)
    ensures Reached(r, {}, ext, l.owner)
  {
    var p :| PathTo(h, {}, ext, p, l.owner);
    var q := FirstVisit(h, ext, p, l.owner);
    if q[0] !in ext {
      var n: nat :| Root(n) in h.slots && h.slots[Root(n)].ptr == Some(q[0]);
      assert Root(n) in r.slots && r.slots[Root(n)].ptr == Some(q[0]);
    }
    assert Anchored(r, {}, ext, q[0]);
    ReachedAnchor(r, {}, ext, q[0]);
    ReachedIsLive(r, {}, ext, q[0]);
    PathSurvives(h, r, ext, l, s, q, |q| - 1);
    assert PathTo(r, {}, ext, q, l.owner);
  }

  /** A cycle that a write closes goes through the object written to. */
  lemma NewCycleThroughOwner(h: Heap, r: Heap, l: Loc, s: Slot, c: seq<Addr>) returns (k: nat)
    requires Acyclic(h) && Wrote(h, r, l, s) && IsCycle(r, c)
    ensures k < |c| && l.Field? && c[k] == l.owner
  {
    assert !IsCycle(h, c);
    var j :| 0 <= j < |c| - 1 && !Edge(h, {}, c[j], c[j + 1]);
    assert Edge(r, {}, c[j], c[j + 1]);
    WroteEdges(h, r, l, s, c[j], c[j + 1]);
    k := j;
  }

  /** A write in an acyclic heap leaves nothing behind, even if it closes a cycle. */
  lemma WriteExact(h: Heap, r: Heap, ext: multiset<Addr>, l: Loc, s: Slot)
    requires Inv(h, ext) && Acyclic(h) && l in h.slots && Inv(r, ext) && Wrote(h, r, l, s)
    ensures Exact(r, ext)
  {
    AcyclicSurvives(h, ext, l, None);
    if l.Field? {
      OwnerStaysReached(h, r, ext, l, s);
    }
    hide Acyclic, Wrote, Writable, IsCycle, Inv;
    forall c ensures !(IsCycle(r, c) && AllGarbage(r, ext, c)) {
      if IsCycle(r, c) {
        var k := NewCycleThroughOwner(h, r, l, s, c);
      }
    }
    NoLeakExact(r, ext);
  }

  lemma NoLeakExact(r: Heap, ext: multiset<Addr>)
    requires Inv(r, ext) && forall c :: !(IsCycle(r, c) && AllGarbage(r, ext, c))
    ensures Exact(r, ext)
  {
    LeakIffCycle(r, ext);
    forall x | Reached(r, {}, ext, x) ensures x in r.objs {
      ReachedIsLive(r, {}, ext, x);
    }
  }

  // ---------------------------------------------------------------- the other operations

  lemma SameEdgesExact(h: Heap, r: Heap, ext: multiset<Addr>)
    requires Acyclic(h) && Inv(r, ext) && forall x, y | Edge(r, {}, x, y) :: Edge(h, {}, x, y)
    ensures Acyclic(r) && Exact(r, ext)
  {
    FewerEdgesAcyclic(h, r);
    LiveIsReached(r, ext);
  }

  lemma RootAddsNoEdge(h: Heap, r: Heap, l: Loc, s: Slot, x: Addr, y: Addr)
    requires l.Root? && r.slots == h.slots[l := s] && Edge(r, {}, x, y)
    ensures Edge(h, {}, x, y)
  {
    var i: nat :| Field(x, i) in r.slots && r.slots[Field(x, i)].ptr == Some(y);
    assert Field(x, i) in h.slots;
  }

  lemma CreateAddsNoEdge(h: Heap, l: Loc, a: Addr, arity: nat, x: Addr, y: Addr)
    requires l.Root? && Edge(Create(h, l, a, arity), {}, x, y)
    ensures Edge(h, {}, x, y)
  {
    var r := Create(h, l, a, arity);
    var i: nat :| Field(x, i) in r.slots && r.slots[Field(x, i)].ptr == Some(y);
    assert Field(x, i) in h.slots;
  }

  /** Operations that add no pointer between objects. */
  ghost predicate Plain(op: Op) {
    op.MakeNull? || op.MakeRaw? || op.MakeNew? || op.MakeCopy? || op.Take?
  }

  lemma PlainEdges(h: Heap, ext: multiset<Addr>, op: Op, x: Addr, y: Addr)
    requires Legal(h, ext, op) && Plain(op) && Edge(Apply(h, op), {}, x, y)
    ensures Edge(h, {}, x, y)
  {
    var r := Apply(h, op);
    match op
    case MakeNull(l) => RootAddsNoEdge(h, r, l, NULL_SLOT, x, y);
    case MakeRaw(l, p) => RootAddsNoEdge(h, r, l, Slot(p, p.Some?), x, y);
    case MakeNew(l, a, arity) => CreateAddsNoEdge(h, l, a, arity, x, y);
    case MakeCopy(l, src) => RootAddsNoEdge(h, r, l, h.slots[src], x, y);
    case Take(_) => assert r.slots == h.slots;
  }

  lemma PlainExact(h: Heap, ext: multiset<Addr>, op: Op)
    requires Inv(h, ext) && Acyclic(h) && Legal(h, ext, op) && Plain(op)
    ensures Acyclic(Apply(h, op)) && Exact(Apply(h, op), ExtAfter(ext, op))
  {
    hide Inv, Acyclic, Legal, Plain, Apply, Edge, Exact;
    StepSafe(h, ext, op);
    forall x, y | Edge(Apply(h, op), {}, x, y) ensures Edge(h, {}, x, y) {
      PlainEdges(h, ext, op, x, y);
    }
    SameEdgesExact(h, Apply(h, op), ExtAfter(ext, op));
  }

  lemma ReleaseExact(h: Heap, ext: multiset<Addr>, op: Op)
    requires Inv(h, ext) && Acyclic(h) && Legal(h, ext, op) && (op.End? || op.Give?)
    ensures Acyclic(Apply(h, op)) && Exact(Apply(h, op), ExtAfter(ext, op))
  {
    var r := Apply(h, op);
    StepSafe(h, ext, op);
    if op.End? {
      DestroySafe(h, ext, op.l);
      ReleaseKeepsAcyclic(h, r, {op.l});
    } else {
      assert ext - multiset{op.o} + multiset{op.o} == ext;
      DropRawSafe(h, ext - multiset{op.o}, op.o);
      ReleaseKeepsAcyclic(h, r, {});
    }
    LiveIsReached(r, ExtAfter(ext, op));
  }

  /** In an acyclic heap every write to an existing slot is legal. */
  lemma AcyclicIsLegal(h: Heap, ext: multiset<Addr>, op: Op)
    requires Inv(h, ext) && Acyclic(h) && LegalPlain(h, ext, op)
    ensures Legal(h, ext, op) <==> (op.Exchange? ==> SwapOk(h, op.l, op.m))
  {
    if op.SetRaw? {
      AcyclicSurvives(h, ext, op.l, op.p);
    } else if op.SetFrom? {
      AcyclicSurvives(h, ext, op.l, h.slots[op.src].ptr);
    } else if op.Clear? {
      AcyclicSurvives(h, ext, op.l, None);
    }
  }

  /** In any acyclic heap each construction, copy, assignment, reset and destruction leaves exactly
      the objects alive that something outside leads to. */
  lemma StepExact(h: Heap, ext: multiset<Addr>, op: Op)
    requires Inv(h, ext) && Acyclic(h) && LegalPlain(h, ext, op) && !op.Exchange?
    ensures Inv(Apply(h, op), ExtAfter(ext, op)) && Exact(Apply(h, op), ExtAfter(ext, op))
  {
    hide Inv, Acyclic, Exact, Apply;
    AcyclicIsLegal(h, ext, op);
    StepSafe(h, ext, op);
    if Plain(op) {
      PlainExact(h, ext, op);
    } else if op.End? || op.Give? {
      ReleaseExact(h, ext, op);
    } else {
      hide Legal;
      WritingExact(h, ext, op);
    }
  }

  lemma WritingExact(h: Heap, ext: multiset<Addr>, op: Op)
    requires Inv(h, ext) && Acyclic(h) && Legal(h, ext, op) && (op.SetRaw? || op.SetFrom? || op.Clear?)
    ensures Exact(Apply(h, op), ext)
  {
    var r := Apply(h, op);
    match op
    case SetRaw(l, p) =>
      AssignSafe(h, ext, l, p);
      hide Inv, Wrote, Assign;
      WriteExact(h, r, ext, l, r.slots[l]);
    case SetFrom(l, src) =>
      SlotHoldable(h, ext, src);
      AssignSafe(h, ext, l, h.slots[src].ptr);
      hide Inv, Wrote, Assign;
      WriteExact(h, r, ext, l, r.slots[l]);
    case Clear(l) =>
      ResetSafe(h, ext, l);
      hide Inv, Wrote, Reset;
      WriteExact(h, r, ext, l, NULL_SLOT);
  }

  // ---------------------------------------------------------------- swap

  /** After the swap one of the two slots is a member of `x` and points at `y`. */
  ghost predicate ByNewPointer(h: Heap, l: Loc, m: Loc, x: Addr, y: Addr)
    requires l in h.slots && m in h.slots
  {
    (l.Field? && l.owner == x && h.slots[m].ptr == Some(y)) || (m.Field? && m.owner == x && h.slots[l].ptr == Some(y))
  }

  lemma SwapEdges(h: Heap, r: Heap, l: Loc, m: Loc, x: Addr, y: Addr)
    requires l in h.slots && m in h.slots && r == Swap(h, l, m)
    ensures Edge(h, {l, m}, x, y) ==> Edge(r, {}, x, y) && Edge(h, {}, x, y)
    ensures Edge(r, {}, x, y) ==> Edge(h, {l, m}, x, y) || ByNewPointer(h, l, m, x, y)
  {
    if Edge(h, {l, m}, x, y) {
      var i: nat :| Field(x, i) in h.slots && Field(x, i) !in {l, m} && h.slots[Field(x, i)].ptr == Some(y);
      assert Field(x, i) in r.slots && r.slots[Field(x, i)].ptr == Some(y);
    }
    if Edge(r, {}, x, y) {
      var i: nat :| Field(x, i) in r.slots && r.slots[Field(x, i)].ptr == Some(y);
      if Field(x, i) != l && Field(x, i) != m {
        assert Field(x, i) in h.slots && Field(x, i) !in {l, m} && h.slots[Field(x, i)].ptr == Some(y);
      }
    }
  }

  lemma SlotEdge(h: Heap, l: Loc, y: Addr)
    requires l in h.slots && l.Field? && h.slots[l].ptr == Some(y)
    ensures Edge(h, {}, l.owner, y)
  {
    assert Field(l.owner, l.index) in h.slots && Field(l.owner, l.index) !in {};
  }

  lemma NoWayBack(h: Heap, x: Addr, y: Addr)
    requires Acyclic(h) && Edge(h, {}, x, y)
    ensures !Leads(h, y, x)
  {
    if Leads(h, y, x) {
      var p :| IsPath(h, {}, p) && p[0] == y && p[|p| - 1] == x;
      PathFront(h, x, p);
      assert IsCycle(h, [x] + p);
    }
  }

  lemma LeadsFrom(h: Heap, x: Addr, y: Addr, z: Addr)
    requires Edge(h, {}, x, y) && Leads(h, y, z)
    ensures Leads(h, x, z)
  {
    var p :| IsPath(h, {}, p) && p[0] == y && p[|p| - 1] == z;
    PathFront(h, x, p);
    assert ([x] + p)[|p|] == z;
  }

  /** The target of slot `from` leads to the object that slot `to` belongs to. */
  ghost predicate LeadsBack(h: Heap, to: Loc, from: Loc)
    requires from in h.slots
  {
    to.Field? && h.slots[from].ptr.Some? && Leads(h, h.slots[from].ptr.value, to.owner)
  }

  ghost predicate LedToByEither(h: Heap, l: Loc, m: Loc, x: Addr)
    requires l in h.slots && m in h.slots
  {
    (h.slots[l].ptr.Some? && Leads(h, h.slots[l].ptr.value, x)) || (h.slots[m].ptr.Some? && Leads(h, h.slots[m].ptr.value, x))
  }

  /** Along a path of the result, what follows a swapped target is led to by one of the two. */
  lemma {:induction false} SwapLedOn(h: Heap, r: Heap, l: Loc, m: Loc, c: seq<Addr>, j: nat, k: nat)
    requires l in h.slots && m in h.slots && r == Swap(h, l, m) && IsPath(r, {}, c) && j <= k < |c|
    requires LedToByEither(h, l, m, c[j])
    ensures LedToByEither(h, l, m, c[k])
    decreases k
  {
    if j < k {
      SwapLedOn(h, r, l, m, c, j, k - 1);
      assert Edge(r, {}, c[k - 1], c[k]);
      SwapEdges(h, r, l, m, c[k - 1], c[k]);
      hide Edge, Swap, Leads;
      LeadsSelf(h, c[k]);
      if Edge(h, {}, c[k - 1], c[k]) {
        LedOneOn(h, l, m, c[k - 1], c[k]);
      }
    }
  }

  lemma LedOneOn(h: Heap, l: Loc, m: Loc, x: Addr, y: Addr)
    requires l in h.slots && m in h.slots && LedToByEither(h, l, m, x) && Edge(h, {}, x, y)
    ensures LedToByEither(h, l, m, y)
  {
    hide Leads, Edge;
    if h.slots[l].ptr.Some? && Leads(h, h.slots[l].ptr.value, x) {
      LeadsEdge(h, h.slots[l].ptr.value, x, y);
    } else {
      LeadsEdge(h, h.slots[m].ptr.value, x, y);
    }
  }

  /** A cycle that a swap closes goes through an object one of the slots belongs to, by its new pointer. */
  lemma SwapCycleEdge(h: Heap, r: Heap, l: Loc, m: Loc, c: seq<Addr>) returns (k: nat)
    requires Acyclic(h) && l in h.slots && m in h.slots && r == Swap(h, l, m) && IsCycle(r, c)
    ensures k < |c| - 1 && ByNewPointer(h, l, m, c[k], c[k + 1])
  {
    assert !IsCycle(h, c);
    k :| 0 <= k < |c| - 1 && !Edge(h, {}, c[k], c[k + 1]);
    assert Edge(r, {}, c[k], c[k + 1]);
    SwapEdges(h, r, l, m, c[k], c[k + 1]);
  }

  /** Around such a cycle one of the two targets leads back to the owner. */
  lemma SwapCycleLeads(h: Heap, r: Heap, l: Loc, m: Loc, c: seq<Addr>)
    requires Acyclic(h) && l in h.slots && m in h.slots && r == Swap(h, l, m) && IsCycle(r, c)
    ensures LeadsBack(h, l, m) || LeadsBack(h, m, l)
  {
    var k := SwapCycleEdge(h, r, l, m, c);
    LeadsSelf(h, c[k + 1]);
    SwapLedOn(h, r, l, m, c, k + 1, |c| - 1);
    SwapLedOn(h, r, l, m, c, 0, k);
    hide Leads, Acyclic, Swap;
    OnlyCrosswise(h, l, m, c[k]);
    OnlyCrosswise(h, m, l, c[k]);
  }

  /** What a member's pointer leads to is not the object of that member. */
  lemma OnlyCrosswise(h: Heap, l: Loc, m: Loc, x: Addr)
    requires Acyclic(h) && l in h.slots && m in h.slots && LedToByEither(h, l, m, x)
    ensures l.Field? && l.owner == x ==> LeadsBack(h, l, m)
  {
    if l.Field? && l.owner == x && h.slots[l].ptr.Some? {
      SlotEdge(h, l, h.slots[l].ptr.value);
      NoWayBack(h, l.owner, h.slots[l].ptr.value);
    }
  }

  /** If the other target leads back to the owner of `l`, the swap closes a cycle. */
  lemma SwapCloses(h: Heap, r: Heap, l: Loc, m: Loc)
    requires Acyclic(h) && l in h.slots && m in h.slots && LeadsBack(h, l, m)
    requires r == Swap(h, l, m) || r == Swap(h, m, l)
    ensures !Acyclic(r)
  {
    var b := h.slots[m].ptr.value;
    var p :| IsPath(h, {}, p) && p[0] == b && p[|p| - 1] == l.owner;
    var q := LeadsDirectly(h, p);
    var c := [l.owner] + q;
    assert r.slots[l].ptr == Some(b);
    SlotEdge(r, l, b);
    forall k | 0 <= k < |c| - 1 ensures Edge(r, {}, c[k], c[k + 1]) {
      if k > 0 {
        PathStepStays(h, r, l, m, q, k - 1);
      }
    }
    NotAcyclic(r, c);
  }

  lemma PathStepStays(h: Heap, r: Heap, l: Loc, m: Loc, q: seq<Addr>, k: nat)
    requires Acyclic(h) && l in h.slots && m in h.slots && (r == Swap(h, l, m) || r == Swap(h, m, l))
    requires l.Field? && IsPath(h, {}, q) && h.slots[m].ptr == Some(q[0]) && k < |q| - 1 && q[k] != l.owner
    ensures Edge(r, {}, q[k], q[k + 1])
  {
    assert Edge(h, {}, q[k], q[k + 1]);
    var i: nat :| Field(q[k], i) in h.slots && h.slots[Field(q[k], i)].ptr == Some(q[k + 1]);
    if Field(q[k], i) == m {
      assert IsCycle(h, q[..k + 2]);
    }
    assert Field(q[k], i) in r.slots && r.slots[Field(q[k], i)].ptr == Some(q[k + 1]);
  }

  /** A swap in an acyclic heap closes a cycle exactly when the target of one slot leads to the object
      the other belongs to. */
  lemma SwapAcyclicIff(h: Heap, l: Loc, m: Loc)
    requires Acyclic(h) && l in h.slots && m in h.slots
    ensures Acyclic(Swap(h, l, m)) <==> !LeadsBack(h, l, m) && !LeadsBack(h, m, l)
  {
    var r := Swap(h, l, m);
    if LeadsBack(h, l, m) {
      SwapCloses(h, r, l, m);
    } else if LeadsBack(h, m, l) {
      assert r == Swap(h, m, l) by { SwapSymmetric(h, l, m); }
      SwapCloses(h, r, m, l);
    } else {
      forall c ensures !IsCycle(r, c) {
        if IsCycle(r, c) {
          SwapCycleLeads(h, r, l, m, c);
        }
      }
    }
  }

  lemma SwapSymmetric(h: Heap, l: Loc, m: Loc)
    ensures Swap(h, l, m) == Swap(h, m, l)
  {
    if l in h.slots && m in h.slots {
      assert Swap(h, l, m).slots == Swap(h, m, l).slots;
    }
  }

  // ---------------------------------------------------------------- what a swap leaves alive

  /** The object that `l` belongs to is led to without the two slots. */
  ghost predicate LedWithout(h: Heap, ext: multiset<Addr>, l: Loc, m: Loc) {
    l.Field? ==> Reached(h, {l, m}, ext, l.owner)
  }

  lemma LedWithoutStays(h: Heap, r: Heap, ext: multiset<Addr>, l: Loc, m: Loc, x: Addr)
    requires l in h.slots && m in h.slots && r == Swap(h, l, m) && Reached(h, {l, m}, ext, x)
    ensures Reached(r, {}, ext, x)
  {
    var p :| PathTo(h, {l, m}, ext, p, x);
    forall k | 0 <= k < |p| - 1 ensures Edge(r, {}, p[k], p[k + 1]) {
      assert Edge(h, {l, m}, p[k], p[k + 1]);
      SwapEdges(h, r, l, m, p[k], p[k + 1]);
    }
    if p[0] !in ext {
      var n: nat :| Root(n) in h.slots && Root(n) !in {l, m} && h.slots[Root(n)].ptr == Some(p[0]);
      assert Root(n) in r.slots && r.slots[Root(n)].ptr == Some(p[0]);
    }
    assert PathTo(r, {}, ext, p, x);
  }

  /** A path of the result that meets the owner of `l` only at its end uses neither new pointer. */
  lemma {:induction false} SwapPathOld(h: Heap, r: Heap, l: Loc, m: Loc, q: seq<Addr>, k: nat)
    requires Acyclic(h) && l in h.slots && m in h.slots && r == Swap(h, l, m) && l.Field?
    requires IsPath(r, {}, q) && q[|q| - 1] == l.owner && k < |q| && forall j | 0 <= j < |q| - 1 :: q[j] != l.owner
    ensures Leads(h, q[k], l.owner) && forall j | k <= j < |q| - 1 :: Edge(h, {l, m}, q[j], q[j + 1])
    decreases |q| - k
  {
    hide Acyclic, Leads, Swap, Edge;
    if k == |q| - 1 {
      LeadsSelf(h, l.owner);
    } else {
      SwapPathOld(h, r, l, m, q, k + 1);
      assert Edge(r, {}, q[k], q[k + 1]);
      SwapEdges(h, r, l, m, q[k], q[k + 1]);
      NotTheOldTarget(h, l, q[k + 1]);
      LeadsFrom(h, q[k], q[k + 1], l.owner);
    }
  }

  lemma NotTheOldTarget(h: Heap, l: Loc, x: Addr)
    requires Acyclic(h) && l in h.slots && l.Field? && Leads(h, x, l.owner)
    ensures h.slots[l].ptr != Some(x)
  {
    if h.slots[l].ptr == Some(x) {
      SlotEdge(h, l, x);
      NoWayBack(h, l.owner, x);
    }
  }

  lemma OwnerWasLed(h: Heap, r: Heap, ext: multiset<Addr>, l: Loc, m: Loc)
    requires Acyclic(h) && l in h.slots && m in h.slots && r == Swap(h, l, m) && l.Field?
    requires Reached(r, {}, ext, l.owner)
    ensures Reached(h, {l, m}, ext, l.owner)
  {
    var p :| PathTo(r, {}, ext, p, l.owner);
    var q := FirstVisit(r, ext, p, l.owner);
    SwapPathOld(h, r, l, m, q, 0);
    NotTheOldTarget(h, l, q[0]);
    if q[0] !in ext {
      var n: nat :| Root(n) in r.slots && r.slots[Root(n)].ptr == Some(q[0]);
      assert Root(n) !in {l, m} && h.slots[Root(n)].ptr == Some(q[0]);
    }
    assert PathTo(h, {l, m}, ext, q, l.owner);
  }

  /** A swap can leave a cycle of members behind. It leaves exactly the reached objects alive if and
      only if each slot that is a member belongs to an object led to without the two slots. */
  lemma SwapExactIff(h: Heap, ext: multiset<Addr>, l: Loc, m: Loc)
    requires Inv(h, ext) && Acyclic(h) && l in h.slots && m in h.slots && SwapOk(h, l, m)
    ensures Exact(Swap(h, l, m), ext) <==> LedWithout(h, ext, l, m) && LedWithout(h, ext, m, l)
  {
    var r := Swap(h, l, m);
    SwapSafeIff(h, ext, l, m);
    SwapSymmetric(h, l, m);
    assert {l, m} == {m, l};
    if LedWithout(h, ext, l, m) && LedWithout(h, ext, m, l) {
      LedMeansExact(h, r, ext, l, m);
    }
    if Exact(r, ext) {
      OwnersLive(h, r, ext, l, m);
      if l.Field? { OwnerWasLed(h, r, ext, l, m); }
      if m.Field? { OwnerWasLed(h, r, ext, m, l); }
    }
  }

  lemma OwnersLive(h: Heap, r: Heap, ext: multiset<Addr>, l: Loc, m: Loc)
    requires Inv(h, ext) && l in h.slots && m in h.slots && r == Swap(h, l, m)
    ensures (l.Field? ==> l.owner in r.objs) && (m.Field? ==> m.owner in r.objs)
  {
  }

  lemma LedMeansExact(h: Heap, r: Heap, ext: multiset<Addr>, l: Loc, m: Loc)
    requires Acyclic(h) && l in h.slots && m in h.slots && r == Swap(h, l, m) && Inv(r, ext)
    requires LedWithout(h, ext, l, m) && LedWithout(h, ext, m, l)
    ensures Exact(r, ext)
  {
    assert {l, m} == {m, l};
    if l.Field? { LedWithoutStays(h, r, ext, l, m, l.owner); }
    if m.Field? { LedWithoutStays(h, r, ext, l, m, m.owner); }
    hide Acyclic, Inv, Reached, Swap, IsCycle;
    forall c ensures !(IsCycle(r, c) && AllGarbage(r, ext, c)) {
      if IsCycle(r, c) {
        var k := SwapCycleEdge(h, r, l, m, c);
      }
    }
    NoLeakExact(r, ext);
  }

  // ---------------------------------------------------------------- runs

  /** The operation closes no cycle. */
  ghost predicate ClosesNone(h: Heap, op: Op) {
    match op
    case SetRaw(l, p) => !(l.Field? && p.Some? && Leads(h, p.value, l.owner))
    case SetFrom(l, src) => src in h.slots && !LeadsBack(h, l, src)
    case Exchange(l, m) => l in h.slots && m in h.slots && !LeadsBack(h, l, m) && !LeadsBack(h, m, l)
    case _ => true
  }

  /** Exactly the operations that close no cycle keep an acyclic heap acyclic. */
  lemma StepAcyclicIff(h: Heap, ext: multiset<Addr>, op: Op)
    requires Inv(h, ext) && Acyclic(h) && Legal(h, ext, op)
    ensures Acyclic(Apply(h, op)) <==> ClosesNone(h, op)
  {
    if Plain(op) {
      PlainExact(h, ext, op);
    } else if op.End? || op.Give? {
      ReleaseExact(h, ext, op);
    } else {
      match op
      case SetRaw(l, p) => AssignAcyclicIff(h, ext, l, p);
      case SetFrom(l, src) =>
        SlotHoldable(h, ext, src);
        AssignAcyclicIff(h, ext, l, h.slots[src].ptr);
      case Clear(l) =>
        ResetSafe(h, ext, l);
        hide Reset;
        WriteKeepsAcyclic(h, Apply(h, op), l, NULL_SLOT);
      case Exchange(l, m) => SwapAcyclicIff(h, l, m);
    }
  }

  /** The operations before the last close no cycle; the last one may, but if it is a swap the owners
      are led to without it. */
  ghost predicate AcyclicRun(h: Heap, ext: multiset<Addr>, ops: seq<Op>)
    decreases |ops|
  {
    ops == [] ||
    (LegalPlain(h, ext, ops[0]) &&
     (ops[0].Exchange? ==> SwapOk(h, ops[0].l, ops[0].m)) &&
     (if |ops| > 1 then ClosesNone(h, ops[0])
      else ops[0].Exchange? ==> LedWithout(h, ext, ops[0].l, ops[0].m) && LedWithout(h, ext, ops[0].m, ops[0].l)) &&
     AcyclicRun(Apply(h, ops[0]), ExtAfter(ext, ops[0]), ops[1..]))
  }

  /** A run from an acyclic heap whose operations, short of the last, close no cycle is safe, and at its
      end the live objects are exactly those that a slot outside every object, or a bare reference,
      leads to. */
  lemma {:induction false} AcyclicRunExact(h: Heap, ext: multiset<Addr>, ops: seq<Op>)
    requires Inv(h, ext) && Acyclic(h) && AcyclicRun(h, ext, ops)
    ensures Inv(Run(h, ops), ExtRun(ext, ops)) && Exact(Run(h, ops), ExtRun(ext, ops))
    decreases |ops|
  {
    hide Inv, Acyclic, Exact, Apply, ClosesNone, LedWithout, SwapOk, Legal;
    if ops == [] {
      LiveExact(h, ext);
    } else {
      var op := ops[0];
      AcyclicIsLegal(h, ext, op);
      StepSafe(h, ext, op);
      if |ops| > 1 {
        StepAcyclicIff(h, ext, op);
        AcyclicRunExact(Apply(h, op), ExtAfter(ext, op), ops[1..]);
      } else {
        LastExact(h, ext, op);
        assert ops[1..] == [];
      }
    }
  }

  lemma LiveExact(h: Heap, ext: multiset<Addr>)
    requires Inv(h, ext) && Acyclic(h)
    ensures Exact(h, ext)
  {
    LiveIsReached(h, ext);
  }

  lemma LastExact(h: Heap, ext: multiset<Addr>, op: Op)
    requires Inv(h, ext) && Acyclic(h) && LegalPlain(h, ext, op) && (op.Exchange? ==> SwapOk(h, op.l, op.m))
    requires op.Exchange? ==> LedWithout(h, ext, op.l, op.m) && LedWithout(h, ext, op.m, op.l)
    ensures Exact(Apply(h, op), ExtAfter(ext, op))
  {
    if op.Exchange? {
      SwapExactIff(h, ext, op.l, op.m);
    } else {
      StepExact(h, ext, op);
    }
  }

  lemma {:induction false} DistinctCount(s: seq<nat>, b: nat)
    requires forall i, j | 0 <= i < j < |s| :: s[i] != s[j]
    ensures multiset(s)[b] == if b in s then 1 else 0
  {
    if s != [] {
      var t := s[..|s| - 1];
      assert s == t + [s[|s| - 1]];
      DistinctCount(t, b);
    }
  }

  /** Once nothing outside points into it, a heap without leaks is empty and every object ever allocated
      has been freed exactly once. */
  lemma AllFreedOnce(h: Heap)
    requires Inv(h, multiset{}) && Exact(h, multiset{})
    requires forall l | l in h.slots && l.Root? :: h.slots[l].ptr.None?
    ensures h.objs == map[] && forall b: nat :: multiset(h.freed)[b] == if b < h.clock then 1 else 0
  {
    assert forall x :: !Anchored(h, {}, multiset{}, x);
    assert forall o :: !Reached(h, {}, multiset{}, o);
    forall b: nat ensures multiset(h.freed)[b] == if b < h.clock then 1 else 0 {
      DistinctCount(h.freed, b);
      assert forall o: Addr :: o !in h.objs;
    }
  }

  /** Such a run that ends with nothing pointing in from outside has freed all it ever made, once. */
  lemma {:induction false} AcyclicRunFreesAll(ops: seq<Op>)
    requires AcyclicRun(EMPTY, multiset{}, ops) && ExtRun(multiset{}, ops) == multiset{}
    requires var r := Run(EMPTY, ops); forall l | l in r.slots && l.Root? :: r.slots[l].ptr.None?
    ensures var r := Run(EMPTY, ops);
            r.objs == map[] && forall b: nat :: multiset(r.freed)[b] == if b < r.clock then 1 else 0
  {
    EmptyInv();
    AcyclicRunExact(EMPTY, multiset{}, ops);
    AllFreedOnce(Run(EMPTY, ops));
  }
}
