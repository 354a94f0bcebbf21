/** What the counts mean, and what one cascade of releases does to a heap. Cycles are allowed:
    nothing here assumes the objects form an acyclic graph. */
module RefInvariant {
  import opened Wrappers
  import opened RefHeap

  // The parameter `w` of the predicates below is the set of slots being overwritten: their old
  // pointers no longer count. `ext` holds the references that no slot accounts for.

  /** The slots whose pointer is `o`. */
  ghost function Holders(h: Heap, w: set<Loc>, o: Addr): set<Loc> {
    set l | l in h.slots && l !in w && h.slots[l].ptr == Some(o)
  }

  ghost predicate Balanced(h: Heap, w: set<Loc>, ext: multiset<Addr>) {
    forall o | o in h.objs :: h.objs[o].count == |Holders(h, w, o)| + ext[o]
  }

  ghost predicate Shaped(h: Heap, w: set<Loc>, ext: multiset<Addr>) {
    && (forall l | l in h.slots && l !in w && h.slots[l].ptr.Some? :: h.slots[l].ptr.value in h.objs)
    && (forall l | l in h.slots && h.slots[l].ptr.Some? :: h.slots[l].fn)
    && (forall l | l in h.slots && l.Field? :: l.owner in h.objs && l.index < h.objs[l.owner].arity)
    && (forall o, i: nat | o in h.objs && h.objs[o].count != 0 && i < h.objs[o].arity :: Field(o, i) in h.slots)
    && (forall o | o in ext :: o in h.objs)
  }

  ghost predicate Good(h: Heap, w: set<Loc>, ext: multiset<Addr>) {
    !h.fault && Balanced(h, w, ext) && Shaped(h, w, ext)
  }

  /** Objects whose destructor is running. */
  ghost function Dying(h: Heap): set<Addr> {
    set o | o in h.objs && h.objs[o].count == 0
  }

  // ---------------------------------------------------------------- reachability

  ghost predicate Edge(h: Heap, w: set<Loc>, x: Addr, y: Addr) {
    exists i: nat :: Field(x, i) in h.slots && Field(x, i) !in w && h.slots[Field(x, i)].ptr == Some(y)
  }

  ghost predicate Anchored(h: Heap, w: set<Loc>, ext: multiset<Addr>, x: Addr) {
    x in ext || exists n: nat :: Root(n) in h.slots && Root(n) !in w && h.slots[Root(n)].ptr == Some(x)
  }

  ghost predicate IsPath(h: Heap, w: set<Loc>, p: seq<Addr>) {
    |p| > 0 && forall k | 0 <= k < |p| - 1 :: Edge(h, w, p[k], p[k + 1])
  }

  ghost predicate PathTo(h: Heap, w: set<Loc>, ext: multiset<Addr>, p: seq<Addr>, x: Addr) {
    IsPath(h, w, p) && Anchored(h, w, ext, p[0]) && p[|p| - 1] == x
  }

  /** Some slot outside every object, or some reference in `ext`, leads to `x`. */
  ghost predicate Reached(h: Heap, w: set<Loc>, ext: multiset<Addr>, x: Addr) {
    exists p :: PathTo(h, w, ext, p, x)
  }

  lemma ReachedAnchor(h: Heap, w: set<Loc>, ext: multiset<Addr>, x: Addr)
    requires Anchored(h, w, ext, x)
    ensures Reached(h, w, ext, x)
  {
    assert PathTo(h, w, ext, [x], x);
  }

  lemma ReachedEdge(h: Heap, w: set<Loc>, ext: multiset<Addr>, x: Addr, y: Addr)
    requires Reached(h, w, ext, x) && Edge(h, w, x, y)
    ensures Reached(h, w, ext, y)
  {
    var p :| PathTo(h, w, ext, p, x);
    assert PathTo(h, w, ext, p + [y], y);
  }

  /** Any prefix of a path from an anchor reaches its last node. */
  lemma ReachedAlong(h: Heap, w: set<Loc>, ext: multiset<Addr>, p: seq<Addr>, k: nat)
    requires IsPath(h, w, p) && Anchored(h, w, ext, p[0]) && k < |p|
    ensures Reached(h, w, ext, p[k])
  {
    assert PathTo(h, w, ext, p[..k + 1], p[k]);
  }

  /** A reached object is anchored, or a slot of a reached object points at it. */
  lemma ReachedBack(h: Heap, w: set<Loc>, ext: multiset<Addr>, x: Addr)
    requires Reached(h, w, ext, x) && !Anchored(h, w, ext, x)
    ensures exists y :: Reached(h, w, ext, y) && Edge(h, w, y, x)
  {
    var p :| PathTo(h, w, ext, p, x);
    var y := p[|p| - 2];
    ReachedAlong(h, w, ext, p, |p| - 2);
    assert Edge(h, w, p[|p| - 2], p[|p| - 1]);
  }

  ghost predicate KeepsReached(h: Heap, r: Heap, w: set<Loc>, ext: multiset<Addr>) {
    forall x | Reached(h, w, ext, x) :: Reached(r, w, ext, x)
  }

  /** Each object in `k` is anchored or held by a member of another one in `k`: a set that keeps itself alive. */
  ghost predicate Supported(h: Heap, w: set<Loc>, ext: multiset<Addr>, k: set<Addr>) {
    forall x <- k :: Anchored(h, w, ext, x) || HeldIn(h, w, k, x)
  }

  ghost predicate HeldIn(h: Heap, w: set<Loc>, k: set<Addr>, x: Addr) {
    exists y <- k :: Edge(h, w, y, x)
  }

  /** What no cascade frees: an object that something outside leads to, or a cycle of members. */
  ghost predicate Kept(h: Heap, w: set<Loc>, ext: multiset<Addr>, x: Addr) {
    exists k: set<Addr> :: x in k && Supported(h, w, ext, k)
  }

  ghost predicate KeepsSupported(h: Heap, r: Heap, w: set<Loc>, ext: multiset<Addr>) {
    forall k: set<Addr> | Supported(h, w, ext, k) :: Supported(r, w, ext, k)
  }

  /** Every reached object is kept. */
  lemma ReachedIsKept(h: Heap, w: set<Loc>, ext: multiset<Addr>, x: Addr)
    requires Reached(h, w, ext, x)
    ensures Kept(h, w, ext, x)
  {
    var p :| PathTo(h, w, ext, p, x);
    var k := set y | y in p;
    forall y <- k ensures Anchored(h, w, ext, y) || HeldIn(h, w, k, y) {
      var i :| 0 <= i < |p| && p[i] == y;
      if i > 0 {
        assert Edge(h, w, p[i - 1], p[i]) && p[i - 1] in k;
      }
    }
    assert Supported(h, w, ext, k);
  }

  /** The slots being overwritten lie outside every object, or in a kept one, or are still there in the end. */
  ghost predicate WritersStay(h: Heap, r: Heap, w: set<Loc>, ext: multiset<Addr>) {
    (forall l | l in w && l.Field? :: Kept(h, w, ext, l.owner)) || w <= r.slots.Keys
  }

  lemma EdgeWithout(h: Heap, r: Heap, w: set<Loc>, l: Loc, x: Addr, y: Addr)
    requires l.Field? && r.slots == h.slots - {l} && x != l.owner && Edge(h, w, x, y)
    ensures Edge(r, w, x, y)
  {
    var i: nat :| Field(x, i) in h.slots && Field(x, i) !in w && h.slots[Field(x, i)].ptr == Some(y);
    assert Field(x, i) in r.slots;
  }

  lemma AnchoredWithout(h: Heap, r: Heap, w: set<Loc>, ext: multiset<Addr>, l: Loc, x: Addr)
    requires l.Field? && r.slots == h.slots - {l} && Anchored(h, w, ext, x)
    ensures Anchored(r, w, ext, x)
  {
    if x !in ext {
      var n: nat :| Root(n) in h.slots && Root(n) !in w && h.slots[Root(n)].ptr == Some(x);
      assert Root(n) in r.slots;
    }
  }

  /** Removing one member slot of an object that is not kept cuts no path and leaves every set that
      keeps itself alive as it is. */
  lemma DropUnkeptSlot(h: Heap, r: Heap, w: set<Loc>, ext: multiset<Addr>, l: Loc)
    requires l.Field? && !Kept(h, w, ext, l.owner) && r.slots == h.slots - {l}
    ensures KeepsReached(h, r, w, ext) && KeepsSupported(h, r, w, ext)
  {
    forall x | Reached(h, w, ext, x) ensures Reached(r, w, ext, x) {
      var p :| PathTo(h, w, ext, p, x);
      forall k | 0 <= k < |p| - 1 ensures Edge(r, w, p[k], p[k + 1]) {
        ReachedAlong(h, w, ext, p, k);
        ReachedIsKept(h, w, ext, p[k]);
        EdgeWithout(h, r, w, l, p[k], p[k + 1]);
      }
      AnchoredWithout(h, r, w, ext, l, p[0]);
      assert PathTo(r, w, ext, p, x);
    }
    forall k: set<Addr> | Supported(h, w, ext, k) ensures Supported(r, w, ext, k) {
      assert l.owner !in k;
      forall x <- k ensures Anchored(r, w, ext, x) || HeldIn(r, w, k, x) {
        if Anchored(h, w, ext, x) {
          AnchoredWithout(h, r, w, ext, l, x);
        } else {
          var y :| y in k && Edge(h, w, y, x);
          EdgeWithout(h, r, w, l, y, x);
        }
      }
    }
  }

  lemma EdgeHolds(h: Heap, w: set<Loc>, y: Addr, o: Addr)
    requires Edge(h, w, y, o)
    ensures Holders(h, w, o) != {}
  {
    var i: nat :| Field(y, i) in h.slots && Field(y, i) !in w && h.slots[Field(y, i)].ptr == Some(o);
    assert Field(y, i) in Holders(h, w, o);
  }

  lemma AnchorHolds(h: Heap, w: set<Loc>, ext: multiset<Addr>, o: Addr)
    requires Anchored(h, w, ext, o)
    ensures |Holders(h, w, o)| + ext[o] > 0
  {
    if o !in ext {
      var n: nat :| Root(n) in h.slots && Root(n) !in w && h.slots[Root(n)].ptr == Some(o);
      assert Root(n) in Holders(h, w, o);
    }
  }

  /** An object whose destructor is running is not kept, so nothing outside leads to it. */
  lemma DyingUnkept(h: Heap, w: set<Loc>, ext: multiset<Addr>, o: Addr)
    requires Good(h, w, ext) && o in Dying(h)
    ensures !Kept(h, w, ext, o) && !Reached(h, w, ext, o)
  {
    if Reached(h, w, ext, o) {
      ReachedIsKept(h, w, ext, o);
    }
    if Kept(h, w, ext, o) {
      var k: set<Addr> :| o in k && Supported(h, w, ext, k);
      if Anchored(h, w, ext, o) {
        AnchorHolds(h, w, ext, o);
      } else {
        var y :| y in k && Edge(h, w, y, o);
        EdgeHolds(h, w, y, o);
      }
    }
  }

  // ---------------------------------------------------------------- one cascade

  /** `r` is `h` with some objects and their members gone and everything else in place; the slots
      that went are members of objects that went, or among `d`. */
  ghost predicate Shrunk(h: Heap, r: Heap, d: set<Loc>) {
    && r.objs.Keys <= h.objs.Keys
    && (forall o | o in r.objs :: r.objs[o].arity == h.objs[o].arity && r.objs[o].birth == h.objs[o].birth)
    && r.slots.Keys <= h.slots.Keys
    && (forall l | l in r.slots :: r.slots[l] == h.slots[l])
    && r.clock == h.clock
    && forall l | l in h.slots && l !in r.slots && l !in d :: l.Field? && l.owner !in r.objs
  }

  lemma HoldersWithout(h: Heap, r: Heap, w: set<Loc>, l: Loc, o: Addr)
    requires l in h.slots && l !in w && r.slots == h.slots - {l}
    ensures |Holders(h, w, o)| == |Holders(r, w, o)| + (if h.slots[l].ptr == Some(o) then 1 else 0)
  {
    if h.slots[l].ptr == Some(o) {
      HoldersMinusOne(h, r, w, l, o);
    } else {
      SameHolders(h, r, w, l, o);
    }
  }

  lemma HoldersMinusOne(h: Heap, r: Heap, w: set<Loc>, l: Loc, o: Addr)
    requires l in h.slots && l !in w && r.slots == h.slots - {l}
    requires h.slots[l].ptr == Some(o)
    ensures Holders(h, w, o) == Holders(r, w, o) + {l}
  {
  }

  lemma SameHolders(h: Heap, r: Heap, w: set<Loc>, l: Loc, o: Addr)
    requires l in h.slots && r.slots == h.slots - {l}
    requires h.slots[l].ptr != Some(o)
    ensures Holders(h, w, o) == Holders(r, w, o)
  {
  }

  function OwedBy(ext: multiset<Addr>, p: Option<Addr>): multiset<Addr> {
    if p.Some? then ext + multiset{p.value} else ext
  }

  /** Ending the lifetime of a slot that is not being overwritten leaves one reference to give back. */
  lemma DropGood(h: Heap, r: Heap, w: set<Loc>, ext: multiset<Addr>, l: Loc)
    requires Good(h, w, ext) && l in h.slots && l !in w && r == Drop(h, l)
    requires l.Field? ==> h.objs[l.owner].count == 0
    ensures Good(r, w, OwedBy(ext, h.slots[l].ptr))
  {
    var e := OwedBy(ext, h.slots[l].ptr);
    forall o | o in r.objs ensures r.objs[o].count == |Holders(r, w, o)| + e[o] {
      HoldersWithout(h, r, w, l, o);
    }
  }

  /** Reachability and support depend on the slots only. */
  lemma SameSlotsSameReach(h: Heap, r: Heap, w: set<Loc>, ext: multiset<Addr>)
    requires h.slots == r.slots
    ensures KeepsReached(h, r, w, ext) && KeepsSupported(h, r, w, ext)
  {
    assert forall x, y | Edge(h, w, x, y) :: Edge(r, w, x, y);
    assert forall x | Anchored(h, w, ext, x) :: Anchored(r, w, ext, x);
    forall x | Reached(h, w, ext, x) ensures Reached(r, w, ext, x) {
      var p :| PathTo(h, w, ext, p, x);
      assert PathTo(r, w, ext, p, x);
    }
    forall k: set<Addr> | Supported(h, w, ext, k) ensures Supported(r, w, ext, k) {
      forall x <- k ensures Anchored(r, w, ext, x) || HeldIn(r, w, k, x) {
        if !Anchored(h, w, ext, x) {
          var y :| y in k && Edge(h, w, y, x);
          assert Edge(r, w, y, x);
        }
      }
    }
  }

  lemma DecrementGood(h: Heap, r: Heap, o: Addr, w: set<Loc>, ext: multiset<Addr>)
    requires Good(h, w, ext + multiset{o}) && r == SetCount(h, o, h.objs[o].count - 1)
    ensures Good(r, w, ext)
    ensures h.objs[o].count > 0
  {
    forall x | x in r.objs ensures r.objs[x].count == |Holders(r, w, x)| + ext[x] {
      assert Holders(r, w, x) == Holders(h, w, x);
    }
  }

  /** What one release leaves behind. */
  ghost predicate Released(h: Heap, r: Heap, w: set<Loc>, ext: multiset<Addr>, d: set<Loc>) {
    Good(r, w, ext) && Dying(r) == Dying(h) && Shrunk(h, r, d) && KeepsReached(h, r, w, ext) && KeepsSupported(h, r, w, ext)
  }

  lemma NothingReleased(h: Heap, w: set<Loc>, ext: multiset<Addr>)
    requires Good(h, w, ext)
    ensures Released(h, h, w, ext, {})
  {
  }

  lemma ReleasedThen(h: Heap, m: Heap, r: Heap, w: set<Loc>, ext: multiset<Addr>, d: set<Loc>, e: set<Loc>)
    requires Dying(m) == Dying(h) && Shrunk(h, m, d) && KeepsReached(h, m, w, ext) && KeepsSupported(h, m, w, ext)
    requires Released(m, r, w, ext, e)
    ensures Released(h, r, w, ext, d + e)
  {
  }

  /** Returning the memory of an object all of whose members are gone. */
  lemma FreeDone(r: Heap, f: Heap, o: Addr, w: set<Loc>, ext: multiset<Addr>)
    requires Good(r, w, ext) && o in Dying(r) && f == Free(r, o)
    requires Members(o, r.objs[o].arity) !! r.slots.Keys
    ensures Good(f, w, ext) && Dying(f) == Dying(r) - {o} && KeepsReached(r, f, w, ext) && KeepsSupported(r, f, w, ext)
  {
    SameSlotsSameReach(r, f, w, ext);
    forall l | l in f.slots && l !in w && f.slots[l].ptr.Some? ensures f.slots[l].ptr.value in f.objs {
      assert f.slots[l].ptr.value == o ==> l in Holders(r, w, o);
    }
    forall x | x in f.objs ensures f.objs[x].count == |Holders(f, w, x)| + ext[x] {
      assert Holders(f, w, x) == Holders(r, w, x);
    }
  }

  /** Releasing one reference: the counts stay exact, no live object is touched after it is freed,
      destructors already running stay as they were, and whatever was reached stays reached. */
  lemma {:induction false} CascadeDelRef(h: Heap, o: Addr, w: set<Loc>, ext: multiset<Addr>)
    requires Good(h, w, ext + multiset{o}) && WritersStay(h, DelRef(h, o), w, ext)
    ensures Released(h, DelRef(h, o), w, ext, {})
    decreases Positive(h), 0
  {
    OwedIsLive(h, w, ext, o);
    hide Good, KeepsReached, KeepsSupported, WritersStay, Shrunk, Dying, DestroyFields;
    var c := h.objs[o].count - 1;
    var h1 := SetCount(h, o, c);
    DecrementGood(h, h1, o, w, ext);
    Decremented(h, h1, o);
    SameSlotsSameReach(h, h1, w, ext);
    if c == 0 {
      WritersStayOn(h, h1, DelRef(h, o), w, ext);
      CascadeLast(h, h1, o, w, ext);
    }
  }

  lemma OwedIsLive(h: Heap, w: set<Loc>, ext: multiset<Addr>, o: Addr)
    requires Good(h, w, ext + multiset{o})
    ensures o in h.objs
  {
    assert o in ext + multiset{o};
  }

  lemma Decremented(h: Heap, r: Heap, o: Addr)
    requires o in h.objs && h.objs[o].count > 0 && r == SetCount(h, o, h.objs[o].count - 1)
    ensures Shrunk(h, r, {})
    ensures h.objs[o].count > 1 ==> Dying(r) == Dying(h)
    ensures h.objs[o].count == 1 ==> Dying(r) == Dying(h) + {o} && o !in Dying(h) && Positive(r) == Positive(h) - {o}
  {
  }

  /** The case in which the count reaches zero. */
  lemma {:induction false} CascadeLast(h: Heap, h1: Heap, o: Addr, w: set<Loc>, ext: multiset<Addr>)
    requires Good(h, w, ext + multiset{o}) && o in h.objs && h.objs[o].count == 1 && h1 == SetCount(h, o, 0)
    requires Good(h1, w, ext) && WritersStay(h1, DelRef(h, o), w, ext)
    requires KeepsReached(h, h1, w, ext) && KeepsSupported(h, h1, w, ext)
    ensures Released(h, DelRef(h, o), w, ext, {})
    decreases Positive(h1), h.objs[o].arity + 3
  {
    var n := h.objs[o].arity;
    MembersPresent(h, h1, w, ext, o);
    var r := DestroyFields(h1, o, n);
    var f := Free(r, o);
    assert f == DelRef(h, o);
    FreeKeepsSlots(r, o);
    hide Good, KeepsReached, KeepsSupported, WritersStay, Shrunk, Dying, DestroyFields, DelRef, Members;
    WritersStayFirst(h1, r, f, w, ext);
    CascadeFields(h1, o, n, w, ext);
    Decremented(h, h1, o);
    ArityKept(h1, r, o, Members(o, n));
    FreeDone(r, f, o, w, ext);
    FreeReleases(h, h1, r, f, o, w, ext);
  }

  lemma FreeKeepsSlots(r: Heap, o: Addr)
    ensures Free(r, o).slots == r.slots
  {
  }

  lemma MembersPresent(h: Heap, h1: Heap, w: set<Loc>, ext: multiset<Addr>, o: Addr)
    requires Good(h, w, ext + multiset{o}) && o in h.objs && h.objs[o].count == 1 && h1 == SetCount(h, o, 0)
    ensures Members(o, h.objs[o].arity) <= h1.slots.Keys
  {
  }

  lemma ArityKept(h: Heap, r: Heap, o: Addr, d: set<Loc>)
    requires o in Dying(h) && Dying(r) == Dying(h) && Shrunk(h, r, d)
    ensures o in r.objs && r.objs[o].arity == h.objs[o].arity
  {
    assert o in Dying(r);
  }

  lemma FreeReleases(h: Heap, h1: Heap, r: Heap, f: Heap, o: Addr, w: set<Loc>, ext: multiset<Addr>)
    requires o in h.objs && h1 == SetCount(h, o, 0) && Shrunk(h, h1, {}) && o in r.objs && f == Free(r, o)
    requires Dying(h1) == Dying(h) + {o} && o !in Dying(h)
    requires KeepsReached(h, h1, w, ext) && KeepsSupported(h, h1, w, ext)
    requires Released(h1, r, w, ext, Members(o, h.objs[o].arity)) && Good(f, w, ext) && Dying(f) == Dying(r) - {o}
    requires KeepsReached(r, f, w, ext) && KeepsSupported(r, f, w, ext)
    ensures Released(h, f, w, ext, {})
  {
    hide Good, Reached, Supported;
  }

  ghost function Members(o: Addr, n: nat): set<Loc> {
    set i: nat | i < n :: Field(o, i)
  }

  lemma {:induction false} CascadeFields(h: Heap, o: Addr, n: nat, w: set<Loc>, ext: multiset<Addr>)
    requires Good(h, w, ext) && WritersStay(h, DestroyFields(h, o, n), w, ext)
    requires o in Dying(h) && n <= h.objs[o].arity
    requires Members(o, n) <= h.slots.Keys
    ensures var r := DestroyFields(h, o, n);
            Released(h, r, w, ext, Members(o, n)) && Members(o, n) !! r.slots.Keys
    decreases Positive(h), n + 2
  {
    hide Good, KeepsReached, KeepsSupported, WritersStay, DestroySlot;
    if n == 0 {
      NothingReleased(h, w, ext);
    } else {
      var l := Field(o, n - 1);
      var h1 := DestroySlot(h, l);
      var r := DestroyFields(h1, o, n - 1);
      assert r == DestroyFields(h, o, n);
      WritersStayFirst(h, h1, r, w, ext);
      CascadeSlot(h, l, w, ext);
      MembersLeft(h, h1, o, n, w, ext);
      WritersStayOn(h, h1, r, w, ext);
      CascadeFields(h1, o, n - 1, w, ext);
      ReleasedThen(h, h1, r, w, ext, {l}, Members(o, n - 1));
      assert l !in r.slots.Keys;
    }
  }

  /** The members not yet destroyed outlive the release of one of them. */
  lemma MembersLeft(h: Heap, h1: Heap, o: Addr, n: nat, w: set<Loc>, ext: multiset<Addr>)
    requires n > 0 && o in Dying(h) && Members(o, n) <= h.slots.Keys
    requires Released(h, h1, w, ext, {Field(o, n - 1)})
    ensures o in Dying(h1) && h1.objs[o].arity == h.objs[o].arity
    ensures Members(o, n - 1) <= h1.slots.Keys
    ensures Members(o, n) == {Field(o, n - 1)} + Members(o, n - 1)
  {
    assert o in h1.objs;
    assert Members(o, n - 1) <= Members(o, n);
  }

  /** What is kept, or still there in the end, is so after the first part of a cascade. */
  lemma WritersStayOn(h: Heap, h1: Heap, r: Heap, w: set<Loc>, ext: multiset<Addr>)
    requires WritersStay(h, r, w, ext) && KeepsSupported(h, h1, w, ext)
    ensures WritersStay(h1, r, w, ext)
  {
    hide Supported;
  }

  /** The same, seen from the first part. */
  lemma WritersStayFirst(h: Heap, h1: Heap, r: Heap, w: set<Loc>, ext: multiset<Addr>)
    requires WritersStay(h, r, w, ext) && r.slots.Keys <= h1.slots.Keys
    ensures WritersStay(h, h1, w, ext)
  {
  }

  lemma {:induction false} CascadeSlot(h: Heap, l: Loc, w: set<Loc>, ext: multiset<Addr>)
    requires Good(h, w, ext) && WritersStay(h, DestroySlot(h, l), w, ext)
    requires l in h.slots && l.Field? && l.owner in Dying(h)
    ensures Released(h, DestroySlot(h, l), w, ext, {l}) && l !in DestroySlot(h, l).slots
    decreases Positive(h), 1
  {
    var s := h.slots[l];
    var h1 := Drop(h, l);
    var r := DestroySlot(h, l);
    DyingUnkept(h, w, ext, l.owner);
    NotBeingWritten(h, h1, r, w, ext, l);
    DropGood(h, h1, w, ext, l);
    DropUnkeptSlot(h, h1, w, ext, l);
    assert Positive(h1) == Positive(h) && Dying(h1) == Dying(h);
    if s.ptr.Some? {
      WritersStayOn(h, h1, r, w, ext);
      CascadeDelRef(h1, s.ptr.value, w, ext);
      ReleasedThen(h, h1, r, w, ext, {l}, {});
    }
  }

  lemma NotBeingWritten(h: Heap, h1: Heap, r: Heap, w: set<Loc>, ext: multiset<Addr>, l: Loc)
    requires WritersStay(h, r, w, ext) && l.Field? && !Kept(h, w, ext, l.owner)
    requires h1 == Drop(h, l) && r.slots.Keys <= h1.slots.Keys
    ensures l !in w
  {
    hide Kept;
  }
}
