/** Live objects against reachable ones, and whole runs of gcRefPtr operations. */
module RefGraph {
  import opened Wrappers
  import opened RefHeap
  import opened RefInvariant
  import opened RefSafety

  ghost predicate Leads(h: Heap, x: Addr, y: Addr) {
    exists p :: IsPath(h, {}, p) && p[0] == x && p[|p| - 1] == y
  }

  ghost predicate IsCycle(h: Heap, c: seq<Addr>) {
    |c| >= 2 && IsPath(h, {}, c) && c[0] == c[|c| - 1]
  }

  ghost predicate Acyclic(h: Heap) {
    forall c :: !IsCycle(h, c)
  }

  // ---------------------------------------------------------------- leaks are cycles

  /** An object nothing leads to from outside is still pointed at by a member of another such object. */
  lemma GarbageHasHolder(h: Heap, ext: multiset<Addr>, x: Addr) returns (y: Addr)
    requires Inv(h, ext) && x in h.objs && !Reached(h, {}, ext, x)
    ensures y in h.objs && !Reached(h, {}, ext, y) && Edge(h, {}, y, x)
  {
    assert x !in Dying(h);
    assert x !in ext by {
      if x in ext { ReachedAnchor(h, {}, ext, x); }
    }
    assert |Holders(h, {}, x)| > 0;
    var l :| l in Holders(h, {}, x);
    assert l.Field? by {
      if l.Root? {
        assert Root(l.name) in h.slots && Root(l.name) !in {} && h.slots[Root(l.name)].ptr == Some(x);
        ReachedAnchor(h, {}, ext, x);
      }
    }
    y := l.owner;
    assert Field(y, l.index) in h.slots && h.slots[Field(y, l.index)].ptr == Some(x);
    assert Edge(h, {}, y, x);
    if Reached(h, {}, ext, y) {
      ReachedEdge(h, {}, ext, y, x);
    }
  }

  ghost predicate AllGarbage(h: Heap, ext: multiset<Addr>, p: seq<Addr>) {
    forall k | 0 <= k < |p| :: p[k] in h.objs && !Reached(h, {}, ext, p[k])
  }

  ghost function Unvisited(h: Heap, p: seq<Addr>): set<Addr> {
    set x | x in h.objs && x !in p
  }

  lemma VisitedGrows(h: Heap, p: seq<Addr>, y: Addr)
    requires y in h.objs && y !in p
    ensures Unvisited(h, [y] + p) < Unvisited(h, p)
  {
    assert y in Unvisited(h, p) && y !in Unvisited(h, [y] + p);
  }

  /** Walking back from a leaked object comes round on itself. */
  lemma {:induction false} WalkBack(h: Heap, ext: multiset<Addr>, p: seq<Addr>) returns (c: seq<Addr>)
    requires Inv(h, ext) && IsPath(h, {}, p) && AllGarbage(h, ext, p)
    ensures IsCycle(h, c) && AllGarbage(h, ext, c) && Leads(h, c[0], p[|p| - 1])
    decreases Unvisited(h, p)
  {
    hide Inv, Reached, Edge;
    var y := GarbageHasHolder(h, ext, p[0]);
    var q := [y] + p;
    PathFront(h, y, p);
    if k :| 0 <= k < |p| && p[k] == y {
      c := q[..k + 2];
      assert q[0] == y && q[|q| - 1] == p[|p| - 1];
    } else {
      VisitedGrows(h, p, y);
      c := WalkBack(h, ext, q);
    }
  }

  lemma PathFront(h: Heap, y: Addr, p: seq<Addr>)
    requires IsPath(h, {}, p) && Edge(h, {}, y, p[0])
    ensures IsPath(h, {}, [y] + p)
  {
    var q := [y] + p;
    forall k | 0 <= k < |q| - 1 ensures Edge(h, {}, q[k], q[k + 1]) {
      if k > 0 { assert Edge(h, {}, p[k - 1], p[k]); }
    }
  }

  /** The count invariant leaks exactly the objects that sit behind a cycle of leaked objects. */
  lemma LeakIffCycle(h: Heap, ext: multiset<Addr>)
    requires Inv(h, ext)
    ensures (exists x :: x in h.objs && !Reached(h, {}, ext, x))
       <==> (exists c :: IsCycle(h, c) && AllGarbage(h, ext, c))
  {
    if x :| x in h.objs && !Reached(h, {}, ext, x) {
      var c := WalkBack(h, ext, [x]);
    }
    if c :| IsCycle(h, c) && AllGarbage(h, ext, c) {
      assert c[0] in h.objs && !Reached(h, {}, ext, c[0]);
    }
  }

  /** Without cycles the live objects are exactly those that something outside leads to. */
  lemma LiveIsReached(h: Heap, ext: multiset<Addr>)
    requires Inv(h, ext) && Acyclic(h)
    ensures forall x :: x in h.objs <==> Reached(h, {}, ext, x)
  {
    LeakIffCycle(h, ext);
    forall x | Reached(h, {}, ext, x) ensures x in h.objs {
      ReachedIsLive(h, {}, ext, x);
    }
  }

  // ---------------------------------------------------------------- which writes close a cycle

  lemma FewerEdgesAcyclic(h: Heap, r: Heap)
    requires Acyclic(h) && forall x, y | Edge(r, {}, x, y) :: Edge(h, {}, x, y)
    ensures Acyclic(r)
  {
    forall c ensures !IsCycle(r, c) {
      CycleHereToo(h, r, c);
    }
  }

  lemma CycleHereToo(h: Heap, r: Heap, c: seq<Addr>)
    requires forall x, y | Edge(r, {}, x, y) :: Edge(h, {}, x, y)
    ensures IsCycle(r, c) ==> IsCycle(h, c)
  {
  }

  /** Giving references back, with all that this frees, closes no cycle. */
  lemma ReleaseKeepsAcyclic(h: Heap, r: Heap, d: set<Loc>)
    requires Acyclic(h) && Shrunk(h, r, d)
    ensures Acyclic(r)
  {
    forall x: Addr, y: Addr | Edge(r, {}, x, y) ensures Edge(h, {}, x, y) {
      var i: nat :| Field(x, i) in r.slots && r.slots[Field(x, i)].ptr == Some(y);
      assert Field(x, i) in h.slots && h.slots[Field(x, i)].ptr == Some(y);
    }
    FewerEdgesAcyclic(h, r);
  }

  lemma WroteEdges(h: Heap, r: Heap, l: Loc, s: Slot, x: Addr, y: Addr)
    requires Wrote(h, r, l, s) && Edge(r, {}, x, y)
    ensures Edge(h, {}, x, y) || (l.Field? && l.owner == x && s.ptr == Some(y))
  {
    var i: nat :| Field(x, i) in r.slots && r.slots[Field(x, i)].ptr == Some(y);
    if Field(x, i) != l {
      assert Field(x, i) in h.slots && h.slots[Field(x, i)].ptr == Some(y);
    }
  }

  lemma LeadsEdge(h: Heap, x: Addr, y: Addr, z: Addr)
    requires Leads(h, x, y) && Edge(h, {}, y, z)
    ensures Leads(h, x, z)
  {
    var p :| IsPath(h, {}, p) && p[0] == x && p[|p| - 1] == y;
    var q := p + [z];
    assert IsPath(h, {}, q) && q[0] == x && q[|q| - 1] == z;
  }

  lemma LeadsSelf(h: Heap, x: Addr)
    ensures Leads(h, x, x)
  {
    assert IsPath(h, {}, [x]);
  }

  /** Along a path of `r`, everything after a node that `q` leads to is led to as well. */
  lemma {:induction false} LedOn(h: Heap, r: Heap, l: Loc, s: Slot, q: Addr, c: seq<Addr>, j: nat, k: nat)
    requires Wrote(h, r, l, s) && s.ptr == Some(q) && IsPath(r, {}, c) && j <= k < |c|
    requires Leads(h, q, c[j])
    ensures Leads(h, q, c[k])
    decreases k
  {
    if j < k {
      LedOn(h, r, l, s, q, c, j, k - 1);
      assert Edge(r, {}, c[k - 1], c[k]);
      WroteEdges(h, r, l, s, c[k - 1], c[k]);
      if Edge(h, {}, c[k - 1], c[k]) {
        LeadsEdge(h, q, c[k - 1], c[k]);
      } else {
        LeadsSelf(h, q);
      }
    }
  }

  /** A cycle present after a store was there before it, or the stored pointer leads back to the
      object the store is made in. */
  lemma CycleAfterWrite(h: Heap, r: Heap, l: Loc, s: Slot, c: seq<Addr>)
    requires Wrote(h, r, l, s) && IsCycle(r, c)
    ensures IsCycle(h, c) || (l.Field? && s.ptr.Some? && Leads(h, s.ptr.value, l.owner))
  {
    if k :| 0 <= k < |c| - 1 && !Edge(h, {}, c[k], c[k + 1]) {
      assert Edge(r, {}, c[k], c[k + 1]);
      WroteEdges(h, r, l, s, c[k], c[k + 1]);
      var q := s.ptr.value;
      LeadsSelf(h, q);
      LedOn(h, r, l, s, q, c, k + 1, |c| - 1);
      LedOn(h, r, l, s, q, c, 0, k);
    }
  }

  /** A store that leads nowhere back to the object it is made in closes no cycle. */
  lemma WriteKeepsAcyclic(h: Heap, r: Heap, l: Loc, s: Slot)
    requires Acyclic(h) && Wrote(h, r, l, s)
    requires l.Field? && s.ptr.Some? ==> !Leads(h, s.ptr.value, l.owner)
    ensures Acyclic(r)
  {
    if c :| IsCycle(r, c) {
      CycleAfterWrite(h, r, l, s, c);
    }
  }

  /** Following members from a live object stays among live objects. */
  lemma {:induction false} PathSurvives(h: Heap, r: Heap, ext: multiset<Addr>, l: Loc, s: Slot, p: seq<Addr>, k: nat)
    requires Inv(r, ext) && Wrote(h, r, l, s) && l.Field?
    requires IsPath(h, {}, p) && p[0] in r.objs && k < |p|
    requires forall j | 0 <= j < |p| - 1 :: p[j] != l.owner
    ensures p[k] in r.objs
    ensures forall j | 0 <= j < k :: Edge(r, {}, p[j], p[j + 1])
  {
    if k > 0 {
      PathSurvives(h, r, ext, l, s, p, k - 1);
      assert Edge(h, {}, p[k - 1], p[k]);
      var i: nat :| Field(p[k - 1], i) in h.slots && h.slots[Field(p[k - 1], i)].ptr == Some(p[k]);
      assert Field(p[k - 1], i) in r.slots && r.slots[Field(p[k - 1], i)].ptr == Some(p[k]);
      assert Edge(r, {}, p[k - 1], p[k]);
    }
  }

  lemma {:induction false} LeadsDirectly(h: Heap, p: seq<Addr>) returns (q: seq<Addr>)
    requires IsPath(h, {}, p)
    ensures IsPath(h, {}, q) && q[0] == p[0] && q[|q| - 1] == p[|p| - 1]
    ensures forall k | 0 <= k < |q| - 1 :: q[k] != p[|p| - 1]
    decreases |p|
  {
    if k :| 0 <= k < |p| - 1 && p[k] == p[|p| - 1] {
      q := LeadsDirectly(h, p[..k + 1]);
    } else {
      q := p;
    }
  }

  lemma NotAcyclic(h: Heap, c: seq<Addr>)
    requires IsCycle(h, c)
    ensures !Acyclic(h)
  {
  }

  /** The cycle that a store closes when its pointer leads back to the object it is made in. */
  lemma CycleClosed(h: Heap, r: Heap, ext: multiset<Addr>, l: Loc, s: Slot, p: Addr) returns (c: seq<Addr>)
    requires Inv(r, ext) && Wrote(h, r, l, s) && l.Field? && s.ptr == Some(p) && Leads(h, p, l.owner)
    ensures IsCycle(r, c)
  {
    assert l in r.slots && r.slots[l] == s;
    hide Inv, Wrote;
    var w :| IsPath(h, {}, w) && w[0] == p && w[|w| - 1] == l.owner;
    var q := LeadsDirectly(h, w);
    PathSurvives(h, r, ext, l, s, q, |q| - 1);
    c := [l.owner] + q;
    assert Field(l.owner, l.index) in r.slots && r.slots[Field(l.owner, l.index)].ptr == Some(q[0]);
    assert Edge(r, {}, l.owner, q[0]);
    forall k | 0 <= k < |c| - 1 ensures Edge(r, {}, c[k], c[k + 1]) {
      if k > 0 { assert Edge(r, {}, q[k - 1], q[k]); }
    }
  }

  /** In an acyclic heap every existing slot may be written. */
  lemma AcyclicSurvives(h: Heap, ext: multiset<Addr>, l: Loc, p: Option<Addr>)
    requires Inv(h, ext) && Acyclic(h) && l in h.slots
    ensures Survives(h, ext, l, p) && Writable(h, ext, l)
  {
    LiveIsReached(h, ext);
    if l.Field? {
      assert l.owner in h.objs;
    }
    WritableSurvives(h, ext, l, p);
  }

  /** Assigning to a member keeps an acyclic heap acyclic exactly when the new target does not
      already lead to the object the member belongs to. */
  lemma AssignAcyclicIff(h: Heap, ext: multiset<Addr>, l: Loc, p: Option<Addr>)
    requires Inv(h, ext) && Acyclic(h) && l in h.slots && Holdable(h, p)
    ensures Acyclic(Assign(h, l, p)) <==> !(l.Field? && p.Some? && Leads(h, p.value, l.owner))
  {
    AcyclicSurvives(h, ext, l, p);
    AssignSafe(h, ext, l, p);
    var r := Assign(h, l, p);
    var s := r.slots[l];
    hide Inv, Acyclic, Wrote, Assign;
    if l.Field? && p.Some? && Leads(h, p.value, l.owner) {
      var c := CycleClosed(h, r, ext, l, s, p.value);
      NotAcyclic(r, c);
    } else {
      WriteKeepsAcyclic(h, r, l, s);
    }
  }
}
