/** The JavaScript dispatch table: pairs of a 32-bit function hash and a delegate, kept sorted, and a
    recursive bisection that refines a map. */
module JsTable {
  import opened Wrappers

  type Delegate = nat

  const HASHES: nat := 0x1_0000_0000
  /** (uint32)-1. */
  const SENTINEL: nat := 0xFFFF_FFFF

  type Hash = h: nat | h < HASHES

  type Table = seq<(Hash, Delegate)>

  ghost predicate Sorted(t: Table) {
    forall i, j | 0 <= i < j < |t| :: t[i].0 < t[j].0
  }

  // ---------------------------------------------------------------- find

  /** `find(hash, f, l)`. */
  function FindBetween(t: Table, hash: Hash, f: nat, l: nat): nat
    requires f <= l < |t|
    decreases l - f
  {
    if l == 0 && f == 0 && t[0].0 == hash then 0
    else if l == f then SENTINEL
    else
      var half := (l - f) / 2;
      if half == 0 then
        if t[f].0 == hash then f else if t[l].0 == hash then l else SENTINEL
      else
        var mid := half + f;
        if t[mid].0 == hash then mid
        else if hash > t[mid].0 then FindBetween(t, hash, mid, l)
        else FindBetween(t, hash, f, mid)
  }

  /** `find(hash)`. */
  function Find(t: Table, hash: Hash): nat {
    if |t| == 0 then SENTINEL else FindBetween(t, hash, 0, |t| - 1)
  }

  ghost predicate Within(t: Table, hash: Hash, f: nat, l: nat)
    requires l < |t|
  {
    exists i :: f <= i <= l && t[i].0 == hash
  }

  lemma Bisect(t: Table, hash: Hash, f: nat, mid: nat, l: nat)
    requires Sorted(t) && f <= mid <= l < |t|
    ensures hash > t[mid].0 ==> (Within(t, hash, f, l) <==> Within(t, hash, mid, l))
    ensures hash < t[mid].0 ==> (Within(t, hash, f, l) <==> Within(t, hash, f, mid))
    ensures hash == t[mid].0 ==> Within(t, hash, f, l)
  {
  }

  lemma {:induction false} FindBetweenIs(t: Table, hash: Hash, f: nat, l: nat)
    requires Sorted(t) && f <= l < |t| && (f == l ==> l == 0)
    ensures var r := FindBetween(t, hash, f, l);
            if Within(t, hash, f, l) then f <= r <= l && t[r].0 == hash else r == SENTINEL
    decreases l - f
  {
    var half := (l - f) / 2;
    if half == 0 {
      assert l == f || l == f + 1;
    } else {
      hide Sorted, Within;
      var mid := half + f;
      Bisect(t, hash, f, mid, l);
      if hash > t[mid].0 {
        FindBetweenIs(t, hash, mid, l);
      } else if hash < t[mid].0 {
        FindBetweenIs(t, hash, f, mid);
      }
    }
  }

  lemma {:induction false} DenseHashes(t: Table, i: nat)
    requires Sorted(t) && i < |t|
    ensures i <= t[i].0 && t[i].0 + |t| <= HASHES + i
    decreases if |t| == 0 then 0 else |t| - i
  {
    AtLeast(t, i);
    if i + 1 < |t| {
      DenseHashes(t, i + 1);
    }
  }

  lemma {:induction false} AtLeast(t: Table, i: nat)
    requires Sorted(t) && i < |t|
    ensures i <= t[i].0
  {
    if i > 0 {
      AtLeast(t, i - 1);
    }
  }

  /** Every possible hash is in the table: the one table whose last index is the sentinel. */
  predicate Full(t: Table) {
    |t| == HASHES
  }

  /** Bisection finds the index of the hash if it is in the table and the sentinel if not. In a table
      that holds every hash, and only there, the largest hash is not found although it is present. */
  lemma FindIff(t: Table, hash: Hash)
    requires Sorted(t)
    ensures var r := Find(t, hash);
            && (r != SENTINEL ==> r < |t| && t[r].0 == hash)
            && (r != SENTINEL <==> (exists i :: 0 <= i < |t| && t[i].0 == hash) && !(Full(t) && hash == SENTINEL))
  {
    var r := Find(t, hash);
    if |t| > 0 {
      FindBetweenIs(t, hash, 0, |t| - 1);
      if Within(t, hash, 0, |t| - 1) {
        DenseHashes(t, r);
        hide Sorted;
      }
    }
  }

  // ---------------------------------------------------------------- sorting

  function Insert(t: Table, e: (Hash, Delegate)): (r: Table) {
    if t == [] || t[|t| - 1].0 < e.0 then t + [e]
    else Insert(t[..|t| - 1], e) + [t[|t| - 1]]
  }

  /** `std::sort` by hash, on pairs with different hashes. */
  function Sort(t: Table): Table {
    if t == [] then [] else Insert(Sort(t[..|t| - 1]), t[|t| - 1])
  }

  ghost predicate DistinctHashes(t: Table) {
    forall i, j | 0 <= i < j < |t| :: t[i].0 != t[j].0
  }

  lemma {:induction false} InsertSame(t: Table, e: (Hash, Delegate))
    ensures multiset(Insert(t, e)) == multiset(t) + multiset{e}
  {
    if t != [] && !(t[|t| - 1].0 < e.0) {
      InsertSame(t[..|t| - 1], e);
      assert t == t[..|t| - 1] + [t[|t| - 1]];
    }
  }

  lemma {:induction false} InsertSorted(t: Table, e: (Hash, Delegate))
    requires Sorted(t) && forall i | 0 <= i < |t| :: t[i].0 != e.0
    ensures Sorted(Insert(t, e))
  {
    if t != [] && !(t[|t| - 1].0 < e.0) {
      var u, x := t[..|t| - 1], t[|t| - 1];
      InsertSorted(u, e);
      var r := Insert(u, e);
      forall i | 0 <= i < |r| ensures r[i].0 < x.0 {
        InsertSame(u, e);
        assert r[i] in multiset(r);
        assert r[i] in multiset(u) || r[i] == e;
      }
    }
  }

  lemma {:induction false} SortSame(t: Table)
    ensures multiset(Sort(t)) == multiset(t)
  {
    if t != [] {
      var u, x := t[..|t| - 1], t[|t| - 1];
      SortSame(u);
      assert t == u + [x];
      InsertSame(Sort(u), x);
    }
  }

  lemma {:induction false} SortIs(t: Table)
    requires DistinctHashes(t)
    ensures Sorted(Sort(t)) && multiset(Sort(t)) == multiset(t)
  {
    SortSame(t);
    if t != [] {
      var u, x := t[..|t| - 1], t[|t| - 1];
      SortIs(u);
      forall i | 0 <= i < |Sort(u)| ensures Sort(u)[i].0 != x.0 {
        assert Sort(u)[i] in multiset(Sort(u));
        assert Sort(u)[i] in multiset(u);
      }
      InsertSorted(Sort(u), x);
    }
  }

  /** There is one sorted arrangement, so any correct sort gives this one. */
  lemma {:induction false} SortedUnique(a: Table, b: Table)
    requires Sorted(a) && Sorted(b) && multiset(a) == multiset(b)
    ensures a == b
  {
    assert |a| == |multiset(a)| && |b| == |multiset(b)|;
    if a != [] {
      var n := |a| - 1;
      LargestSame(a, b);
      SplitLast(a);
      SplitLast(b);
      SortedUnique(a[..n], b[..n]);
    }
  }

  lemma LargestSame(a: Table, b: Table)
    requires Sorted(a) && Sorted(b) && |a| == |b| > 0 && multiset(a) == multiset(b)
    ensures a[|a| - 1] == b[|b| - 1]
  {
    var x, y := a[|a| - 1], b[|b| - 1];
    assert x in multiset(b) && y in multiset(a);
    AtMostLast(b, x);
    AtMostLast(a, y);
  }

  lemma AtMostLast(t: Table, e: (Hash, Delegate))
    requires Sorted(t) && e in t
    ensures e == t[|t| - 1] || e.0 < t[|t| - 1].0
  {
  }

  lemma SplitLast(t: Table)
    requires t != []
    ensures t == t[..|t| - 1] + [t[|t| - 1]]
    ensures multiset(t[..|t| - 1]) == multiset(t) - multiset{t[|t| - 1]}
  {
    assert t == t[..|t| - 1] + [t[|t| - 1]];
    assert multiset(t) == multiset(t[..|t| - 1]) + multiset{t[|t| - 1]};
  }

  // ---------------------------------------------------------------- the table as a map

  function View(t: Table): map<Hash, Delegate> {
    if t == [] then map[] else View(t[..|t| - 1])[t[|t| - 1].0 := t[|t| - 1].1]
  }

  ghost predicate Maps(m: map<Hash, Delegate>, h: Hash, d: Delegate) {
    h in m && m[h] == d
  }

  lemma {:induction false} ViewIs(t: Table)
    requires DistinctHashes(t)
    ensures forall h: Hash, d: Delegate :: Maps(View(t), h, d) <==> (h, d) in t
  {
    if t != [] {
      var u, x := t[..|t| - 1], t[|t| - 1];
      ViewIs(u);
      assert t == u + [x];
      assert forall d: Delegate :: (x.0, d) !in u;
    }
  }

  lemma SameMap(a: map<Hash, Delegate>, b: map<Hash, Delegate>)
    requires forall h: Hash, d: Delegate :: Maps(a, h, d) <==> Maps(b, h, d)
    ensures a == b
  {
    forall h: Hash ensures h in a <==> h in b {
      if h in a {
        assert Maps(a, h, a[h]);
      }
      if h in b {
        assert Maps(b, h, b[h]);
      }
    }
    forall h | h in a ensures a[h] == b[h] {
      assert Maps(a, h, a[h]);
    }
  }

  lemma SortedDistinct(t: Table)
    requires Sorted(t)
    ensures DistinctHashes(t)
  {
  }

  /** The one hash that is not found although it is present: the largest, in the full table. */
  predicate Hidden(t: Table, hash: Hash) {
    Full(t) && hash == SENTINEL
  }

  /** A lookup through the index gives what the map gives. */
  lemma {:induction false} LookupIsView(t: Table, hash: Hash)
    requires Sorted(t)
    ensures Find(t, hash) != SENTINEL <==> hash in View(t) && !Hidden(t, hash)
    ensures Find(t, hash) != SENTINEL ==> Find(t, hash) < |t| && t[Find(t, hash)] == (hash, View(t)[hash])
  {
    FindIff(t, hash);
    ViewIs(t);
    if hash in View(t) {
      assert Maps(View(t), hash, View(t)[hash]);
      assert (hash, View(t)[hash]) in t;
    }
    var r := Find(t, hash);
    if r != SENTINEL {
      assert t[r] == (hash, t[r].1);
      assert Maps(View(t), hash, t[r].1);
    }
  }

  /** The table with every hash. */
  function EveryHash(d: Delegate): Table {
    seq(HASHES, i requires 0 <= i < HASHES => (i, d))
  }

  /** In that table the largest hash has a delegate and is not found. */
  lemma EveryHashHides(d: Delegate)
    ensures var t := EveryHash(d);
            Sorted(t) && Full(t) && SENTINEL in View(t) && View(t)[SENTINEL] == d && Find(t, SENTINEL) == SENTINEL
  {
    var t := EveryHash(d);
    assert t[SENTINEL] == (SENTINEL, d);
    hide Find, View;
    FindIff(t, SENTINEL);
    SortedDistinct(t);
    ViewIs(t);
    assert Maps(View(t), SENTINEL, d);
  }

  // ---------------------------------------------------------------- registering

  /** What is left when the pair found for `id` has been erased. */
  function Erased(t: Table, id: Hash): Table {
    var i := Find(t, id);
    if i != SENTINEL && i < |t| then t[..i] + t[i + 1..] else t
  }

  /** Erase, append, sort: what `registerFunction` does to the pairs. */
  function Registered(t: Table, id: Hash, d: Delegate): Table {
    Sort(Erased(t, id) + [(id, d)])
  }

  lemma FoundIff(t: Table, id: Hash)
    requires Sorted(t) && !Hidden(t, id)
    ensures var i := Find(t, id);
            (i < |t| <==> i != SENTINEL) && (i < |t| <==> exists k :: 0 <= k < |t| && t[k].0 == id) &&
            (i < |t| ==> t[i].0 == id)
  {
    FindIff(t, id);
    hide Find;
    if Full(t) {
      DenseHashes(t, id);
      assert t[id].0 == id;
    } else {
      AtMostFull(t);
    }
  }

  lemma AtMostFull(t: Table)
    requires Sorted(t)
    ensures |t| <= HASHES
  {
    if |t| > 0 {
      DenseHashes(t, 0);
      hide Sorted;
    }
  }

  lemma RemoveAt(t: Table, i: nat)
    requires i < |t| && DistinctHashes(t)
    ensures var rest := t[..i] + t[i + 1..];
            && multiset(t) == multiset(rest) + multiset{t[i]} && DistinctHashes(rest)
            && forall k | 0 <= k < |rest| :: rest[k].0 != t[i].0
  {
    TakenOut(t, i);
    var rest := t[..i] + t[i + 1..];
    assert forall k | 0 <= k < |rest| :: rest[k] == if k < i then t[k] else t[k + 1];
  }

  lemma TakenOut(t: Table, i: nat)
    requires i < |t|
    ensures multiset(t) == multiset(t[..i] + t[i + 1..]) + multiset{t[i]}
  {
    assert t == t[..i] + ([t[i]] + t[i + 1..]);
  }

  lemma ErasedIs(t: Table, id: Hash)
    requires Sorted(t) && !Hidden(t, id)
    ensures var rest := Erased(t, id);
            && DistinctHashes(rest) && (forall k | 0 <= k < |rest| :: rest[k].0 != id)
            && multiset(rest) == if Find(t, id) < |t| then multiset(t) - multiset{t[Find(t, id)]} else multiset(t)
  {
    hide Find;
    FoundIff(t, id);
    SortedDistinct(t);
    hide Sorted;
    if Find(t, id) < |t| {
      RemoveAt(t, Find(t, id));
    }
  }

  lemma ErasedPairs(t: Table, id: Hash, h: Hash, d: Delegate)
    requires Sorted(t) && !Hidden(t, id)
    ensures (h, d) in Erased(t, id) <==> (h, d) in t && h != id
  {
    ErasedIs(t, id);
    FoundIff(t, id);
    hide Erased, Find, Sorted;
    assert (h, d) in Erased(t, id) <==> (h, d) in multiset(Erased(t, id));
    assert (h, d) in t <==> (h, d) in multiset(t);
  }

  lemma Pushed(rest: Table, id: Hash, d: Delegate)
    requires DistinctHashes(rest) && forall k | 0 <= k < |rest| :: rest[k].0 != id
    ensures DistinctHashes(rest + [(id, d)])
  {
  }

  lemma SameMembers(a: Table, b: Table, h: Hash, d: Delegate)
    requires multiset(a) == multiset(b)
    ensures (h, d) in a <==> (h, d) in b
  {
    assert (h, d) in a <==> (h, d) in multiset(a);
    assert (h, d) in b <==> (h, d) in multiset(b);
  }

  /** Registering keeps the table strictly sorted and replaces or adds one entry of the map; one pair
      comes in, and the pair it replaces goes. */
  lemma {:induction false} RegisteredIs(t: Table, id: Hash, d: Delegate)
    requires Sorted(t) && !Hidden(t, id)
    ensures var r := Registered(t, id, d);
            && Sorted(r) && View(r) == View(t)[id := d]
            && multiset(r) == multiset(Erased(t, id)) + multiset{(id, d)}
  {
    hide Find, Sort, View, Erased, Sorted, DistinctHashes;
    var pushed, r := Erased(t, id) + [(id, d)], Registered(t, id, d);
    ErasedIs(t, id);
    Pushed(Erased(t, id), id, d);
    SortIs(pushed);
    SortedDistinct(r);
    SortedDistinct(t);
    ViewIs(r);
    ViewIs(t);
    forall h: Hash, x: Delegate ensures Maps(View(r), h, x) <==> Maps(View(t)[id := d], h, x) {
      SameMembers(r, pushed, h, x);
      ErasedPairs(t, id, h, x);
      assert (h, x) in pushed <==> (h, x) in Erased(t, id) || (h, x) == (id, d);
      assert Maps(View(t), h, x) <==> (h, x) in t;
    }
    SameMap(View(r), View(t)[id := d]);
  }

  /** In the full table the largest hash is not found, so a second pair is added for it. */
  lemma RegisteredHidden(t: Table, id: Hash, d: Delegate)
    requires Sorted(t) && Hidden(t, id)
    ensures Find(t, id) == SENTINEL && Erased(t, id) == t
    ensures multiset(Registered(t, id, d)) == multiset(t) + multiset{(id, d)}
  {
    FindIff(t, id);
    SortSame(t + [(id, d)]);
  }

  /** That is the one case in which registering does not keep the table strictly sorted. */
  lemma RegisteredSortedIff(t: Table, id: Hash, d: Delegate)
    requires Sorted(t)
    ensures Sorted(Registered(t, id, d)) <==> !Hidden(t, id)
  {
    if Hidden(t, id) {
      RegisteredHidden(t, id, d);
      var r := Registered(t, id, d);
      assert |r| == |multiset(r)| == HASHES + 1;
      if Sorted(r) {
        AtMostFull(r);
      }
    } else {
      RegisteredIs(t, id, d);
    }
  }

  /** What `registerFunction` does, in the terms of its steps. */
  lemma {:induction false} RegisterFacts(t: Table, id: Hash, d: Delegate)
    requires Sorted(t)
    ensures var i := Find(t, id); var r := Registered(t, id, d);
            && (i != SENTINEL <==> id in View(t) && !Hidden(t, id))
            && (i != SENTINEL ==> i < |t| && t[i] == (id, View(t)[id]) && multiset(t) == multiset(Erased(t, id)) + multiset{t[i]})
            && (i == SENTINEL ==> Erased(t, id) == t)
            && multiset(r) == multiset(Erased(t, id)) + multiset{(id, d)}
            && (Sorted(r) <==> !Hidden(t, id))
            && (!Hidden(t, id) ==> View(r) == View(t)[id := d])
  {
    RegisteredSortedIff(t, id, d);
    LookupIsView(t, id);
    if !Hidden(t, id) {
      RegisteredIs(t, id, d);
      FoundIff(t, id);
      ErasedIs(t, id);
    } else {
      RegisteredHidden(t, id, d);
    }
  }

  // ---------------------------------------------------------------- the class

  datatype Execution = NoContext | NotFound | Refused | Called(delegate: Delegate)

  class DesuraJSBase {
    var delegates: Table
    /** The pairs whose delegates have been destroyed. */
    var destroyed: multiset<(Hash, Delegate)>

    ghost predicate Valid()
      reads this
    {
      Sorted(delegates)
    }

    /** The delegates handed over: in the table or destroyed. */
    ghost function Owned(): multiset<(Hash, Delegate)>
      reads this
    {
      multiset(delegates) + destroyed
    }

    constructor ()
      ensures Valid() && delegates == [] && destroyed == multiset{}
    {
      delegates, destroyed := [], multiset{};
    }

    method RegisterFunction(id: Hash, d: Delegate)
      requires Valid()
      modifies this
      ensures Valid() <==> !Hidden(old(delegates), id)
      ensures !Hidden(old(delegates), id) ==> View(delegates) == View(old(delegates))[id := d]
      ensures Owned() == old(Owned()) + multiset{(id, d)}
      ensures var was := View(old(delegates));
              destroyed == old(destroyed) +
                           if id in was && !Hidden(old(delegates), id) then multiset{(id, was[id])} else multiset{}
    {
      hide View, Sort, Find, Sorted, Hidden, Full;
      ghost var t := delegates;
      RegisterFacts(t, id, d);
      var index := Find(delegates, id);
      if index != SENTINEL {
        destroyed := destroyed + multiset{delegates[index]};
        delegates := delegates[..index] + delegates[index + 1..];
      }
      assert delegates == Erased(t, id);
      assert multiset(t) + old(destroyed) == multiset(delegates) + destroyed;
      delegates := delegates + [(id, d)];
      delegates := Sort(delegates);
    }

    /** `execute`: `allowed` is what preExecuteValidation answers, `ready` whether the call has a
        factory and a function name. */
    method Execute(ready: bool, id: Hash, allowed: bool) returns (r: Execution)
      requires Valid()
      ensures r == if !ready then NoContext
                   else if id !in View(delegates) || Hidden(delegates, id) then NotFound
                   else if !allowed then Refused
                   else Called(View(delegates)[id])
    {
      hide View, Find;
      if !ready {
        return NoContext;
      }
      LookupIsView(delegates, id);
      var index := Find(delegates, id);
      if index == SENTINEL {
        return NotFound;
      }
      if !allowed {
        return Refused;
      }
      r := Called(delegates[index].1);
    }

    /** The destructor. */
    method Destroy()
      modifies this
      ensures destroyed == old(Owned())
    {
      for x := 0 to |delegates|
        invariant delegates == old(delegates)
        invariant destroyed == old(destroyed) + multiset(delegates[..x])
      {
        assert delegates[..x + 1] == delegates[..x] + [delegates[x]];
        destroyed := destroyed + multiset{delegates[x]};
      }
      assert delegates[..|delegates|] == delegates;
    }
  }
}
