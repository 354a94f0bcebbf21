/** The ordered set that an event's delegate list and its queue of pending changes stand for. */
module EventFold {
  import opened Wrappers

  /** A delegate object: which one it is, its compare hash, and the callback it carries. */
  datatype Del = Del(id: nat, hash: nat, fn: nat)

  /** One entry of m_vPendingDelegates: add or remove. */
  datatype Pend = Pend(add: bool, del: Del)

  ghost predicate DistinctHashes(live: seq<Del>) {
    forall i, j | 0 <= i < j < |live| :: live[i].hash != live[j].hash
  }

  ghost predicate HasHash(live: seq<Del>, h: nat) {
    exists i :: 0 <= i < |live| && live[i].hash == h
  }

  /** `findInfo`: the first delegate that equals the given one. */
  function Find(live: seq<Del>, h: nat): (r: Option<nat>)
    ensures r.Some? ==> r.value < |live| && live[r.value].hash == h && forall i | 0 <= i < r.value :: live[i].hash != h
    ensures r.None? <==> !HasHash(live, h)
  {
    if live == [] then None
    else if live[0].hash == h then Some(0)
    else
      var r := Find(live[1..], h);
      assert HasHash(live, h) <==> HasHash(live[1..], h) by {
        if HasHash(live[1..], h) {
          var i :| 0 <= i < |live[1..]| && live[1..][i].hash == h;
          assert live[i + 1].hash == h;
        }
        if HasHash(live, h) {
          var i :| 0 <= i < |live| && live[i].hash == h;
          assert live[1..][i - 1].hash == h;
        }
      }
      if r.None? then None else Some(r.value + 1)
  }

  function Without(live: seq<Del>, i: nat): seq<Del>
    requires i < |live|
  {
    live[..i] + live[i + 1..]
  }

  /** One pending change applied to the list. */
  function Change(live: seq<Del>, p: Pend): seq<Del> {
    var at := Find(live, p.del.hash);
    if p.add then
      if at.None? then live + [p.del] else live
    else
      if at.None? then live else Without(live, at.value)
  }

  /** The delegates one pending change destroys. */
  function Dead(live: seq<Del>, p: Pend): seq<Del> {
    var at := Find(live, p.del.hash);
    if p.add then
      if at.None? then [] else [p.del]
    else
      if at.None? then [p.del] else [p.del, live[at.value]]
  }

  function Fold(live: seq<Del>, pending: seq<Pend>): seq<Del>
    decreases |pending|
  {
    if pending == [] then live
    else Change(Fold(live, pending[..|pending| - 1]), pending[|pending| - 1])
  }

  function FoldDead(live: seq<Del>, pending: seq<Pend>): seq<Del>
    decreases |pending|
  {
    if pending == [] then []
    else
      var rest, p := pending[..|pending| - 1], pending[|pending| - 1];
      FoldDead(live, rest) + Dead(Fold(live, rest), p)
  }

  function Dels(pending: seq<Pend>): (r: seq<Del>)
    ensures |r| == |pending| && forall i | 0 <= i < |r| :: r[i] == pending[i].del
  {
    seq(|pending|, i requires 0 <= i < |pending| => pending[i].del)
  }

  // ---------------------------------------------------------------- what folding means

  lemma {:induction false} FoldSnoc(live: seq<Del>, pending: seq<Pend>, p: Pend)
    ensures Fold(live, pending + [p]) == Change(Fold(live, pending), p)
    ensures FoldDead(live, pending + [p]) == FoldDead(live, pending) + Dead(Fold(live, pending), p)
  {
    assert (pending + [p])[..|pending|] == pending;
  }

  lemma {:induction false} FoldConcat(live: seq<Del>, p: seq<Pend>, q: seq<Pend>)
    ensures Fold(live, p + q) == Fold(Fold(live, p), q)
    decreases |q|
  {
    if q == [] {
      assert p + q == p;
    } else {
      assert (p + q)[..|p + q| - 1] == p + q[..|q| - 1];
      FoldConcat(live, p, q[..|q| - 1]);
    }
  }

  lemma ChangeDistinct(live: seq<Del>, p: Pend)
    requires DistinctHashes(live)
    ensures DistinctHashes(Change(live, p))
  {
    if p.add && Find(live, p.del.hash).None? {
      var r := live + [p.del];
      forall i, j | 0 <= i < j < |r| ensures r[i].hash != r[j].hash {
        if j == |live| {
          assert HasHash(live, live[i].hash);
        }
      }
    }
  }

  lemma {:induction false} FoldDistinct(live: seq<Del>, pending: seq<Pend>)
    requires DistinctHashes(live)
    ensures DistinctHashes(Fold(live, pending))
    decreases |pending|
  {
    if pending != [] {
      var rest := pending[..|pending| - 1];
      FoldDistinct(live, rest);
      ChangeDistinct(Fold(live, rest), pending[|pending| - 1]);
    }
  }

  lemma ChangeMember(live: seq<Del>, p: Pend, h: nat)
    requires DistinctHashes(live)
    ensures HasHash(Change(live, p), h) <==> (if p.del.hash == h then p.add else HasHash(live, h))
  {
    var at := Find(live, p.del.hash);
    var r := Change(live, p);
    if p.add && at.None? {
      assert r[|live|] == p.del;
      if HasHash(live, h) {
        var i :| 0 <= i < |live| && live[i].hash == h;
        assert r[i].hash == h;
      }
    } else if !p.add && at.Some? {
      var k := at.value;
      if HasHash(live, h) && h != p.del.hash {
        var i :| 0 <= i < |live| && live[i].hash == h;
        assert r[if i < k then i else i - 1].hash == h;
      }
      if HasHash(r, h) {
        var i :| 0 <= i < |r| && r[i].hash == h;
        assert live[if i < k then i else i + 1].hash == h;
      }
    }
  }

  /** The last pending change about a hash, if there is one. */
  function LastAbout(pending: seq<Pend>, h: nat): Option<bool>
    decreases |pending|
  {
    if pending == [] then None
    else
      var p := pending[|pending| - 1];
      if p.del.hash == h then Some(p.add) else LastAbout(pending[..|pending| - 1], h)
  }

  /** Folding makes a hash a member exactly when the last change about it was an add, or nothing was
      pending about it and it was a member before. */
  lemma {:induction false} FoldMember(live: seq<Del>, pending: seq<Pend>, h: nat)
    requires DistinctHashes(live)
    ensures HasHash(Fold(live, pending), h) <==> LastAbout(pending, h).GetOr(HasHash(live, h))
    decreases |pending|
  {
    if pending != [] {
      var rest, p := pending[..|pending| - 1], pending[|pending| - 1];
      assert pending == rest + [p];
      FoldSnoc(live, rest, p);
      FoldDistinct(live, rest);
      ChangeMember(Fold(live, rest), p, h);
      FoldMember(live, rest, h);
    }
  }

  /** When the delegate now standing for hash `h` joined: a queue position, or, for one that was live
      before the queue, its place in the list counted up to zero. */
  ghost function Joined(live: seq<Del>, pending: seq<Pend>, h: nat): int
    decreases |pending|
  {
    if pending == [] then
      var at := Find(live, h);
      if at.Some? then at.value - |live| else 0
    else
      var rest, p := pending[..|pending| - 1], pending[|pending| - 1];
      if p.add && p.del.hash == h && !HasHash(Fold(live, rest), h) then |rest| else Joined(live, rest, h)
  }

  /** The delegate that joined at that time. */
  ghost predicate JoinedAs(live: seq<Del>, pending: seq<Pend>, t: int, d: Del) {
    if t < 0 then -|live| <= t && live[|live| + t] == d
    else t < |pending| && pending[t].add && pending[t].del == d
  }

  ghost predicate InOrder(live: seq<Del>, pending: seq<Pend>, r: seq<Del>) {
    && (forall i | 0 <= i < |r| :: JoinedAs(live, pending, Joined(live, pending, r[i].hash), r[i]))
    && forall i, j | 0 <= i < j < |r| :: Joined(live, pending, r[i].hash) < Joined(live, pending, r[j].hash)
  }

  lemma {:induction false} JoinedKept(live: seq<Del>, rest: seq<Pend>, p: Pend, m: seq<Del>)
    requires m == Fold(live, rest) && InOrder(live, rest, m)
    ensures InOrder(live, rest + [p], m)
    ensures forall i | 0 <= i < |m| :: Joined(live, rest + [p], m[i].hash) < |rest|
  {
    assert (rest + [p])[..|rest|] == rest;
    forall i | 0 <= i < |m| ensures Joined(live, rest + [p], m[i].hash) == Joined(live, rest, m[i].hash) {
      assert HasHash(m, m[i].hash);
    }
  }

  lemma {:induction false} OrderStep(live: seq<Del>, rest: seq<Pend>, p: Pend, m: seq<Del>)
    requires m == Fold(live, rest) && InOrder(live, rest, m)
    ensures InOrder(live, rest + [p], Change(m, p))
  {
    JoinedKept(live, rest, p, m);
    var at := Find(m, p.del.hash);
    if p.add && at.None? {
      assert (rest + [p])[..|rest|] == rest;
      InOrderAppend(live, rest + [p], m, p.del);
    } else if !p.add && at.Some? {
      InOrderWithout(live, rest + [p], m, at.value);
    }
  }

  lemma {:induction false} InOrderAppend(live: seq<Del>, q: seq<Pend>, m: seq<Del>, d: Del)
    requires InOrder(live, q, m) && JoinedAs(live, q, Joined(live, q, d.hash), d)
    requires forall i | 0 <= i < |m| :: Joined(live, q, m[i].hash) < Joined(live, q, d.hash)
    ensures InOrder(live, q, m + [d])
  {
  }

  lemma InOrderWithout(live: seq<Del>, q: seq<Pend>, m: seq<Del>, k: nat)
    requires InOrder(live, q, m) && k < |m|
    ensures InOrder(live, q, Without(m, k))
  {
    var r := Without(m, k);
    assert forall i | 0 <= i < |r| :: r[i] == m[if i < k then i else i + 1];
  }

  /** The folded list is ordered by the time its delegates joined, and each of them is the delegate
      object that joined then: a later duplicate never replaces it. */
  lemma {:induction false} FoldOrder(live: seq<Del>, pending: seq<Pend>)
    requires DistinctHashes(live)
    ensures InOrder(live, pending, Fold(live, pending))
    decreases |pending|
  {
    if pending == [] {
      forall i | 0 <= i < |live| ensures Joined(live, [], live[i].hash) == i - |live| {
        assert HasHash(live, live[i].hash);
      }
    } else {
      var rest, p := pending[..|pending| - 1], pending[|pending| - 1];
      assert pending == rest + [p];
      FoldSnoc(live, rest, p);
      FoldOrder(live, rest);
      OrderStep(live, rest, p, Fold(live, rest));
    }
  }

  // ---------------------------------------------------------------- conservation

  /** A remove destroys its own clone first, and then the delegate it removes, if there is one; an add
      destroys its clone if it finds the hash taken. */
  lemma DeadIs(live: seq<Del>, p: Pend)
    ensures var dead := Dead(live, p);
            if p.add then dead == (if HasHash(live, p.del.hash) then [p.del] else [])
            else |dead| == (if HasHash(live, p.del.hash) then 2 else 1) && dead[0] == p.del &&
                 (|dead| == 2 ==> dead[1] in live && dead[1].hash == p.del.hash)
  {
  }

  lemma ChangeConserves(live: seq<Del>, p: Pend)
    ensures multiset(Change(live, p)) + multiset(Dead(live, p)) == multiset(live) + multiset{p.del}
  {
    var at := Find(live, p.del.hash);
    if !p.add && at.Some? {
      var i := at.value;
      assert live == live[..i] + [live[i]] + live[i + 1..];
    }
  }

  lemma Regroup(c: multiset<Del>, d: multiset<Del>, f: multiset<Del>, e: multiset<Del>, l: multiset<Del>, r: multiset<Del>, p: Del)
    requires f + e == l + r && c + d == f + multiset{p}
    ensures c + (e + d) == l + (r + multiset{p})
  {
    calc {
      c + (e + d);
      (c + d) + e;
      (f + e) + multiset{p};
    }
  }

  lemma MultisetConcat(a: seq<Del>, b: seq<Del>)
    ensures multiset(a + b) == multiset(a) + multiset(b)
  {
  }

  lemma DelsSnoc(pending: seq<Pend>, p: Pend)
    ensures multiset(Dels(pending + [p])) == multiset(Dels(pending)) + multiset{p.del}
  {
    assert Dels(pending + [p]) == Dels(pending) + [p.del];
  }

  /** Every delegate that was live or pending is afterwards live or destroyed, once. */
  lemma {:induction false} FoldConserves(live: seq<Del>, pending: seq<Pend>)
    ensures multiset(Fold(live, pending)) + multiset(FoldDead(live, pending)) == multiset(live) + multiset(Dels(pending))
    decreases |pending|
  {
    if pending != [] {
      var rest, p := pending[..|pending| - 1], pending[|pending| - 1];
      FoldConserves(live, rest);
      assert pending == rest + [p];
      FoldConservesStep(live, rest, p);
    }
  }

  lemma {:induction false} FoldConservesStep(live: seq<Del>, rest: seq<Pend>, p: Pend)
    requires multiset(Fold(live, rest)) + multiset(FoldDead(live, rest)) == multiset(live) + multiset(Dels(rest))
    ensures multiset(Fold(live, rest + [p])) + multiset(FoldDead(live, rest + [p])) == multiset(live) + multiset(Dels(rest + [p]))
  {
    var mid := Fold(live, rest);
    ChangeConserves(mid, p);
    FoldSnoc(live, rest, p);
    DelsSnoc(rest, p);
    MultisetConcat(FoldDead(live, rest), Dead(mid, p));
    hide Fold, FoldDead, Change, Dead, Dels;
    Regroup(multiset(Change(mid, p)), multiset(Dead(mid, p)), multiset(mid), multiset(FoldDead(live, rest)),
            multiset(live), multiset(Dels(rest)), p.del);
  }
}
