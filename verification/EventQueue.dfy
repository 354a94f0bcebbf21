/** EventBase used from one thread at a time: the delegate list, the queue of pending changes, and
    a ledger of who owns every delegate object. */
module EventQueue {
  import opened Wrappers
  import opened EventFold
  import opened Subsequences

  /** What a caller names when it writes `event += delegate(...)`. */
  datatype Target = Target(hash: nat, fn: nat)

  /** The delegates of `live` that are still valid. */
  function Valids(live: seq<Del>, canceled: set<nat>): seq<Del> {
    if live == [] then []
    else
      var rest, d := live[..|live| - 1], live[|live| - 1];
      if d.id in canceled then Valids(rest, canceled) else Valids(rest, canceled) + [d]
  }

  function Invalids(live: seq<Del>, canceled: set<nat>): seq<Del> {
    if live == [] then []
    else
      var rest, d := live[..|live| - 1], live[|live| - 1];
      if d.id in canceled then Invalids(rest, canceled) + [d] else Invalids(rest, canceled)
  }

  lemma {:induction false} ValidsAre(live: seq<Del>, canceled: set<nat>)
    ensures forall d :: d in Valids(live, canceled) <==> d in live && d.id !in canceled
    ensures (forall d | d in live :: d.id !in canceled) <==> Valids(live, canceled) == live
  {
    if live != [] {
      var rest, d := live[..|live| - 1], live[|live| - 1];
      assert live == rest + [d];
      ValidsAre(rest, canceled);
      if d.id in canceled {
        assert d !in Valids(live, canceled);
      }
    }
  }

  /** What is kept stays in its order. */
  lemma {:induction false} ValidsOrder(live: seq<Del>, canceled: set<nat>)
    ensures Subsequence(Valids(live, canceled), live)
  {
    if live == [] {
      NothingPicked<Del>();
    } else {
      var rest, d := live[..|live| - 1], live[|live| - 1];
      assert live == rest + [d];
      ValidsOrder(rest, canceled);
      NotPicked(Valids(rest, canceled), rest, d);
      Picked(Valids(rest, canceled), rest, d);
      hide Subsequence;
    }
  }

  lemma {:induction false} KeptInOrder(live: seq<Del>, canceled: set<nat>)
    ensures Subsequence(Valids(live, canceled), live)
    ensures forall d :: d in Valids(live, canceled) <==> d in live && d.id !in canceled
  {
    hide Subsequence;
    ValidsOrder(live, canceled);
    ValidsAre(live, canceled);
  }

  /** What is dropped stays in its order as well, and that is the cancelled delegates. */
  lemma {:induction false} InvalidsAre(live: seq<Del>, canceled: set<nat>)
    ensures Subsequence(Invalids(live, canceled), live)
    ensures forall d :: d in Invalids(live, canceled) <==> d in live && d.id in canceled
  {
    if live == [] {
      NothingPicked<Del>();
    } else {
      var rest, d := live[..|live| - 1], live[|live| - 1];
      assert live == rest + [d];
      InvalidsAre(rest, canceled);
      NotPicked(Invalids(rest, canceled), rest, d);
      Picked(Invalids(rest, canceled), rest, d);
      hide Subsequence;
    }
  }

  lemma {:induction false} ValidsConserve(live: seq<Del>, canceled: set<nat>)
    ensures multiset(Valids(live, canceled)) + multiset(Invalids(live, canceled)) == multiset(live)
  {
    if live != [] {
      ValidsConserve(live[..|live| - 1], canceled);
      assert live == live[..|live| - 1] + [live[|live| - 1]];
    }
  }

  lemma {:induction false} ValidsDistinct(live: seq<Del>, canceled: set<nat>)
    requires DistinctHashes(live)
    ensures DistinctHashes(Valids(live, canceled))
  {
    if live != [] {
      var rest := live[..|live| - 1];
      ValidsDistinct(rest, canceled);
      ValidsAre(rest, canceled);
      var r := Valids(rest, canceled);
      forall j | 0 <= j < |r| ensures r[j].hash != live[|live| - 1].hash {
        assert r[j] in rest;
      }
    }
  }

  /** The ordered set an event stands for: what its next dispatch would call. */
  function Observed(live: seq<Del>, pending: seq<Pend>, canceled: set<nat>): seq<Del> {
    Fold(Valids(live, canceled), pending)
  }

  /** Entry `t` of the queue adds a hash that the entries before it leave absent, and no later entry
      removes that hash: its delegate will be in the list. */
  ghost predicate Stays(live: seq<Del>, pending: seq<Pend>, t: nat) {
    t < |pending| && pending[t].add &&
    var h := pending[t].del.hash;
    !LastAbout(pending[..t], h).GetOr(HasHash(live, h)) && NotRemovedAfter(pending, t, h)
  }

  ghost predicate NotRemovedAfter(pending: seq<Pend>, t: nat, h: nat) {
    forall u | t < u < |pending| && pending[u].del.hash == h :: pending[u].add
  }

  /** No delegate that the queue will bring in has been cancelled. */
  ghost predicate JoinersValid(live: seq<Del>, pending: seq<Pend>, canceled: set<nat>) {
    forall t: nat | Stays(Valids(live, canceled), pending, t) :: pending[t].del.id !in canceled
  }

  lemma ChangeHolds(live: seq<Del>, p: Pend, d: Del)
    requires DistinctHashes(live)
    ensures d in Change(live, p) <==>
              (d in live && (p.add || p.del.hash != d.hash)) || (p.add && !HasHash(live, p.del.hash) && d == p.del)
  {
    var at := Find(live, p.del.hash);
    if !p.add && at.Some? {
      var k, r := at.value, Change(live, p);
      if d in live && d.hash != p.del.hash {
        var i :| 0 <= i < |live| && live[i] == d;
        assert r[if i < k then i else i - 1] == d;
      }
      if d in r {
        var i :| 0 <= i < |r| && r[i] == d;
        assert live[if i < k then i else i + 1] == d;
      }
    } else if d in live && at.None? {
      var i :| 0 <= i < |live| && live[i] == d;
      assert !(live[i].hash == p.del.hash);
    }
  }

  lemma {:induction false} StaysSnoc(live: seq<Del>, rest: seq<Pend>, p: Pend, t: nat)
    ensures t < |rest| ==> (Stays(live, rest + [p], t) <==> Stays(live, rest, t) && (p.del.hash == rest[t].del.hash ==> p.add))
    ensures Stays(live, rest + [p], |rest|) <==> p.add && !LastAbout(rest, p.del.hash).GetOr(HasHash(live, p.del.hash))
  {
    hide LastAbout, HasHash;
    var q := rest + [p];
    assert q[..|rest|] == rest;
    if t < |rest| {
      assert q[..t] == rest[..t];
      var h := rest[t].del.hash;
      assert forall u | t < u < |rest| :: q[u] == rest[u];
      assert NotRemovedAfter(q, t, h) <==> NotRemovedAfter(rest, t, h) && (p.del.hash == h ==> p.add) by {
        assert q[|rest|] == p;
      }
    }
  }

  ghost predicate StaysAs(live: seq<Del>, pending: seq<Pend>, d: Del) {
    exists t: nat :: Stays(live, pending, t) && pending[t].del == d
  }

  ghost predicate NoLongerRemoved(pending: seq<Pend>, h: nat) {
    forall u | 0 <= u < |pending| && pending[u].del.hash == h :: pending[u].add
  }

  lemma {:induction false} StaysAsSnoc(live: seq<Del>, rest: seq<Pend>, p: Pend, d: Del)
    ensures StaysAs(live, rest + [p], d) <==>
              (StaysAs(live, rest, d) && (p.del.hash == d.hash ==> p.add)) ||
              (p.add && !LastAbout(rest, p.del.hash).GetOr(HasHash(live, p.del.hash)) && d == p.del)
  {
    var q := rest + [p];
    assert forall t | 0 <= t < |rest| :: q[t] == rest[t];
    assert q[|rest|] == p;
    hide Stays, LastAbout, HasHash;
    forall t: nat ensures t < |rest| ==> (Stays(live, q, t) <==> Stays(live, rest, t) && (p.del.hash == rest[t].del.hash ==> p.add)) {
      StaysSnoc(live, rest, p, t);
    }
    StaysSnoc(live, rest, p, 0);
    StaysBound(live, q);
    StaysBound(live, rest);
    if StaysAs(live, rest, d) && (p.del.hash == d.hash ==> p.add) {
      var t: nat :| Stays(live, rest, t) && rest[t].del == d;
      assert Stays(live, q, t);
    }
    if StaysAs(live, q, d) {
      var t: nat :| Stays(live, q, t) && q[t].del == d;
      assert t < |rest| ==> Stays(live, rest, t);
    }
  }

  lemma StaysBound(live: seq<Del>, pending: seq<Pend>)
    ensures forall t: nat | Stays(live, pending, t) :: t < |pending|
  {
  }

  /** What is in the migrated list: what was there and is not removed, and what the queue brings in. */
  lemma {:induction false} FoldHolds(live: seq<Del>, pending: seq<Pend>, d: Del)
    requires DistinctHashes(live)
    ensures d in Fold(live, pending) <==> (d in live && NoLongerRemoved(pending, d.hash)) || StaysAs(live, pending, d)
    decreases |pending|
  {
    if pending == [] {
      assert forall t: nat :: !Stays(live, [], t);
    } else {
      var rest, p := pending[..|pending| - 1], pending[|pending| - 1];
      assert pending == rest + [p];
      FoldHolds(live, rest, d);
      FoldSnoc(live, rest, p);
      FoldDistinct(live, rest);
      ChangeHolds(Fold(live, rest), p, d);
      FoldMember(live, rest, p.del.hash);
      StaysAsSnoc(live, rest, p, d);
      assert NoLongerRemoved(pending, d.hash) <==> NoLongerRemoved(rest, d.hash) && (p.del.hash == d.hash ==> p.add);
    }
  }

  /** Moving the queue into the list is invisible exactly when no delegate that the queue will bring in
      has been cancelled. */
  lemma MigrationInvisibleIff(live: seq<Del>, pending: seq<Pend>, canceled: set<nat>)
    requires DistinctHashes(live)
    ensures var now := Observed(live, pending, canceled);
            Observed(now, [], canceled) == now <==> JoinersValid(live, pending, canceled)
  {
    var base, now := Valids(live, canceled), Observed(live, pending, canceled);
    ValidsDistinct(live, canceled);
    ValidsAre(live, canceled);
    ValidsAre(now, canceled);
    hide Stays, Valids, Fold, NoLongerRemoved, DistinctHashes;
    forall d ensures d in now <==> (d in base && NoLongerRemoved(pending, d.hash)) || StaysAs(base, pending, d) {
      FoldHolds(base, pending, d);
    }
    ObservedUnqueued(now, canceled);
    if JoinersValid(live, pending, canceled) {
      forall d | d in now ensures d.id !in canceled {
        if StaysAs(base, pending, d) {
          var t: nat :| Stays(base, pending, t) && pending[t].del == d;
        }
      }
    }
    if forall d | d in now :: d.id !in canceled {
      forall t: nat | Stays(base, pending, t) ensures pending[t].del.id !in canceled {
        StaysBound(base, pending);
        assert StaysAs(base, pending, pending[t].del);
      }
    }
  }

  /** A queued delegate that is cancelled before it is moved is observed until then, and gone after. */
  lemma CanceledShows(h: nat, fn: nat)
    ensures var p := Pend(true, Del(1, h, fn)); var now := Observed([], [p], {1});
            DistinctHashes([]) && !JoinersValid([], [p], {1}) && now == [p.del] && Observed(now, [], {1}) == []
  {
    var p := Pend(true, Del(1, h, fn));
    assert Fold([], [p]) == Change(Fold([], []), p);
    assert Valids([], {1}) == [];
    assert [p][..0] == [];
    assert Stays([], [p], 0);
    assert Valids([p.del], {1}) == Valids([], {1});
  }

  lemma {:induction false} ObservedUnqueued(live: seq<Del>, canceled: set<nat>)
    ensures Observed(live, [], canceled) == Valids(live, canceled)
  {
  }

  // ---------------------------------------------------------------- the ledger

  /** Each delegate in `made` is in one of the three places, once. */
  ghost predicate Owns(live: seq<Del>, pending: seq<Pend>, gone: seq<Del>, made: seq<Del>) {
    multiset(live) + multiset(Dels(pending)) + multiset(gone) == multiset(made)
  }

  lemma {:induction false} OwnsMigrated(live: seq<Del>, pending: seq<Pend>, gone: seq<Del>, made: seq<Del>, canceled: set<nat>)
    requires Owns(live, pending, gone, made) && DistinctHashes(live)
    ensures var gone' := gone + Invalids(live, canceled) + FoldDead(Valids(live, canceled), pending);
            Owns(Observed(live, pending, canceled), [], gone', made)
    ensures DistinctHashes(Observed(live, pending, canceled))
  {
    var v, i := Valids(live, canceled), Invalids(live, canceled);
    ValidsConserve(live, canceled);
    FoldConserves(v, pending);
    ValidsDistinct(live, canceled);
    FoldDistinct(v, pending);
    var dead := FoldDead(v, pending);
    MultisetConcat(gone + i, dead);
    MultisetConcat(gone, i);
    assert Dels([]) == [];
    hide Valids, Invalids, Fold, FoldDead, Dels;
    OwnsSums(multiset(live), multiset(Dels(pending)), multiset(gone), multiset(v), multiset(i), multiset(Fold(v, pending)), multiset(dead));
  }

  lemma OwnsSums(l: multiset<Del>, q: multiset<Del>, g: multiset<Del>, v: multiset<Del>, i: multiset<Del>, f: multiset<Del>, d: multiset<Del>)
    requires v + i == l && f + d == v + q
    ensures f + multiset{} + (g + i + d) == l + q + g
  {
    calc {
      f + multiset{} + (g + i + d);
      (f + d) + i + g;
      (v + i) + q + g;
    }
  }

  lemma OwnsEnqueued(live: seq<Del>, pending: seq<Pend>, gone: seq<Del>, made: seq<Del>, d: Del, p: Pend)
    requires Owns(live, pending, gone, made)
    ensures Owns(live, pending + [p], gone + [d], made + [d] + [p.del])
  {
    DelsSnoc(pending, p);
  }

  lemma OwnsCloned(live: seq<Del>, pending: seq<Pend>, gone: seq<Del>, made: seq<Del>, c: Del)
    requires Owns(live, pending, gone, made)
    ensures Owns(live + [c], pending, gone, made + [c])
  {
  }

  lemma OwnsListDestroyed(live: seq<Del>, pending: seq<Pend>, gone: seq<Del>, made: seq<Del>)
    requires Owns(live, pending, gone, made)
    ensures Owns([], pending, gone + live, made)
    ensures Owns([], [], gone + live + Dels(pending), made)
  {
  }

  /** Queueing a change applies it to the observed set. Migrating it then leaves that as it is exactly
      when nothing that the queue brings in has been cancelled. */
  lemma EnqueueObserved(live: seq<Del>, pending: seq<Pend>, canceled: set<nat>, p: Pend)
    requires DistinctHashes(live)
    ensures var now := Observed(live, pending + [p], canceled);
            && now == Change(Observed(live, pending, canceled), p)
            && (Observed(now, [], canceled) == now <==> JoinersValid(live, pending + [p], canceled))
  {
    FoldSnoc(Valids(live, canceled), pending, p);
    MigrationInvisibleIff(live, pending + [p], canceled);
  }

  class EventBase {
    var live: seq<Del>                // m_vDelegates
    var pending: seq<Pend>            // m_vPendingDelegates
    var cancel: bool                  // m_bCancel
    var canceled: set<nat>            // delegates whose isValid() is now false
    var next: nat                     // identity of the next delegate object
    ghost var made: seq<Del>          // every delegate passed to this event or cloned by it
    ghost var destroyed: seq<Del>     // in the order destroy() was called

    /** Each delegate this event was given or made is in one place: queue, list or destroyed. */
    ghost predicate Accounted()
      reads this
    {
      && next == |made| && (forall i | 0 <= i < |made| :: made[i].id == i)
      && Owns(live, pending, destroyed, made)
      && !cancel
    }

    ghost predicate Valid()
      reads this
    {
      Accounted() && DistinctHashes(live)
    }

    ghost function Now(): seq<Del>
      reads this
    {
      Observed(live, pending, canceled)
    }

    constructor ()
      ensures Valid() && live == [] && pending == [] && made == [] && canceled == {}
    {
      live, pending, cancel, canceled := [], [], false, {};
      next, made, destroyed := 0, [], [];
    }

    /** A delegate object comes into existence: an argument of `+=`, or a clone. */
    method Make(t: Target) returns (d: Del)
      modifies this`next, this`made
      ensures d == Del(old(next), t.hash, t.fn) && made == old(made) + [d] && next == old(next) + 1
    {
      d := Del(next, t.hash, t.fn);
      next := next + 1;
      made := made + [d];
    }

    /** `findInfo`. */
    method FindInfo(h: nat) returns (at: Option<nat>)
      ensures at == Find(live, h)
    {
      var x := 0;
      while x < |live|
        invariant 0 <= x <= |live|
        invariant forall i | 0 <= i < x :: live[i].hash != h
      {
        if live[x].hash == h {
          FirstFound(live, h, x);
          return Some(x);
        }
        x := x + 1;
      }
      return None;
    }

    /** `removeInvalidDelegates`. */
    method RemoveInvalidDelegates()
      modifies this`live, this`destroyed
      ensures live == Valids(old(live), canceled)
      ensures destroyed == old(destroyed) + Invalids(old(live), canceled)
      ensures Subsequence(live, old(live)) && forall d :: d in live <==> d in old(live) && d.id !in canceled
    {
      hide Subsequence;
      KeptInOrder(live, canceled);
      var temp := live;
      live := [];
      var x := 0;
      while x < |temp|
        invariant 0 <= x <= |temp|
        invariant live == Valids(temp[..x], canceled)
        invariant destroyed == old(destroyed) + Invalids(temp[..x], canceled)
      {
        assert temp[..x + 1][..x] == temp[..x];
        if temp[x].id in canceled {
          destroyed := destroyed + [temp[x]];
        } else {
          live := live + [temp[x]];
        }
        x := x + 1;
      }
      assert temp[..x] == temp;
    }

    /** `migratePending`. */
    method MigratePending()
      modifies this`live, this`pending, this`destroyed
      ensures live == old(Now()) && pending == []
      ensures destroyed == old(destroyed + Invalids(live, canceled) + FoldDead(Valids(live, canceled), pending))
    {
      hide Change, Dead, Valids, Invalids;
      RemoveInvalidDelegates();
      ghost var base, dead := live, destroyed;
      var x := 0;
      while x < |pending|
        invariant 0 <= x <= |pending| && pending == old(pending)
        invariant live == Fold(base, pending[..x])
        invariant destroyed == dead + FoldDead(base, pending[..x])
      {
        MigrateOne(pending[x]);
        assert pending[..x + 1] == pending[..x] + [pending[x]];
        FoldSnoc(base, pending[..x], pending[x]);
        x := x + 1;
      }
      assert pending[..x] == pending;
      pending := [];
    }

    /** The body of the loop in `migratePending`. */
    method MigrateOne(p: Pend)
      modifies this`live, this`destroyed
      ensures live == Change(old(live), p) && destroyed == old(destroyed) + Dead(old(live), p)
    {
      var index := FindInfo(p.del.hash);
      if p.add {
        if index.None? {
          live := live + [p.del];
        } else {
          destroyed := destroyed + [p.del];
        }
      } else {
        destroyed := destroyed + [p.del];
        if index.Some? {
          destroyed := destroyed + [live[index.value]];
          live := live[..index.value] + live[index.value + 1..];
        }
      }
    }

    /** The common part of `+=` and `-=`: queue a clone, destroy the argument, and migrate if the
        list is not in use. */
    method Enqueue(add: bool, t: Target, mainFree: bool) returns (p: Pend)
      requires Valid()
      modifies this
      ensures Valid() && canceled == old(canceled)
      ensures p == Pend(add, Del(old(next) + 1, t.hash, t.fn))
      ensures made == old(made) + [Del(old(next), t.hash, t.fn), p.del]
      ensures !mainFree ==> live == old(live) && pending == old(pending) + [p]
      ensures !mainFree ==> destroyed == old(destroyed) + [Del(old(next), t.hash, t.fn)]
      ensures mainFree ==> pending == [] && live == Change(old(Now()), p)
      ensures Now() == Change(old(Now()), p) <==> !mainFree || JoinersValid(old(live), old(pending) + [p], canceled)
    {
      hide Owns, Observed, Fold, FoldDead, Valids, Invalids, DistinctHashes, Find, Change, JoinersValid;
      var d := Make(t);
      var c := Make(t);
      p := Pend(add, c);
      OwnsEnqueued(live, pending, destroyed, old(made), d, p);
      EnqueueObserved(live, pending, canceled, p);
      pending := pending + [p];
      destroyed := destroyed + [d];
      if mainFree {
        OwnsMigrated(live, pending, destroyed, made, canceled);
        MigratePending();
      }
    }

    /** `operator+=(TDel*)`; a null delegate is ignored. */
    method Add(t: Option<Target>, mainFree: bool) returns (p: Option<Pend>)
      requires Valid()
      modifies this
      ensures Valid() && (p.Some? <==> t.Some?)
      ensures t.None? ==> live == old(live) && pending == old(pending) && made == old(made)
      ensures t.Some? ==> p.value.add && p.value.del.hash == t.value.hash && p.value.del.fn == t.value.fn
      ensures t.Some? ==>
                (Now() == Change(old(Now()), p.value) <==> !mainFree || JoinersValid(old(live), old(pending) + [p.value], canceled))
    {
      if t.None? {
        return None;
      }
      var q := Enqueue(true, t.value, mainFree);
      p := Some(q);
    }

    /** `operator-=(TDel*)`. */
    method Remove(t: Option<Target>, mainFree: bool) returns (p: Option<Pend>)
      requires Valid()
      modifies this
      ensures Valid() && (p.Some? <==> t.Some?)
      ensures t.None? ==> live == old(live) && pending == old(pending) && made == old(made)
      ensures t.Some? ==> !p.value.add && p.value.del.hash == t.value.hash
      ensures t.Some? ==>
                (Now() == Change(old(Now()), p.value) <==> !mainFree || JoinersValid(old(live), old(pending) + [p.value], canceled))
    {
      if t.None? {
        return None;
      }
      var q := Enqueue(false, t.value, mainFree);
      p := Some(q);
    }

    method Flush()
      requires Valid()
      modifies this`live, this`pending, this`destroyed
      ensures Valid() && live == old(Now()) && pending == []
    {
      OwnsMigrated(live, pending, destroyed, made, canceled);
      MigratePending();
    }

    /** One callback: it does not touch this event, but may make any delegates invalid. */
    method Call(d: Del)
      modifies this`canceled
      ensures old(canceled) <= canceled
    {
      var more: set<nat> := *;
      canceled := canceled + more;
    }

    /** `operator()`: all that was observed at the start is called, in order, whatever the callbacks make
        invalid; what they do is dealt with by the second migration. */
    method Dispatch() returns (called: seq<Del>)
      requires Valid()
      modifies this`live, this`pending, this`destroyed, this`canceled
      ensures Valid() && pending == [] && old(canceled) <= canceled
      ensures called == old(Now()) && live == Valids(called, canceled)
      ensures Subsequence(live, called) && forall d :: d in live <==> d in called && d.id !in canceled
      ensures old(pending) == [] ==> Subsequence(called, old(live)) && forall d :: d in called <==> d in old(live) && d.id !in old(canceled)
    {
      hide Owns, Fold, FoldDead, Valids, Invalids, DistinctHashes, Find, Subsequence;
      KeptInOrder(live, canceled);
      ObservedUnqueued(live, canceled);
      OwnsMigrated(live, pending, destroyed, made, canceled);
      MigratePending();
      ghost var settled, gone := live, destroyed;
      called := [];
      var x := 0;
      while x < |live|
        invariant 0 <= x <= |live| && called == live[..x] && old(canceled) <= canceled && !cancel
        invariant live == settled && pending == [] && destroyed == gone && made == old(made) && next == old(next)
      {
        called := called + [live[x]];
        Call(live[x]);
        x := x + 1;
        if cancel {
          break;
        }
      }
      KeptInOrder(live, canceled);
      OwnsMigrated(live, pending, destroyed, made, canceled);
      ObservedUnqueued(live, canceled);
      MigratePending();
    }

    /** `reset`. */
    method Reset()
      requires Valid()
      modifies this`live, this`pending, this`destroyed, this`cancel
      ensures Valid() && live == [] && pending == []
      ensures multiset(destroyed) == multiset(made)
      ensures destroyed == old(destroyed + live + Dels(pending))
    {
      OwnsListDestroyed(live, pending, destroyed, made);
      cancel := true;
      destroyed := destroyed + live;
      live := [];
      destroyed := destroyed + Dels(pending);
      pending := [];
      cancel := false;
    }

    /** `operator=(const EventBase&)`: the list of `e` is cloned, the queues stay. An event assigned to
        itself has destroyed its list before it comes to clone it. */
    method AssignFrom(e: EventBase)
      requires Valid() && e.Valid()
      modifies this
      ensures Valid() && canceled == old(canceled) && pending == old(pending)
      ensures if e == this then live == [] else SameTargets(live, old(e.live))
      ensures destroyed == old(destroyed + live) && next == old(next) + |live|
    {
      DestroyList();
      hide Accounted, DistinctHashes, Find, SameTargets;
      SameTargetsNone(e.live);
      ghost var gone, theirs := destroyed, e.live;
      var x := 0;
      while x < |e.live|
        invariant x == |live| <= |theirs| && next == old(next) + x && Accounted()
        invariant e != this ==> e.live == theirs
        invariant e == this ==> live == [] && theirs == []
        invariant SameTargets(live, theirs[..x])
        invariant destroyed == gone && canceled == old(canceled) && pending == old(pending)
      {
        ghost var before := live;
        var c := PushClone(Target(e.live[x].hash, e.live[x].fn));
        SameTargetsNext(before, theirs, x, c);
        x := x + 1;
      }
      assert theirs[..x] == theirs;
      SameTargetsDistinct(live, theirs);
    }

    /** The delegates of the list are destroyed. */
    method DestroyList()
      requires Accounted()
      modifies this`live, this`destroyed
      ensures Accounted() && live == [] && destroyed == old(destroyed + live)
    {
      OwnsListDestroyed(live, pending, destroyed, made);
      destroyed := destroyed + live;
      live := [];
    }

    /** A clone at the end of the list. */
    method PushClone(t: Target) returns (c: Del)
      requires Accounted()
      modifies this`live, this`next, this`made
      ensures Accounted() && live == old(live) + [c] && c == Del(old(next), t.hash, t.fn) && next == old(next) + 1
    {
      OwnsCloned(live, pending, destroyed, made, Del(next, t.hash, t.fn));
      c := Make(t);
      live := live + [c];
    }

    /** `operator+=(const EventBase&)`: clones of the other event's delegates that are new here. */
    method AddAll(e: EventBase)
      requires Valid() && e.Valid()
      modifies this
      ensures Valid() && canceled == old(canceled) && pending == old(pending) && destroyed == old(destroyed)
      ensures exists tail :: live == old(live) + tail && SameTargets(tail, NewIn(old(live), old(e.live)))
      ensures e == this ==> live == old(live)
    {
      hide Accounted, DistinctHashes, Find, NewIn, SameTargets;
      ghost var was, theirs, tail := live, e.live, [];
      NothingNew(was, theirs);
      var x := 0;
      while x < |e.live|
        invariant 0 <= x <= |theirs| && Valid()
        invariant destroyed == old(destroyed) && canceled == old(canceled) && pending == old(pending)
        invariant live == was + tail && SameTargets(tail, NewIn(was, theirs[..x]))
        invariant e.live == theirs && DistinctHashes(theirs) && (e == this ==> was == theirs && tail == [])
      {
        var d := e.live[x];
        FoundIffOld(was, theirs, x, tail);
        var c := AddIfNew(Target(d.hash, d.fn));
        NextNew(was, theirs, x, tail, c);
        tail := tail + c;
        x := x + 1;
      }
      assert theirs[..x] == theirs;
      assert live == old(live) + tail;
    }

    method AddIfNew(t: Target) returns (c: seq<Del>)
      requires Valid()
      modifies this`live, this`next, this`made
      ensures Valid() && live == old(live) + c
      ensures if Find(old(live), t.hash).Some? then c == [] else |c| == 1 && c[0].hash == t.hash && c[0].fn == t.fn
    {
      c := [];
      var at := FindInfo(t.hash);
      if at.None? {
        ChangeDistinct(live, Pend(true, Del(next, t.hash, t.fn)));
        var d := PushClone(t);
        c := [d];
      }
    }
  }

  lemma {:induction false} FirstFound(live: seq<Del>, h: nat, x: nat)
    requires x < |live| && live[x].hash == h && forall i | 0 <= i < x :: live[i].hash != h
    ensures Find(live, h) == Some(x)
  {
    assert HasHash(live, h);
  }

  lemma {:induction false} PresentFound(live: seq<Del>, x: nat)
    requires x < |live|
    ensures Find(live, live[x].hash).Some?
  {
    assert HasHash(live, live[x].hash);
  }

  /** Same hashes and callbacks in the same order, whatever the objects. */
  ghost predicate SameTargets(a: seq<Del>, b: seq<Del>) {
    |a| == |b| && forall i | 0 <= i < |a| :: a[i].hash == b[i].hash && a[i].fn == b[i].fn
  }

  lemma SameTargetsNone(b: seq<Del>)
    ensures SameTargets([], b[..0])
  {
  }

  lemma SameTargetsNext(a: seq<Del>, b: seq<Del>, x: nat, c: Del)
    requires x < |b| && SameTargets(a, b[..x]) && c.hash == b[x].hash && c.fn == b[x].fn
    ensures SameTargets(a + [c], b[..x + 1])
  {
  }

  lemma SameTargetsDistinct(a: seq<Del>, b: seq<Del>)
    requires SameTargets(a, b) && DistinctHashes(b)
    ensures DistinctHashes(a)
  {
  }

  /** The delegates of `other` whose hash `live` does not have. */
  function NewIn(live: seq<Del>, other: seq<Del>): seq<Del> {
    if other == [] then []
    else (if Find(live, other[0].hash).None? then [other[0]] else []) + NewIn(live, other[1..])
  }

  lemma {:induction false} NewInSnoc(live: seq<Del>, other: seq<Del>, d: Del)
    ensures NewIn(live, other + [d]) == NewIn(live, other) + (if Find(live, d.hash).None? then [d] else [])
  {
    hide Find;
    if other == [] {
      assert other + [d] == [d];
    } else {
      var first := if Find(live, other[0].hash).None? then [other[0]] else [];
      var last := if Find(live, d.hash).None? then [d] else [];
      assert (other + [d])[1..] == other[1..] + [d];
      NewInSnoc(live, other[1..], d);
      assert first + (NewIn(live, other[1..]) + last) == first + NewIn(live, other[1..]) + last;
    }
  }

  /** They are in their order, and all of them. */
  lemma {:induction false} NewInIs(live: seq<Del>, other: seq<Del>)
    ensures Subsequence(NewIn(live, other), other)
    ensures forall d :: d in NewIn(live, other) <==> d in other && !HasHash(live, d.hash)
    decreases |other|
  {
    if other == [] {
      NothingPicked<Del>();
    } else {
      var rest, d := other[..|other| - 1], other[|other| - 1];
      assert other == rest + [d];
      NewInIs(live, rest);
      NewInSnoc(live, rest, d);
      hide NewIn, HasHash;
      NotPicked(NewIn(live, rest), rest, d);
      Picked(NewIn(live, rest), rest, d);
      hide Subsequence;
      assert NewIn(live, rest) + [] == NewIn(live, rest);
    }
  }

  lemma {:induction false} NewInFrom(live: seq<Del>, other: seq<Del>)
    ensures forall d | d in NewIn(live, other) :: d in other
  {
    if other != [] {
      NewInFrom(live, other[1..]);
    }
  }

  lemma HasHashConcat(was: seq<Del>, tail: seq<Del>, h: nat)
    requires forall i | 0 <= i < |tail| :: tail[i].hash != h
    ensures HasHash(was + tail, h) <==> HasHash(was, h)
  {
    if HasHash(was, h) {
      var i :| 0 <= i < |was| && was[i].hash == h;
      assert (was + tail)[i].hash == h;
    }
  }

  lemma NoneYet(other: seq<Del>, x: nat, r: seq<Del>)
    requires DistinctHashes(other) && x < |other| && forall d | d in r :: d in other[..x]
    ensures forall i | 0 <= i < |r| :: r[i].hash != other[x].hash
  {
    forall i | 0 <= i < |r| ensures r[i].hash != other[x].hash {
      assert r[i] in other[..x];
      var k :| 0 <= k < x && other[..x][k] == r[i];
      assert other[k] == r[i];
    }
  }

  lemma {:induction false} NothingNew(was: seq<Del>, other: seq<Del>)
    ensures was + [] == was && SameTargets([], NewIn(was, other[..0]))
  {
  }

  /** One more delegate of the other list: a clone if it is new here, nothing if this is the same list. */
  lemma {:induction false} NextNew(was: seq<Del>, other: seq<Del>, x: nat, tail: seq<Del>, c: seq<Del>)
    requires x < |other| && SameTargets(tail, NewIn(was, other[..x]))
    requires if Find(was, other[x].hash).Some? then c == [] else |c| == 1 && c[0].hash == other[x].hash && c[0].fn == other[x].fn
    ensures SameTargets(tail + c, NewIn(was, other[..x + 1])) && was + (tail + c) == was + tail + c
    ensures was == other ==> c == []
  {
    hide Find, NewIn;
    assert other[..x + 1] == other[..x] + [other[x]];
    NewInSnoc(was, other[..x], other[x]);
    if was == other {
      PresentFound(was, x);
    }
    var r := NewIn(was, other[..x]);
    if c == [] {
      assert tail + c == tail && r + [] == r;
    } else {
      OneMoreTarget(tail, r, c[0], other[x]);
      assert c == [c[0]];
    }
  }

  lemma OneMoreTarget(a: seq<Del>, b: seq<Del>, c: Del, d: Del)
    requires SameTargets(a, b) && c.hash == d.hash && c.fn == d.fn
    ensures SameTargets(a + [c], b + [d])
  {
  }

  /** While the other event's list is being added, only what was here before can already be there. */
  lemma {:induction false} FoundIffOld(was: seq<Del>, other: seq<Del>, x: nat, tail: seq<Del>)
    requires DistinctHashes(other) && x < |other| && SameTargets(tail, NewIn(was, other[..x]))
    ensures Find(was + tail, other[x].hash).None? <==> Find(was, other[x].hash).None?
  {
    NewInFrom(was, other[..x]);
    NoneYet(other, x, NewIn(was, other[..x]));
    hide NewIn, DistinctHashes, HasHash;
    HasHashConcat(was, tail, other[x].hash);
  }
}
