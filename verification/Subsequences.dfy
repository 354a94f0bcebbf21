/** One sequence picked out of another, in its order. */
module Subsequences {
  /** `a` is what `b` has at the places `at`, which only go up. */
  ghost predicate Picks<T>(a: seq<T>, b: seq<T>, at: seq<int>) {
    && |at| == |a|
    && (forall i | 0 <= i < |a| :: 0 <= at[i] < |b| && a[i] == b[at[i]])
    && (forall i, j | 0 <= i < j < |at| :: at[i] < at[j])
  }

  ghost predicate Subsequence<T>(a: seq<T>, b: seq<T>) {
    exists at :: Picks(a, b, at)
  }

  lemma NothingPicked<T>()
    ensures Subsequence<T>([], [])
  {
    assert Picks<T>([], [], []);
  }

  lemma NotPicked<T>(a: seq<T>, b: seq<T>, x: T)
    requires Subsequence(a, b)
    ensures Subsequence(a, b + [x])
  {
    var at :| Picks(a, b, at);
    assert Picks(a, b + [x], at);
  }

  lemma Picked<T>(a: seq<T>, b: seq<T>, x: T)
    requires Subsequence(a, b)
    ensures Subsequence(a + [x], b + [x])
  {
    var at :| Picks(a, b, at);
    assert Picks(a + [x], b + [x], at + [|b|]);
  }
}
