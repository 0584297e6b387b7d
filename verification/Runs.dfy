// Runs of a step function over a sequence of events, from the first event to the last.
module Runs {
  function Fold<S, E>(next: (S, E) -> S, s: S, evs: seq<E>): S {
    if evs == [] then s else next(Fold(next, s, evs[..|evs| - 1]), evs[|evs| - 1])
  }

  lemma {:induction false} FoldConcat<S, E>(next: (S, E) -> S, s: S, a: seq<E>, b: seq<E>)
    ensures Fold(next, s, a + b) == Fold(next, Fold(next, s, a), b)
  {
    if b == [] {
      assert a + b == a;
    } else {
      assert (a + b)[..|a + b| - 1] == a + b[..|b| - 1];
      FoldConcat(next, s, a, b[..|b| - 1]);
    }
  }

  lemma {:induction false} FoldSnoc<S, E>(next: (S, E) -> S, s: S, evs: seq<E>, e: E)
    ensures Fold(next, s, evs + [e]) == next(Fold(next, s, evs), e)
  {
    assert (evs + [e])[..|evs + [e]| - 1] == evs;
  }

  lemma {:induction false} FoldFirst<S, E>(next: (S, E) -> S, s: S, e: E, rest: seq<E>)
    ensures Fold(next, s, [e] + rest) == Fold(next, next(s, e), rest)
  {
    FoldConcat(next, s, [e], rest);
    FoldOne(next, s, e);
  }

  lemma {:induction false} FoldOne<S, E>(next: (S, E) -> S, s: S, e: E)
    ensures Fold(next, s, [e]) == next(s, e)
  {
    FoldSnoc(next, s, [], e);
    assert [] + [e] == [e];
  }

  // The same event k times.
  function Repeat<E>(e: E, k: nat): (evs: seq<E>)
    ensures |evs| == k
    ensures forall i :: 0 <= i < k ==> evs[i] == e
  {
    seq(k, _ => e)
  }

  lemma {:induction false} FoldRepeat<S, E>(next: (S, E) -> S, s: S, e: E, k: nat)
    ensures Fold(next, s, Repeat(e, 0)) == s
    ensures k > 0 ==> Fold(next, s, Repeat(e, k)) == Fold(next, next(s, e), Repeat(e, k - 1))
  {
    if k > 0 {
      assert Repeat(e, k) == [e] + Repeat(e, k - 1);
      FoldFirst(next, s, e, Repeat(e, k - 1));
    }
  }

  // If p holds with k steps to go, each step keeps it, and with none left it is the end.
  lemma {:induction false} FoldReaches<S(!new), E>(next: (S, E) -> S, p: (S, nat) -> bool, s: S, e: E, k: nat, end: S)
    requires p(s, k)
    requires forall x :: p(x, 0) ==> x == end
    requires forall x, j: nat :: p(x, j) && j > 0 ==> p(next(x, e), j - 1)
    ensures Fold(next, s, Repeat(e, k)) == end
    decreases k
  {
    FoldRepeat(next, s, e, k);
    if k > 0 {
      FoldReaches(next, p, next(s, e), e, k - 1, end);
    }
  }

  // Every event of the run is one that can happen when its turn comes.
  ghost predicate Effective<S, E>(next: (S, E) -> S, can: (S, E) -> bool, s: S, evs: seq<E>) {
    forall k :: 0 <= k < |evs| ==> can(Fold(next, s, evs[..k]), evs[k])
  }

  lemma {:induction false} EffectiveConcat<S, E>(next: (S, E) -> S, can: (S, E) -> bool, s: S, a: seq<E>, b: seq<E>)
    requires Effective(next, can, s, a) && Effective(next, can, Fold(next, s, a), b)
    ensures Effective(next, can, s, a + b)
  {
    forall k | 0 <= k < |a + b| ensures can(Fold(next, s, (a + b)[..k]), (a + b)[k]) {
      if k < |a| {
        assert (a + b)[..k] == a[..k];
      } else {
        assert (a + b)[..k] == a + b[..k - |a|];
        FoldConcat(next, s, a, b[..k - |a|]);
      }
    }
  }

  // If every event that can happen keeps inv and lowers the measure, no such run is
  // longer than the measure it starts from.
  lemma {:induction false} RunsEnd<S(!new), E(!new)>(next: (S, E) -> S, can: (S, E) -> bool, inv: S -> bool,
                                                     measure: S -> int, s: S, evs: seq<E>)
    requires inv(s) && Effective(next, can, s, evs)
    requires forall x, e :: inv(x) && can(x, e) ==> inv(next(x, e)) && measure(next(x, e)) < measure(x)
    ensures inv(Fold(next, s, evs))
    ensures |evs| + measure(Fold(next, s, evs)) <= measure(s)
  {
    if evs != [] {
      var before, e := evs[..|evs| - 1], evs[|evs| - 1];
      forall k | 0 <= k < |before| ensures can(Fold(next, s, before[..k]), before[k]) {
        assert before[..k] == evs[..k] && before[k] == evs[k];
      }
      RunsEnd(next, can, inv, measure, s, before);
      assert can(Fold(next, s, before), e);
    }
  }
}
