// Searching a sequence, and gathering or counting what its entries contribute.
module Sequences {
  // The first index at which p holds, or the length if there is none.
  function First<T>(s: seq<T>, p: T -> bool): (k: nat)
    ensures k <= |s|
    ensures k < |s| ==> p(s[k])
    ensures forall i :: 0 <= i < k ==> !p(s[i])
  {
    if s == [] || p(s[0]) then 0 else 1 + First(s[1..], p)
  }

  // A hit bounds it, and the first hit is it.
  lemma {:induction false} FirstBy<T>(s: seq<T>, p: T -> bool, k: nat)
    requires k < |s| && p(s[k])
    ensures First(s, p) <= k
    ensures (forall i :: 0 <= i < k ==> !p(s[i])) ==> First(s, p) == k
  {
    if First(s, p) > k { assert false; }
  }

  // What the entries contribute, in order.
  function Collect<T, U>(s: seq<T>, f: T -> seq<U>): seq<U> {
    if s == [] then [] else Collect(s[..|s| - 1], f) + f(s[|s| - 1])
  }

  lemma {:induction false} CollectSnoc<T, U>(s: seq<T>, x: T, f: T -> seq<U>)
    ensures Collect(s + [x], f) == Collect(s, f) + f(x)
  {
    assert (s + [x])[..|s + [x]| - 1] == s;
  }

  function Count<T>(s: seq<T>, p: T -> bool): nat {
    if s == [] then 0 else Count(s[..|s| - 1], p) + if p(s[|s| - 1]) then 1 else 0
  }

  lemma {:induction false} CountSnoc<T>(s: seq<T>, x: T, p: T -> bool)
    ensures Count(s + [x], p) == Count(s, p) + if p(x) then 1 else 0
  {
    assert (s + [x])[..|s + [x]| - 1] == s;
  }
}
