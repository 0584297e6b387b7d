// Sums of a weight over a sequence, used to count over threads and over lists.
module Sums {
  ghost function Sum<T>(s: seq<T>, f: T -> int): int {
    if s == [] then 0 else f(s[0]) + Sum(s[1..], f)
  }

  lemma {:induction false} SumConcat<T>(a: seq<T>, b: seq<T>, f: T -> int)
    ensures Sum(a + b, f) == Sum(a, f) + Sum(b, f)
  {
    if a == [] {
      assert a + b == b;
    } else {
      assert (a + b)[1..] == a[1..] + b;
      SumConcat(a[1..], b, f);
    }
  }

  // Changing one entry changes the sum by the difference of the two weights.
  lemma {:induction false} SumUpdate<T>(s: seq<T>, i: nat, x: T, f: T -> int)
    requires i < |s|
    ensures Sum(s[i := x], f) == Sum(s, f) - f(s[i]) + f(x)
  {
    if i == 0 {
      assert s[0 := x][1..] == s[1..];
    } else {
      assert s[i := x][1..] == s[1..][i - 1 := x];
      SumUpdate(s[1..], i - 1, x, f);
    }
  }

  lemma {:induction false} SumRemove<T>(s: seq<T>, i: nat, f: T -> int)
    requires i < |s|
    ensures Sum(s[..i] + s[i + 1..], f) == Sum(s, f) - f(s[i])
  {
    if i == 0 {
      assert s[..0] + s[1..] == s[1..];
    } else {
      assert (s[..i] + s[i + 1..])[1..] == s[1..][..i - 1] + s[1..][i..];
      SumRemove(s[1..], i - 1, f);
    }
  }

  lemma {:induction false} SumSame<T>(s: seq<T>, f: T -> int, g: T -> int)
    requires forall i :: 0 <= i < |s| ==> f(s[i]) == g(s[i])
    ensures Sum(s, f) == Sum(s, g)
  {
    if s != [] {
      forall i | 0 <= i < |s[1..]| ensures f(s[1..][i]) == g(s[1..][i]) {
        assert s[1..][i] == s[i + 1];
      }
      SumSame(s[1..], f, g);
    }
  }

  // Bounds on every weight bound the sum; with one entry excepted, only the others count.
  lemma {:induction false} SumBounds<T>(s: seq<T>, f: T -> int, lo: int, hi: int)
    requires forall i :: 0 <= i < |s| ==> lo <= f(s[i]) <= hi
    ensures lo * |s| <= Sum(s, f) <= hi * |s|
  {
    if s != [] {
      forall i | 0 <= i < |s[1..]| ensures lo <= f(s[1..][i]) <= hi {
        assert s[1..][i] == s[i + 1];
      }
      SumBounds(s[1..], f, lo, hi);
      assert lo * |s| == lo * |s[1..]| + lo && hi * |s| == hi * |s[1..]| + hi;
    }
  }

  lemma {:induction false} SumOthers<T>(s: seq<T>, k: nat, f: T -> int, lo: int, hi: int)
    requires k < |s|
    requires forall i :: 0 <= i < |s| && i != k ==> lo <= f(s[i]) <= hi
    ensures lo * (|s| - 1) <= Sum(s, f) - f(s[k]) <= hi * (|s| - 1)
  {
    SumRemove(s, k, f);
    SumBounds(s[..k] + s[k + 1..], f, lo, hi);
  }

  lemma {:induction false} SumNonNegative<T>(s: seq<T>, f: T -> int)
    requires forall i :: 0 <= i < |s| ==> 0 <= f(s[i])
    ensures 0 <= Sum(s, f)
    ensures forall i :: 0 <= i < |s| ==> f(s[i]) <= Sum(s, f)
  {
    if s != [] {
      forall i | 0 <= i < |s[1..]| ensures 0 <= f(s[1..][i]) && s[1..][i] == s[i + 1] {
        assert s[1..][i] == s[i + 1];
      }
      SumNonNegative(s[1..], f);
      forall i | 0 <= i < |s| ensures f(s[i]) <= Sum(s, f) {
        if i > 0 { assert s[i] == s[1..][i - 1]; }
      }
    }
  }
}
