// Weighted sums over sequences; a 0/1 weight counts.

module Sums {

  function Sum<T>(xs: seq<T>, f: T -> int): int
  {
    if xs == [] then 0 else Sum(xs[..|xs| - 1], f) + f(xs[|xs| - 1])
  }

  lemma SumAppend<T>(xs: seq<T>, x: T, f: T -> int)
    ensures Sum(xs + [x], f) == Sum(xs, f) + f(x)
  {
    assert (xs + [x])[..|xs|] == xs;
  }

  /** Replacing one element changes the sum by the change of its weight. */
  lemma {:induction false} SumUpdate<T>(xs: seq<T>, i: nat, x: T, f: T -> int)
    requires i < |xs|
    ensures Sum(xs[i := x], f) == Sum(xs, f) - f(xs[i]) + f(x)
    decreases |xs|
  {
    var n := |xs| - 1;
    if i == n {
      assert xs[i := x][..n] == xs[..n];
    } else {
      SumUpdate(xs[..n], i, x, f);
      assert xs[i := x][..n] == xs[..n][i := x];
    }
  }

  /** Non-negative weights: no element weighs more than the sum. */
  lemma {:induction false} SumBoundsElement<T>(xs: seq<T>, i: nat, f: T -> int)
    requires i < |xs|
    requires forall k :: 0 <= k < |xs| ==> f(xs[k]) >= 0
    ensures 0 <= f(xs[i]) <= Sum(xs, f)
    decreases |xs|
  {
    var n := |xs| - 1;
    SumNonNegative(xs[..n], f);
    if i < n {
      SumBoundsElement(xs[..n], i, f);
    }
  }

  lemma {:induction false} SumNonNegative<T>(xs: seq<T>, f: T -> int)
    requires forall k :: 0 <= k < |xs| ==> f(xs[k]) >= 0
    ensures Sum(xs, f) >= 0
    decreases |xs|
  {
    if xs != [] {
      SumNonNegative(xs[..|xs| - 1], f);
    }
  }

  /** A positive sum has a positive element. */
  lemma {:induction false} SumPositiveElement<T>(xs: seq<T>, f: T -> int) returns (i: nat)
    requires Sum(xs, f) > 0
    ensures i < |xs| && f(xs[i]) > 0
    decreases |xs|
  {
    var n := |xs| - 1;
    if f(xs[n]) > 0 {
      i := n;
    } else {
      i := SumPositiveElement(xs[..n], f);
    }
  }

  /** Weights under a bound: the sum is under the bound times the length. */
  lemma {:induction false} SumUpperBound<T>(xs: seq<T>, f: T -> int, b: int)
    requires forall k :: 0 <= k < |xs| ==> f(xs[k]) <= b
    ensures Sum(xs, f) <= b * |xs|
    decreases |xs|
  {
    if xs != [] {
      SumUpperBound(xs[..|xs| - 1], f, b);
    }
  }

  /** Weights that nowhere fall and rise at `i` give a larger sum. */
  lemma {:induction false} SumGrows<T>(xs: seq<T>, ys: seq<T>, f: T -> int, i: nat)
    requires |xs| == |ys| && forall k :: 0 <= k < |xs| ==> f(xs[k]) <= f(ys[k])
    ensures Sum(xs, f) <= Sum(ys, f)
    ensures i < |xs| && f(xs[i]) < f(ys[i]) ==> Sum(xs, f) < Sum(ys, f)
    decreases |xs|
  {
    if xs != [] {
      SumGrows(xs[..|xs| - 1], ys[..|ys| - 1], f, i);
    }
  }

  /** Two weights that agree on every element give the same sum. */
  lemma {:induction false} SumPointwise<T>(xs: seq<T>, ys: seq<T>, f: T -> int, g: T -> int)
    requires |xs| == |ys|
    requires forall k :: 0 <= k < |xs| ==> f(xs[k]) == g(ys[k])
    ensures Sum(xs, f) == Sum(ys, g)
    decreases |xs|
  {
    if xs != [] {
      SumPointwise(xs[..|xs| - 1], ys[..|ys| - 1], f, g);
    }
  }
}
