/** Sums over a sequence, and how they change when one element does. */
module Sums {
  function Sum<T>(xs: seq<T>, weight: T -> nat): nat {
    if xs == [] then 0 else weight(xs[0]) + Sum(xs[1..], weight)
  }

  lemma {:induction false} SumUpdate<T>(xs: seq<T>, weight: T -> nat, i: nat, x: T)
    requires i < |xs|
    ensures Sum(xs[i := x], weight) + weight(xs[i]) == Sum(xs, weight) + weight(x)
    decreases |xs|
  {
    var ys := xs[i := x];
    if i == 0 {
      assert ys[1..] == xs[1..];
    } else {
      assert ys[1..] == xs[1..][i - 1 := x];
      SumUpdate(xs[1..], weight, i - 1, x);
    }
  }

  lemma {:induction false} SumSnoc<T>(xs: seq<T>, weight: T -> nat, x: T)
    ensures Sum(xs + [x], weight) == Sum(xs, weight) + weight(x)
    decreases |xs|
  {
    if xs == [] {
    } else {
      assert (xs + [x])[1..] == xs[1..] + [x];
      SumSnoc(xs[1..], weight, x);
    }
  }

  lemma {:induction false} SumAtLeast<T>(xs: seq<T>, weight: T -> nat, i: nat)
    requires i < |xs|
    ensures weight(xs[i]) <= Sum(xs, weight)
    decreases |xs|
  {
    if i == 0 {
    } else {
      SumAtLeast(xs[1..], weight, i - 1);
    }
  }

  lemma {:induction false} SumEqual<T>(xs: seq<T>, weight: T -> nat, each: nat)
    requires forall i :: 0 <= i < |xs| ==> weight(xs[i]) == each
    ensures Sum(xs, weight) == each * |xs|
    decreases |xs|
  {
    if xs == [] {
    } else {
      SumEqual(xs[1..], weight, each);
    }
  }
}
