/** Weights summed over a sequence. */
module Sums {

  function Total<T>(xs: seq<T>, weight: T -> nat): nat {
    if xs == [] then 0 else weight(xs[0]) + Total(xs[1..], weight)
  }

  lemma {:induction false} TotalUpdate<T>(xs: seq<T>, i: nat, x: T, weight: T -> nat)
    requires i < |xs|
    ensures Total(xs[i := x], weight) == Total(xs, weight) - weight(xs[i]) + weight(x)
  {
    if i == 0 {
      assert xs[i := x][1..] == xs[1..];
    } else {
      TotalUpdate(xs[1..], i - 1, x, weight);
      assert xs[i := x][1..] == xs[1..][i - 1 := x];
    }
  }

  lemma {:induction false} TotalConcat<T>(xs: seq<T>, ys: seq<T>, weight: T -> nat)
    ensures Total(xs + ys, weight) == Total(xs, weight) + Total(ys, weight)
  {
    if xs == [] {
      assert xs + ys == ys;
    } else {
      TotalConcat(xs[1..], ys, weight);
      assert (xs + ys)[1..] == xs[1..] + ys;
    }
  }

  lemma {:induction false} TotalOne<T>(x: T, weight: T -> nat)
    ensures Total([x], weight) == weight(x)
  {
    assert [x][1..] == [];
  }

  lemma {:induction false} TotalNone<T>(weight: T -> nat)
    ensures Total([], weight) == 0
  {
  }

  lemma {:induction false} TotalSnoc<T>(xs: seq<T>, x: T, weight: T -> nat)
    ensures Total(xs + [x], weight) == Total(xs, weight) + weight(x)
  {
    TotalConcat(xs, [x], weight);
    TotalOne(x, weight);
  }

  lemma {:induction false} TotalHead<T>(xs: seq<T>, weight: T -> nat)
    requires xs != []
    ensures Total(xs, weight) == weight(xs[0]) + Total(xs[1..], weight)
  {
  }

  lemma {:induction false} TotalZero<T>(xs: seq<T>, weight: T -> nat)
    requires forall i :: 0 <= i < |xs| ==> weight(xs[i]) == 0
    ensures Total(xs, weight) == 0
  {
    if xs != [] { TotalZero(xs[1..], weight); }
  }

  lemma {:induction false} TotalHolds<T>(xs: seq<T>, i: nat, weight: T -> nat)
    requires i < |xs|
    ensures Total(xs, weight) >= weight(xs[i])
  {
    if i > 0 { TotalHolds(xs[1..], i - 1, weight); }
  }

  // Element by element no heavier, and lighter at position t.
  lemma {:induction false} TotalLess<T>(xs: seq<T>, ys: seq<T>, v: T -> nat, w: T -> nat, t: nat)
    requires |xs| == |ys| && forall i :: 0 <= i < |xs| ==> v(xs[i]) <= w(ys[i])
    ensures Total(xs, v) <= Total(ys, w)
    ensures t < |xs| && v(xs[t]) < w(ys[t]) ==> Total(xs, v) < Total(ys, w)
  {
    if xs != [] {
      assert forall i :: 0 <= i < |xs| - 1 ==> xs[1..][i] == xs[i + 1] && ys[1..][i] == ys[i + 1];
      TotalLess(xs[1..], ys[1..], v, w, if t > 0 then t - 1 else |xs|);
    }
  }
}
