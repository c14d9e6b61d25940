/** Sums of an integer measure over a table of records. */
module Sums {
  function SumOf<T>(xs: seq<T>, f: T -> int): int {
    if xs == [] then 0 else SumOf(xs[..|xs| - 1], f) + f(xs[|xs| - 1])
  }

  lemma {:induction false} SumOfAppend<T>(xs: seq<T>, x: T, f: T -> int)
    ensures SumOf(xs + [x], f) == SumOf(xs, f) + f(x)
  {
    assert (xs + [x])[..|xs|] == xs;
  }

  /** Replacing one record moves the sum by the difference of the two measures. */
  lemma {:induction false} SumOfUpdate<T>(xs: seq<T>, i: nat, x: T, f: T -> int)
    requires i < |xs|
    ensures SumOf(xs[i := x], f) == SumOf(xs, f) - f(xs[i]) + f(x)
  {
    var n := |xs| - 1;
    if i == n {
      assert xs[i := x][..n] == xs[..n];
    } else {
      assert xs[i := x][..n] == xs[..n][i := x];
      SumOfUpdate(xs[..n], i, x, f);
    }
  }

  lemma {:induction false} SumOfNonneg<T>(xs: seq<T>, f: T -> int)
    requires forall i :: 0 <= i < |xs| ==> f(xs[i]) >= 0
    ensures SumOf(xs, f) >= 0
  {
    if xs != [] {
      SumOfNonneg(xs[..|xs| - 1], f);
    }
  }

  /** A nonnegative sum covers any one of its terms. */
  lemma {:induction false} SumOfCovers<T>(xs: seq<T>, i: nat, f: T -> int)
    requires i < |xs|
    requires forall k :: 0 <= k < |xs| ==> f(xs[k]) >= 0
    ensures f(xs[i]) <= SumOf(xs, f)
  {
    var n := |xs| - 1;
    if i == n {
      SumOfNonneg(xs[..n], f);
    } else {
      SumOfCovers(xs[..n], i, f);
    }
  }

  /** A nonnegative sum covers any two different terms together. */
  lemma {:induction false} SumOfCoversTwo<T>(xs: seq<T>, i: nat, j: nat, f: T -> int)
    requires i < j < |xs|
    requires forall k :: 0 <= k < |xs| ==> f(xs[k]) >= 0
    ensures f(xs[i]) + f(xs[j]) <= SumOf(xs, f)
  {
    var n := |xs| - 1;
    if j == n {
      SumOfCovers(xs[..n], i, f);
    } else {
      SumOfCoversTwo(xs[..n], i, j, f);
    }
  }

  lemma {:induction false} SumOfZero<T>(xs: seq<T>, f: T -> int)
    requires forall i :: 0 <= i < |xs| ==> f(xs[i]) == 0
    ensures SumOf(xs, f) == 0
  {
    if xs != [] {
      SumOfZero(xs[..|xs| - 1], f);
    }
  }

  /** When at most one term is nonzero, the sum is that term. */
  lemma {:induction false} SumOfOnly<T>(xs: seq<T>, i: nat, f: T -> int)
    requires i < |xs|
    requires forall k :: 0 <= k < |xs| && k != i ==> f(xs[k]) == 0
    ensures SumOf(xs, f) == f(xs[i])
  {
    var n := |xs| - 1;
    if i == n {
      SumOfZero(xs[..n], f);
    } else {
      SumOfOnly(xs[..n], i, f);
    }
  }
}
