/** Totals over sequences. The concurrent models keep one entry per thread (or per table
    slot), so a conservation law is a statement about such a total, and one atomic step
    changes one entry. */
module Sums {

  /** Sum of `f` over the entries of `xs`. */
  function Total<T>(f: T -> int, xs: seq<T>): int {
    if xs == [] then 0 else f(xs[0]) + Total(f, xs[1..])
  }

  /** Replacing one entry changes the total by the difference of the two entries. */
  lemma {:induction false} TotalUpdate<T>(f: T -> int, xs: seq<T>, i: nat, v: T)
    requires i < |xs|
    ensures Total(f, xs[i := v]) == Total(f, xs) - f(xs[i]) + f(v)
  {
    if i == 0 {
      assert xs[i := v][1..] == xs[1..];
    } else {
      assert xs[i := v][1..] == xs[1..][i - 1 := v];
      TotalUpdate(f, xs[1..], i - 1, v);
    }
  }

  lemma {:induction false} TotalZero<T>(f: T -> int, xs: seq<T>)
    requires forall i :: 0 <= i < |xs| ==> f(xs[i]) == 0
    ensures Total(f, xs) == 0
  {
    if xs != [] {
      TotalZero(f, xs[1..]);
    }
  }

  /** With entries in {0, 1} the total is between 0 and the number of entries. */
  lemma {:induction false} TotalUnitRange<T>(f: T -> int, xs: seq<T>)
    requires forall i :: 0 <= i < |xs| ==> 0 <= f(xs[i]) <= 1
    ensures 0 <= Total(f, xs) <= |xs|
  {
    if xs != [] {
      TotalUnitRange(f, xs[1..]);
    }
  }

  /** With non-negative entries, one entry is at most the total. */
  lemma {:induction false} TotalAtLeastOne<T>(f: T -> int, xs: seq<T>, i: nat)
    requires i < |xs|
    requires forall k :: 0 <= k < |xs| ==> 0 <= f(xs[k])
    ensures f(xs[i]) <= Total(f, xs)
  {
    if i == 0 {
      TotalNonNegative(f, xs[1..]);
    } else {
      TotalAtLeastOne(f, xs[1..], i - 1);
    }
  }

  /** With non-negative entries, two different entries together are at most the total. */
  lemma {:induction false} TotalAtLeastTwo<T>(f: T -> int, xs: seq<T>, i: nat, j: nat)
    requires i < j < |xs|
    requires forall k :: 0 <= k < |xs| ==> 0 <= f(xs[k])
    ensures f(xs[i]) + f(xs[j]) <= Total(f, xs)
  {
    if i == 0 {
      TotalAtLeastOne(f, xs[1..], j - 1);
    } else {
      TotalAtLeastTwo(f, xs[1..], i - 1, j - 1);
    }
  }

  lemma {:induction false} TotalNonNegative<T>(f: T -> int, xs: seq<T>)
    requires forall k :: 0 <= k < |xs| ==> 0 <= f(xs[k])
    ensures 0 <= Total(f, xs)
  {
    if xs != [] {
      TotalNonNegative(f, xs[1..]);
    }
  }
}
