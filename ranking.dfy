/**
 * Selecting the `n` entries of lowest score among distinct candidates: what
 * a sort on the score followed by `head(n)` keeps, without fixing the order
 * among equal scores.
 */
module Ranking {
  import opened Sequences

  /** A position of a lowest-scoring entry. */
  function ArgMin<T>(xs: seq<T>, score: T -> real): (k: nat)
    requires xs != []
    ensures k < |xs| && forall i | 0 <= i < |xs| :: score(xs[k]) <= score(xs[i])
  {
    if |xs| == 1 then 0
    else
      var k := ArgMin(xs[..|xs| - 1], score);
      if score(xs[|xs| - 1]) < score(xs[k]) then |xs| - 1 else k
  }

  /** `xs` without the entry at `k`; for distinct entries, exactly the others. */
  function RemoveAt<T>(xs: seq<T>, k: nat): (r: seq<T>)
    requires k < |xs| && NoDup(xs)
    ensures |r| == |xs| - 1 && NoDup(r)
    ensures forall i | 0 <= i < |r| :: r[i] in xs && r[i] != xs[k]
    ensures forall y | y in xs && y != xs[k] :: y in r
  {
    var r := xs[..k] + xs[k + 1..];
    assert forall i | 0 <= i < |r| :: r[i] == if i < k then xs[i] else xs[i + 1];
    assert forall y | y in xs && y != xs[k] :: y in r by {
      forall y | y in xs && y != xs[k]
        ensures y in r
      {
        var i :| 0 <= i < |xs| && xs[i] == y;
        if i < k {
          assert r[i] == y;
        } else {
          assert r[i - 1] == y;
        }
      }
    }
    r
  }

  /**
   * The `n` lowest-scoring of the distinct entries `xs`, lowest first: as
   * many as there are, up to `n`; `LowestSpec` states what they are.
   */
  function Lowest<T>(xs: seq<T>, score: T -> real, n: nat): (r: seq<T>)
    requires NoDup(xs)
    ensures |r| == if n < |xs| then n else |xs|
    decreases n
  {
    if n == 0 || xs == [] then []
    else
      var k := ArgMin(xs, score);
      [xs[k]] + Lowest(RemoveAt(xs, k), score, n - 1)
  }

  /**
   * `r` is a choice of lowest-scoring entries of `xs`: entries of `xs`,
   * without repeats, in non-decreasing score, and no entry left out scores
   * below one taken.
   */
  predicate IsLowest<T(==)>(xs: seq<T>, score: T -> real, r: seq<T>) {
    && NoDup(r)
    && (forall i | 0 <= i < |r| :: r[i] in xs)
    && (forall i, j | 0 <= i < j < |r| :: score(r[i]) <= score(r[j]))
    && (forall y | y in xs && y !in r :: forall i | 0 <= i < |r| :: score(r[i]) <= score(y))
  }

  lemma {:induction false} LowestSpec<T>(xs: seq<T>, score: T -> real, n: nat)
    requires NoDup(xs)
    ensures IsLowest(xs, score, Lowest(xs, score, n))
    decreases n
  {
    if n != 0 && xs != [] {
      var k := ArgMin(xs, score);
      var rest := RemoveAt(xs, k);
      LowestSpec(rest, score, n - 1);
      LowestStep(xs, score, k, rest, Lowest(rest, score, n - 1), Lowest(xs, score, n));
    }
  }

  /** Taking a lowest entry first and then the lowest of the others is a choice of lowest entries. */
  lemma LowestStep<T>(xs: seq<T>, score: T -> real, k: nat, rest: seq<T>, tail: seq<T>, r: seq<T>)
    requires k < |xs| && forall i | 0 <= i < |xs| :: score(xs[k]) <= score(xs[i])
    requires NoDup(rest) && forall i | 0 <= i < |rest| :: rest[i] in xs && rest[i] != xs[k]
    requires forall y | y in xs && y != xs[k] :: y in rest
    requires IsLowest(rest, score, tail)
    requires r == [xs[k]] + tail
    ensures IsLowest(xs, score, r)
  {
    assert forall i | 1 <= i < |r| :: r[i] == tail[i - 1];
    forall i | 0 <= i < |r|
      ensures r[i] in xs
    {
      if i > 0 {
        var m :| 0 <= m < |rest| && rest[m] == tail[i - 1];
      }
    }
    forall i, j | 0 <= i < j < |r|
      ensures score(r[i]) <= score(r[j]) && r[i] != r[j]
    {
      if i == 0 {
        var m :| 0 <= m < |rest| && rest[m] == tail[j - 1];
        var p :| 0 <= p < |xs| && xs[p] == tail[j - 1];
      }
    }
    forall y | y in xs && y !in r
      ensures forall i | 0 <= i < |r| :: score(r[i]) <= score(y)
    {
      assert y in rest;
      var m :| 0 <= m < |xs| && xs[m] == y;
    }
  }

  /** Of three distinct entries in strictly increasing score, a choice of all three lists them in that order. */
  lemma ChoiceOfThree<T>(a: T, b: T, c: T, score: T -> real, r: seq<T>)
    requires a != b && b != c && a != c
    requires score(a) < score(b) < score(c)
    requires IsLowest([a, b, c], score, r) && |r| == 3
    ensures r == [a, b, c]
  {
    assert r[0] in [a, b, c] && r[1] in [a, b, c] && r[2] in [a, b, c];
    assert a in r && b in r;
  }

  /** Of three distinct entries scored b < a < c, a choice of two is b then a. */
  lemma ChoiceTwoOfThree<T>(a: T, b: T, c: T, score: T -> real, r: seq<T>)
    requires a != b && b != c && a != c
    requires score(b) < score(a) < score(c)
    requires IsLowest([a, b, c], score, r) && |r| == 2
    ensures r == [b, a]
  {
    assert r[0] in [a, b, c] && r[1] in [a, b, c];
    assert score(r[0]) <= score(b);
    assert score(r[1]) <= score(a);
  }

  /**
   * Read as a sort: the entry at each position scores no higher than any
   * entry not taken before it.
   */
  lemma LowestGreedy<T>(xs: seq<T>, score: T -> real, n: nat, k: nat)
    requires NoDup(xs) && k < |Lowest(xs, score, n)|
    ensures var r := Lowest(xs, score, n);
            forall y | y in xs && y !in r[..k] :: score(r[k]) <= score(y)
  {
    var r := Lowest(xs, score, n);
    LowestSpec(xs, score, n);
    forall y | y in xs && y !in r[..k]
      ensures score(r[k]) <= score(y)
    {
      if y in r {
        var j :| 0 <= j < |r| && r[j] == y;
      }
    }
  }

}
