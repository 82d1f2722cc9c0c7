/** Order-preserving operations on sequences shared by the loaders, the filters and the reports. */
module Sequences {

  function Count<T(==)>(xs: seq<T>, x: T): nat {
    if xs == [] then 0 else Count(xs[..|xs| - 1], x) + (if xs[|xs| - 1] == x then 1 else 0)
  }

  predicate NoDup<T(==)>(xs: seq<T>) {
    forall i, j | 0 <= i < j < |xs| :: xs[i] != xs[j]
  }

  /** Position of the first occurrence of `x`. */
  function FirstIndex<T(==)>(xs: seq<T>, x: T): (k: nat)
    requires x in xs
    ensures k < |xs| && xs[k] == x && x !in xs[..k]
  {
    if xs[0] == x then 0 else 1 + FirstIndex(xs[1..], x)
  }

  /** Keeps the first occurrence of every element, in input order. */
  function Dedup<T(==)>(xs: seq<T>): seq<T> {
    if xs == [] then []
    else
      var init, last := xs[..|xs| - 1], xs[|xs| - 1];
      if last in init then Dedup(init) else Dedup(init) + [last]
  }

  /** The elements of `xs` that satisfy `p`, in order. */
  function Keep<T>(xs: seq<T>, p: T -> bool): seq<T> {
    if xs == [] then []
    else
      var init, last := xs[..|xs| - 1], xs[|xs| - 1];
      if p(last) then Keep(init, p) + [last] else Keep(init, p)
  }

  /** `a` is `b` with some elements left out. */
  predicate IsSubseq<T(==)>(a: seq<T>, b: seq<T>) {
    if a == [] then true
    else if b == [] then false
    else if a[|a| - 1] == b[|b| - 1] then IsSubseq(a[..|a| - 1], b[..|b| - 1])
    else IsSubseq(a, b[..|b| - 1])
  }

  function Flatten<T>(xss: seq<seq<T>>): seq<T> {
    if xss == [] then [] else Flatten(xss[..|xss| - 1]) + xss[|xss| - 1]
  }

  // ---------------------------------------------------------------------
  // Counting
  // ---------------------------------------------------------------------

  lemma {:induction false} CountAppend<T>(xs: seq<T>, ys: seq<T>, x: T)
    ensures Count(xs + ys, x) == Count(xs, x) + Count(ys, x)
  {
    if ys != [] {
      var zs := xs + ys;
      assert zs[..|zs| - 1] == xs + ys[..|ys| - 1];
      CountAppend(xs, ys[..|ys| - 1], x);
    } else {
      assert xs + ys == xs;
    }
  }

  lemma {:induction false} CountMember<T>(xs: seq<T>, x: T)
    ensures Count(xs, x) > 0 <==> x in xs
  {
    if xs != [] {
      CountMember(xs[..|xs| - 1], x);
      assert xs == xs[..|xs| - 1] + [xs[|xs| - 1]];
    }
  }

  lemma {:induction false} CountDistinct<T>(xs: seq<T>, x: T)
    requires NoDup(xs) && x in xs
    ensures Count(xs, x) == 1
  {
    var init := xs[..|xs| - 1];
    if xs[|xs| - 1] == x {
      assert x !in init;
      CountMember(init, x);
    } else {
      assert x in init;
      CountDistinct(init, x);
    }
  }

  // ---------------------------------------------------------------------
  // First-occurrence de-duplication
  // ---------------------------------------------------------------------

  lemma {:induction false} DedupMember<T>(xs: seq<T>, x: T)
    ensures x in Dedup(xs) <==> x in xs
  {
    if xs != [] {
      var init := xs[..|xs| - 1];
      DedupMember(init, x);
      assert xs == init + [xs[|xs| - 1]];
    }
  }

  lemma DedupMembers<T>(xs: seq<T>)
    ensures forall x :: x in Dedup(xs) <==> x in xs
  {
    forall x
      ensures x in Dedup(xs) <==> x in xs
    {
      DedupMember(xs, x);
    }
  }

  lemma DedupElement<T>(xs: seq<T>, i: nat)
    requires i < |Dedup(xs)|
    ensures Dedup(xs)[i] in xs
  {
    DedupMember(xs, Dedup(xs)[i]);
  }

  lemma DedupElements<T>(xs: seq<T>)
    ensures forall i | 0 <= i < |Dedup(xs)| :: Dedup(xs)[i] in xs
  {
    forall i | 0 <= i < |Dedup(xs)| {
      DedupElement(xs, i);
    }
  }

  lemma {:induction false} DedupNoDup<T>(xs: seq<T>)
    ensures NoDup(Dedup(xs))
  {
    if xs != [] {
      DedupNoDup(xs[..|xs| - 1]);
      DedupMembers(xs[..|xs| - 1]);
    }
  }

  lemma {:induction false} FirstIndexAppend<T>(xs: seq<T>, y: T, x: T)
    requires x in xs
    ensures FirstIndex(xs + [y], x) == FirstIndex(xs, x)
  {
    if xs[0] != x {
      assert (xs + [y])[1..] == xs[1..] + [y];
      FirstIndexAppend(xs[1..], y, x);
    }
  }

  lemma {:induction false} DedupOrderPair<T>(xs: seq<T>, i: nat, j: nat)
    requires i < j < |Dedup(xs)|
    ensures Dedup(xs)[i] in xs && Dedup(xs)[j] in xs
    ensures FirstIndex(xs, Dedup(xs)[i]) < FirstIndex(xs, Dedup(xs)[j])
    decreases |xs|
  {
    var init, last := xs[..|xs| - 1], xs[|xs| - 1];
    assert xs == init + [last];
    var d, di := Dedup(xs), Dedup(init);
    assert i < |di|;
    DedupElement(init, i);
    assert d[i] == di[i];
    FirstIndexAppend(init, last, di[i]);
    if j < |di| {
      assert d[j] == di[j];
      DedupElement(init, j);
      FirstIndexAppend(init, last, di[j]);
      DedupOrderPair(init, i, j);
    } else {
      assert d[j] == last && last !in init;
    }
  }

  /** The kept elements appear in the order of their first occurrences. */
  lemma DedupFirstOccurrenceOrder<T>(xs: seq<T>)
    ensures forall x :: x in Dedup(xs) <==> x in xs
    ensures forall i, j | 0 <= i < j < |Dedup(xs)| ::
      FirstIndex(xs, Dedup(xs)[i]) < FirstIndex(xs, Dedup(xs)[j])
  {
    DedupMembers(xs);
    DedupElements(xs);
    forall i, j | 0 <= i < j < |Dedup(xs)|
      ensures FirstIndex(xs, Dedup(xs)[i]) < FirstIndex(xs, Dedup(xs)[j])
    {
      DedupOrderPair(xs, i, j);
    }
  }

  lemma {:induction false} DedupOfDistinct<T>(xs: seq<T>)
    requires NoDup(xs)
    ensures Dedup(xs) == xs
  {
    if xs != [] {
      DedupOfDistinct(xs[..|xs| - 1]);
    }
  }

  lemma DedupIdempotent<T>(xs: seq<T>)
    ensures Dedup(Dedup(xs)) == Dedup(xs)
  {
    DedupNoDup(xs);
    DedupOfDistinct(Dedup(xs));
  }

  /** Summing each distinct element's count over the distinct elements gives the length. */
  function SumCounts<T(==)>(xs: seq<T>, keys: seq<T>): nat {
    if keys == [] then 0 else SumCounts(xs, keys[..|keys| - 1]) + Count(xs, keys[|keys| - 1])
  }

  lemma {:induction false} SumCountsAppendItem<T>(xs: seq<T>, y: T, keys: seq<T>)
    ensures SumCounts(xs + [y], keys) == SumCounts(xs, keys) + Count(keys, y)
  {
    if keys != [] {
      SumCountsAppendItem(xs, y, keys[..|keys| - 1]);
      CountAppend(xs, [y], keys[|keys| - 1]);
      assert Count([y], keys[|keys| - 1]) == (if y == keys[|keys| - 1] then 1 else 0) by {
        assert [y][..0] == [];
      }
    }
  }

  lemma {:induction false} SumCountsOfDedup<T>(xs: seq<T>)
    ensures SumCounts(xs, Dedup(xs)) == |xs|
  {
    if xs != [] {
      var init, last := xs[..|xs| - 1], xs[|xs| - 1];
      assert xs == init + [last];
      SumCountsOfDedup(init);
      DedupMembers(init);
      DedupNoDup(init);
      SumCountsAppendItem(init, last, Dedup(init));
      if last in init {
        CountDistinct(Dedup(init), last);
      } else {
        CountMember(Dedup(init), last);
        CountMember(init, last);
        assert Count(xs, last) == 1;
      }
    }
  }

  // ---------------------------------------------------------------------
  // Filtering
  // ---------------------------------------------------------------------

  lemma {:induction false} KeepMembers<T>(xs: seq<T>, p: T -> bool)
    ensures forall x :: x in Keep(xs, p) <==> x in xs && p(x)
  {
    if xs != [] {
      KeepMembers(xs[..|xs| - 1], p);
      assert xs == xs[..|xs| - 1] + [xs[|xs| - 1]];
    }
  }

  lemma {:induction false} KeepElements<T>(xs: seq<T>, p: T -> bool)
    ensures forall i | 0 <= i < |Keep(xs, p)| :: Keep(xs, p)[i] in xs && p(Keep(xs, p)[i])
  {
    if xs != [] {
      KeepElements(xs[..|xs| - 1], p);
    }
  }

  lemma {:induction false} KeepLength<T>(xs: seq<T>, p: T -> bool)
    ensures |Keep(xs, p)| <= |xs|
  {
    if xs != [] {
      KeepLength(xs[..|xs| - 1], p);
    }
  }

  /** Nothing is kept when no element satisfies `p`. */
  lemma {:induction false} KeepNone<T>(xs: seq<T>, p: T -> bool)
    requires forall i | 0 <= i < |xs| :: !p(xs[i])
    ensures Keep(xs, p) == []
  {
    if xs != [] {
      KeepNone(xs[..|xs| - 1], p);
    }
  }

  lemma {:induction false} KeepCount<T>(xs: seq<T>, p: T -> bool, x: T)
    ensures Count(Keep(xs, p), x) == if p(x) then Count(xs, x) else 0
  {
    if xs != [] {
      var init, last := xs[..|xs| - 1], xs[|xs| - 1];
      KeepCount(init, p, x);
      if p(last) {
        var k := Keep(init, p) + [last];
        assert k[..|k| - 1] == Keep(init, p);
      }
    }
  }

  lemma {:induction false} SubseqAppend<T>(a: seq<T>, b: seq<T>, y: T)
    requires IsSubseq(a, b)
    ensures IsSubseq(a, b + [y])
    decreases |b|, 1
  {
    var b' := b + [y];
    assert b'[..|b'| - 1] == b;
    if a != [] && a[|a| - 1] == y {
      // the greedy match takes y; what remains must still embed in b
      SubseqDropLast(a, b);
    }
  }

  lemma {:induction false} SubseqDropLast<T>(a: seq<T>, b: seq<T>)
    requires a != [] && IsSubseq(a, b)
    ensures IsSubseq(a[..|a| - 1], b)
    decreases |b|, 0
  {
    if b != [] {
      var b0 := b[..|b| - 1];
      if a[|a| - 1] == b[|b| - 1] {
        var a0 := a[..|a| - 1];
        assert IsSubseq(a0, b0);
        SubseqAppend(a0, b0, b[|b| - 1]);
        assert b0 + [b[|b| - 1]] == b;
      } else {
        SubseqDropLast(a, b0);
        SubseqAppend(a[..|a| - 1], b0, b[|b| - 1]);
        assert b0 + [b[|b| - 1]] == b;
      }
    }
  }

  lemma {:induction false} KeepSubseq<T>(xs: seq<T>, p: T -> bool)
    ensures IsSubseq(Keep(xs, p), xs)
  {
    if xs != [] {
      var init, last := xs[..|xs| - 1], xs[|xs| - 1];
      KeepSubseq(init, p);
      if p(last) {
        var k := Keep(init, p) + [last];
        assert k[..|k| - 1] == Keep(init, p);
      } else {
        SubseqAppend(Keep(init, p), init, last);
        assert init + [last] == xs;
      }
    }
  }

  lemma {:induction false} KeepAll<T>(xs: seq<T>, p: T -> bool)
    requires forall i | 0 <= i < |xs| :: p(xs[i])
    ensures Keep(xs, p) == xs
  {
    if xs != [] {
      KeepAll(xs[..|xs| - 1], p);
    }
  }

  lemma KeepIdempotent<T>(xs: seq<T>, p: T -> bool)
    ensures Keep(Keep(xs, p), p) == Keep(xs, p)
  {
    KeepElements(xs, p);
    KeepAll(Keep(xs, p), p);
  }

  lemma {:induction false} FlattenAppend<T>(xss: seq<seq<T>>, ys: seq<T>)
    ensures Flatten(xss + [ys]) == Flatten(xss) + ys
  {
    assert (xss + [ys])[..|xss|] == xss;
  }

}
