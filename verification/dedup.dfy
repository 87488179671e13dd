/**
 * `Array.from(new Set(matches)).slice(0, 10)` of index.js:47.
 *
 * A JavaScript `Set` remembers the order in which values were first added,
 * and `new Set(iterable)` adds the elements one by one from the left, so
 * `Array.from` of it lists every distinct value once, in order of first
 * appearance. `slice(0, n)` keeps the first `n` elements, or all of them
 * when there are fewer.
 */
module Dedup {

  /** The cap on the number of URLs posted for one message. */
  const MaxBatch: nat := 10

  predicate NoDuplicates<T(==)>(xs: seq<T>) {
    forall i, j :: 0 <= i < j < |xs| ==> xs[i] != xs[j]
  }

  function Elements<T>(xs: seq<T>): set<T> {
    set x | x in xs
  }

  function Min(a: nat, b: nat): nat {
    if a <= b then a else b
  }

  /** `set.add(x)` on an insertion-ordered set, listed in insertion order. */
  function SetAdd<T(==)>(order: seq<T>, x: T): seq<T> {
    if x in order then order else order + [x]
  }

  /** `Array.from(new Set(xs))`: the elements of `xs` added one by one, from the left. */
  function Distinct<T(==)>(xs: seq<T>): (r: seq<T>)
    ensures NoDuplicates(r)
    ensures forall k :: 0 <= k < |r| ==> r[k] in xs
    ensures forall k :: 0 <= k < |xs| ==> xs[k] in r
  {
    if xs == [] then []
    else
      var init, y := xs[..|xs| - 1], xs[|xs| - 1];
      assert xs == init + [y];
      SetAdd(Distinct(init), y)
  }

  /** `xs.slice(0, n)`. */
  function Take<T>(xs: seq<T>, n: nat): (r: seq<T>)
    ensures |r| == Min(n, |xs|)
    ensures r == xs[..|r|]
  {
    if n <= |xs| then xs[..n] else xs
  }

  /** The batch of URLs that index.js:47 builds from the regex matches. */
  function Batch<T(==)>(xs: seq<T>): (r: seq<T>)
    ensures |r| <= MaxBatch
    ensures NoDuplicates(r)
    ensures forall k :: 0 <= k < |r| ==> r[k] in xs
    ensures xs != [] ==> |r| >= 1
  {
    var d := Distinct(xs);
    assert forall k :: 0 <= k < |d| ==> d[k] in xs;
    Take(d, MaxBatch)
  }

  /** Index of the first occurrence of `x` in `xs`. */
  function FirstIndex<T(==)>(xs: seq<T>, x: T): (k: nat)
    requires x in xs
    ensures k < |xs| && xs[k] == x && x !in xs[..k]
  {
    if xs[0] == x then 0
    else
      var k := 1 + FirstIndex(xs[1..], x);
      assert xs[..k] == [xs[0]] + xs[1..][..k - 1];
      k
  }

  /** Adding elements at the end does not move a first occurrence. */
  lemma FirstIndexOfPrefix<T>(xs: seq<T>, y: T, x: T)
    requires x in xs
    ensures x in xs + [y] && FirstIndex(xs + [y], x) == FirstIndex(xs, x)
  {
    assert (xs + [y])[FirstIndex(xs, x)] == x;
    FirstIndexAt(xs + [y], FirstIndex(xs, x));
  }

  /** A position holding a value not seen before it is that value's first index. */
  lemma FirstIndexAt<T>(xs: seq<T>, k: nat)
    requires k < |xs| && xs[k] !in xs[..k]
    ensures FirstIndex(xs, xs[k]) == k
  {
  }

  /** `Distinct` keeps the order in which the values first appear in `xs`. */
  lemma {:induction false} DistinctFirstAppearanceOrder<T>(xs: seq<T>)
    ensures forall i, j :: 0 <= i < j < |Distinct(xs)| ==>
              FirstIndex(xs, Distinct(xs)[i]) < FirstIndex(xs, Distinct(xs)[j])
  {
    if xs != [] {
      var init, y := xs[..|xs| - 1], xs[|xs| - 1];
      assert xs == init + [y];
      DistinctFirstAppearanceOrder(init);
      var d, r := Distinct(init), Distinct(xs);
      forall i, j | 0 <= i < j < |r|
        ensures FirstIndex(xs, r[i]) < FirstIndex(xs, r[j])
      {
        FirstIndexOfPrefix(init, y, r[i]);
        if j < |d| {
          FirstIndexOfPrefix(init, y, r[j]);
        } else {
          // r[j] is y, seen for the first time at the last position
          assert r[j] == y && y !in init;
          assert xs[..|init|] == init;
          FirstIndexAt(xs, |init|);
        }
      }
    }
  }

  /** A sequence without duplicates has as many elements as its set. */
  lemma {:induction false} NoDuplicatesCard<T>(xs: seq<T>)
    requires NoDuplicates(xs)
    ensures |Elements(xs)| == |xs|
  {
    if xs != [] {
      var init := xs[..|xs| - 1];
      NoDuplicatesCard(init);
      assert Elements(xs) == Elements(init) + {xs[|xs| - 1]};
      assert xs[|xs| - 1] !in Elements(init);
    }
  }

  /** Two sequences with the same members have the same set of elements. */
  lemma SameMembersSameElements<T>(xs: seq<T>, ys: seq<T>)
    requires forall k :: 0 <= k < |xs| ==> xs[k] in ys
    requires forall k :: 0 <= k < |ys| ==> ys[k] in xs
    ensures Elements(xs) == Elements(ys)
  {
  }

  /** `Distinct` lists every distinct value exactly once. */
  lemma DistinctCount<T>(xs: seq<T>)
    ensures |Distinct(xs)| == |Elements(xs)|
  {
    var d := Distinct(xs);
    NoDuplicatesCard(d);
    SameMembersSameElements(d, xs);
  }

  /** A sequence already free of duplicates is unchanged by `Distinct`. */
  lemma {:induction false} DistinctOfNoDuplicates<T>(xs: seq<T>)
    requires NoDuplicates(xs)
    ensures Distinct(xs) == xs
  {
    if xs != [] {
      var init := xs[..|xs| - 1];
      DistinctOfNoDuplicates(init);
      assert xs[|xs| - 1] !in init;
      assert init + [xs[|xs| - 1]] == xs;
    }
  }

  /** The batch has min(10, number of distinct values) elements. */
  lemma BatchLength<T>(xs: seq<T>)
    ensures |Batch(xs)| == Min(MaxBatch, |Elements(xs)|)
  {
    DistinctCount(xs);
  }

  /** The batch is the first ten distinct values, in order of first appearance. */
  lemma BatchOrder<T>(xs: seq<T>)
    ensures Batch(xs) == Distinct(xs)[..|Batch(xs)|]
    ensures forall i, j :: 0 <= i < j < |Batch(xs)| ==>
              FirstIndex(xs, Batch(xs)[i]) < FirstIndex(xs, Batch(xs)[j])
  {
    DistinctFirstAppearanceOrder(xs);
  }

  /** Deduplicating and capping a batch again gives the same batch. */
  lemma BatchIdempotent<T>(xs: seq<T>)
    ensures Batch(Batch(xs)) == Batch(xs)
  {
    DistinctOfNoDuplicates(Batch(xs));
  }

  /** `Distinct` of a sequence with one more element at the end adds that element to the set. */
  lemma DistinctSnoc<T>(xs: seq<T>, y: T)
    ensures Distinct(xs + [y]) == SetAdd(Distinct(xs), y)
  {
  }

  /** Values that were all seen already do not change the distinct list. */
  lemma {:induction false} DistinctIgnoresRepeats<T>(seen: seq<T>, repeats: seq<T>)
    requires forall k :: 0 <= k < |repeats| ==> repeats[k] in seen
    ensures Distinct(seen + repeats) == Distinct(seen)
  {
    if repeats == [] {
      assert seen + repeats == seen;
    } else {
      var init, y := repeats[..|repeats| - 1], repeats[|repeats| - 1];
      DistinctIgnoresRepeats(seen, init);
      assert seen + repeats == (seen + init) + [y];
      DistinctSnoc(seen + init, y);
      var k :| 0 <= k < |seen| && seen[k] == y;
      assert y in Distinct(seen);
    }
  }

  /** Twelve matches of three distinct URLs give a batch of exactly those three. */
  lemma TwelveMatchesThreeDistinct<T>(a: T, b: T, c: T)
    requires a != b && b != c && a != c
    ensures Batch([a, b, c, a, b, c, a, b, c, a, b, c]) == [a, b, c]
  {
    var first, repeats := [a, b, c], [a, b, c, a, b, c, a, b, c];
    assert first + repeats == [a, b, c, a, b, c, a, b, c, a, b, c];
    DistinctIgnoresRepeats(first, repeats);
    DistinctOfNoDuplicates(first);
  }
}
