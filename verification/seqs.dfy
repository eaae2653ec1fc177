/** Generic facts about finite sequences: occurrence counts, first and last
    occurrence, de-duplication in first-occurrence order, sums and maxima. */
module Seqs {

  /** Number of occurrences of `x` in `xs`. */
  function Count<T(==)>(xs: seq<T>, x: T): nat
  {
    multiset(xs)[x]
  }

  /** No element occurs twice. */
  predicate NoDup<T(==)>(xs: seq<T>)
  {
    forall i, j :: 0 <= i < j < |xs| ==> xs[i] != xs[j]
  }

  /** Index of the first occurrence of `x` in `xs`. */
  function FirstIndex<T(==)>(xs: seq<T>, x: T): (i: nat)
    requires x in xs
    ensures i < |xs| && xs[i] == x
    ensures forall k :: 0 <= k < i ==> xs[k] != x
  {
    if xs[0] == x then 0 else 1 + FirstIndex(xs[1..], x)
  }

  /** Index of the last occurrence of `x` in `xs`. */
  function LastIndex<T(==)>(xs: seq<T>, x: T): (i: nat)
    requires x in xs
    ensures i < |xs| && xs[i] == x
    ensures forall k :: i < k < |xs| ==> xs[k] != x
  {
    if xs[|xs| - 1] == x then |xs| - 1 else LastIndex(xs[..|xs| - 1], x)
  }

  /** The distinct elements of `xs`, each once, in the order of their first
      occurrence: the key order of a Python dict or Counter filled from `xs`. */
  function Distinct<T(==)>(xs: seq<T>): (d: seq<T>)
    ensures NoDup(d)
    ensures forall k :: 0 <= k < |d| ==> d[k] in xs
    ensures forall k :: 0 <= k < |xs| ==> xs[k] in d
    ensures |d| <= |xs|
  {
    if |xs| == 0 then []
    else
      var init := xs[..|xs| - 1];
      assert xs == init + [xs[|xs| - 1]];
      var d := Distinct(init);
      if xs[|xs| - 1] in d then d else d + [xs[|xs| - 1]]
  }

  /** Distinct lists the elements in increasing order of first occurrence. */
  lemma {:induction false} DistinctFirstOccurrenceOrder<T>(xs: seq<T>)
    ensures forall i, j :: 0 <= i < j < |Distinct(xs)| ==>
      FirstIndex(xs, Distinct(xs)[i]) < FirstIndex(xs, Distinct(xs)[j])
  {
    if |xs| > 0 {
      var init := xs[..|xs| - 1];
      var x := xs[|xs| - 1];
      DistinctFirstOccurrenceOrder(init);
      forall i, j | 0 <= i < j < |Distinct(init + [x])|
        ensures FirstIndex(init + [x], Distinct(init + [x])[i]) < FirstIndex(init + [x], Distinct(init + [x])[j])
      {
        OrderAfterAppend(init, x, i, j);
      }
      assert xs == init + [x];
    }
  }

  /** Of two distinct elements, the one listed first occurs first. */
  lemma {:induction false} DistinctOrderPair<T>(xs: seq<T>, a: nat, b: nat)
    requires a < b < |Distinct(xs)|
    ensures FirstIndex(xs, Distinct(xs)[a]) < FirstIndex(xs, Distinct(xs)[b])
  {
    DistinctFirstOccurrenceOrder(xs);
  }

  /** Appending one element keeps the first-occurrence order of the distinct
      elements, a new element coming last. */
  lemma {:induction false} OrderAfterAppend<T>(xs: seq<T>, x: T, i: nat, j: nat)
    requires i < j < |Distinct(xs + [x])|
    requires j < |Distinct(xs)| ==> FirstIndex(xs, Distinct(xs)[i]) < FirstIndex(xs, Distinct(xs)[j])
    ensures FirstIndex(xs + [x], Distinct(xs + [x])[i]) < FirstIndex(xs + [x], Distinct(xs + [x])[j])
  {
    DistinctAppend(xs, x);
    var d := Distinct(xs);
    var dx := Distinct(xs + [x]);
    assert dx[i] == d[i];
    FirstIndexOfExtension(xs, [x], d[i]);
    if j < |d| {
      assert dx[j] == d[j];
      FirstIndexOfExtension(xs, [x], d[j]);
    } else {
      FirstIndexOfNew(xs, x);
    }
  }

  /** An element new to `xs` first occurs in `xs + [x]` at the end. */
  lemma {:induction false} FirstIndexOfNew<T>(xs: seq<T>, x: T)
    requires x !in xs
    ensures x in xs + [x] && FirstIndex(xs + [x], x) == |xs|
  {
    var ys := xs + [x];
    assert ys[|xs|] == x;
    forall k | 0 <= k < |xs|
      ensures ys[k] != x
    {
      assert ys[k] == xs[k];
    }
  }

  /** In a list without duplicates, an element's first occurrence is its only one. */
  lemma {:induction false} FirstIndexNoDup<T>(xs: seq<T>, k: nat)
    requires NoDup(xs) && k < |xs|
    ensures FirstIndex(xs, xs[k]) == k
  {
  }

  /** Extending a sequence at the end leaves first occurrences in place. */
  lemma {:induction false} FirstIndexOfExtension<T>(xs: seq<T>, ys: seq<T>, x: T)
    requires x in xs
    ensures x in xs + ys && FirstIndex(xs + ys, x) == FirstIndex(xs, x)
  {
    var i := FirstIndex(xs, x);
    assert (xs + ys)[i] == x;
  }

  /** Sum of a sequence of naturals. */
  function Sum(xs: seq<nat>): nat
  {
    if |xs| == 0 then 0 else Sum(xs[..|xs| - 1]) + xs[|xs| - 1]
  }

  /** Python's `max` on a non-empty list. */
  function Max(xs: seq<nat>): (m: nat)
    requires |xs| > 0
    ensures m in xs
    ensures forall k :: 0 <= k < |xs| ==> xs[k] <= m
  {
    if |xs| == 1 then xs[0]
    else
      var m := Max(xs[..|xs| - 1]);
      assert forall k :: 0 <= k < |xs| - 1 ==> xs[k] == xs[..|xs| - 1][k];
      if xs[|xs| - 1] > m then xs[|xs| - 1] else m
  }

  /** Non-increasing order, the order of a descending sort. */
  predicate Descending(xs: seq<nat>)
  {
    forall i, j :: 0 <= i < j < |xs| ==> xs[i] >= xs[j]
  }

  /** The elements satisfying `p`, in their original order (a list comprehension
      with an `if`, or a boolean row mask). */
  function Filter<T(!new)>(xs: seq<T>, p: T -> bool): (r: seq<T>)
    ensures |r| <= |xs|
    ensures forall k :: 0 <= k < |r| ==> p(r[k]) && r[k] in xs
    ensures forall k :: 0 <= k < |xs| && p(xs[k]) ==> xs[k] in r
  {
    if |xs| == 0 then []
    else
      var init := xs[..|xs| - 1];
      var x := xs[|xs| - 1];
      assert xs == init + [x];
      Filter(init, p) + (if p(x) then [x] else [])
  }

  /** A filter keeps every passing element as often as it occurs, and nothing
      else. */
  lemma {:induction false} FilterCount<T(!new)>(xs: seq<T>, p: T -> bool)
    ensures forall y :: Count(Filter(xs, p), y) == if p(y) then Count(xs, y) else 0
  {
    if |xs| > 0 {
      var init := xs[..|xs| - 1];
      var x := xs[|xs| - 1];
      FilterCount(init, p);
      FilterLast(xs, p);
      assert xs == init + [x];
      forall y ensures Count(Filter(xs, p), y) == if p(y) then Count(xs, y) else 0 {
        CountAppend(init, x, y);
        ConcatCount(Filter(init, p), if p(x) then [x] else [], y);
      }
    }
  }

  /** Filtering a concatenation filters each part and keeps the parts in
      order: together with the one-element case this fixes the order of the
      rows kept. */
  lemma {:induction false} FilterAppend<T(!new)>(xs: seq<T>, ys: seq<T>, p: T -> bool)
    ensures Filter(xs + ys, p) == Filter(xs, p) + Filter(ys, p)
    decreases |ys|
  {
    if |ys| > 0 {
      var init := ys[..|ys| - 1];
      var y := ys[|ys| - 1];
      var zs := xs + ys;
      assert zs[..|zs| - 1] == xs + init && zs[|zs| - 1] == y;
      FilterLast(zs, p);
      FilterLast(ys, p);
      FilterAppend(xs, init, p);
      var a, b, c := Filter(xs, p), Filter(init, p), (if p(y) then [y] else []);
      assert Filter(zs, p) == (a + b) + c;
      assert Filter(ys, p) == b + c;
      ConcatAssoc(a, b, c);
    } else {
      assert xs + ys == xs;
    }
  }

  lemma {:induction false} ConcatAssoc<T>(a: seq<T>, b: seq<T>, c: seq<T>)
    ensures (a + b) + c == a + (b + c)
  {
  }

  /** Filtering a non-empty list filters all but its last element, then the last. */
  lemma {:induction false} FilterLast<T(!new)>(xs: seq<T>, p: T -> bool)
    requires |xs| > 0
    ensures Filter(xs, p) == Filter(xs[..|xs| - 1], p) + (if p(xs[|xs| - 1]) then [xs[|xs| - 1]] else [])
  {
  }

  /** A one-element list keeps its element exactly when it passes. */
  lemma {:induction false} FilterSingle<T(!new)>(x: T, p: T -> bool)
    ensures Filter([x], p) == if p(x) then [x] else []
  {
    assert [x][..0] == [];
  }

  /** Occurrences in a concatenation add up. */
  lemma {:induction false} ConcatCount<T>(a: seq<T>, b: seq<T>, y: T)
    ensures Count(a + b, y) == Count(a, y) + Count(b, y)
  {
    assert multiset(a + b) == multiset(a) + multiset(b);
  }

  /** Appending one element adds one occurrence of it and of nothing else. */
  lemma {:induction false} CountAppend<T>(xs: seq<T>, x: T, y: T)
    ensures Count(xs + [x], y) == Count(xs, y) + (if y == x then 1 else 0)
  {
    assert multiset(xs + [x]) == multiset(xs) + multiset{x};
  }

  /** Putting one element in front adds one occurrence of it and of nothing else. */
  lemma {:induction false} CountPrepend<T>(x: T, xs: seq<T>, y: T)
    ensures Count([x] + xs, y) == Count(xs, y) + (if y == x then 1 else 0)
  {
    assert multiset([x] + xs) == multiset{x} + multiset(xs);
  }

  /** A non-empty sequence counts its head and then its tail. */
  lemma {:induction false} CountFront<T>(xs: seq<T>, y: T)
    requires |xs| > 0
    ensures Count(xs, y) == Count(xs[1..], y) + (if y == xs[0] then 1 else 0)
  {
    assert xs == [xs[0]] + xs[1..];
    CountPrepend(xs[0], xs[1..], y);
  }

  /** Appending one element extends the distinct list only when it is new. */
  lemma {:induction false} DistinctAppend<T>(xs: seq<T>, x: T)
    ensures Distinct(xs + [x]) == if x in xs then Distinct(xs) else Distinct(xs) + [x]
  {
    assert (xs + [x])[..|xs|] == xs;
  }

  /** Two different elements together occur at most as often as the list is long. */
  lemma {:induction false} TwoCountsBound<T>(xs: seq<T>, x: T, y: T)
    requires x != y
    ensures Count(xs, x) + Count(xs, y) <= |xs|
  {
    if |xs| > 0 {
      var init := xs[..|xs| - 1];
      assert xs == init + [xs[|xs| - 1]];
      TwoCountsBound(init, x, y);
    }
  }

  /** A sequence is its part before index `i`, its element at `i`, and its part after. */
  lemma {:induction false} AroundIndex<T>(s: seq<T>, i: nat)
    requires i < |s|
    ensures s == s[..i] + [s[i]] + s[i + 1..]
  {
  }
}
