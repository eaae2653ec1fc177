/** Python's `collections.Counter` over a list, and its `most_common`:
    a Counter is a dict from element to occurrence count whose keys are in
    order of first occurrence. */
module Counter {
  import opened Seqs
  import opened PyDict

  /** A Counter: each distinct element with its count, in insertion order. */
  type Tally<T> = Dict<T, nat>

  /** `Counter(xs)`. */
  function Of<T(==)>(xs: seq<T>): (c: Tally<T>)
    ensures Keys(c) == Distinct(xs)
    ensures forall k :: 0 <= k < |c| ==> c[k].1 == Count(xs, c[k].0) >= 1
  {
    var d := Distinct(xs);
    var c := seq(|d|, k requires 0 <= k < |d| => (d[k], Count(xs, d[k])));
    assert Keys(c) == d;
    c
  }

  /** Index of the first entry with a maximal count: the entry
      `max(..., key=count)` picks. */
  function TopIndex<T>(c: Tally<T>): (k: nat)
    requires |c| > 0
    ensures k < |c|
    ensures forall j :: 0 <= j < |c| ==> c[j].1 <= c[k].1
    ensures forall j :: 0 <= j < k ==> c[j].1 < c[k].1
  {
    if |c| == 1 then 0
    else
      var init := c[..|c| - 1];
      var k := TopIndex(init);
      assert forall j :: 0 <= j < |c| - 1 ==> c[j] == init[j];
      if c[|c| - 1].1 > c[k].1 then |c| - 1 else k
  }

  /** `c.most_common(1)[0]`, which is also `max(c, key=c.get)` with its count:
      the first entry, in insertion order, whose count is maximal. An empty
      Counter raises IndexError; every caller passes a non-empty one. */
  function MostCommonOne<T>(c: Tally<T>): (e: (T, nat))
    requires |c| > 0
    ensures e in c
    ensures forall j :: 0 <= j < |c| ==> c[j].1 <= e.1
  {
    c[TopIndex(c)]
  }

  /** The first element of a non-empty list whose count is maximal, with that
      count; among equally frequent elements the one seen first wins. */
  lemma {:induction false} MostCommonOfList<T>(xs: seq<T>)
    requires |xs| > 0
    ensures var e := MostCommonOne(Of(xs));
      && e.0 in xs
      && e.1 == Count(xs, e.0)
      && (forall i :: 0 <= i < |xs| ==> Count(xs, xs[i]) <= e.1)
      && (forall i :: 0 <= i < FirstIndex(xs, e.0) ==> Count(xs, xs[i]) < e.1)
  {
    var c := Of(xs);
    var k := TopIndex(c);
    assert MostCommonOne(c) == c[k];
    OfAt(xs, k);
    forall i | 0 <= i < |xs|
      ensures Count(xs, xs[i]) <= c[k].1
    {
      CountBelowTop(xs, i);
    }
    var d := Distinct(xs);
    forall m | 0 <= m < k
      ensures Count(xs, d[m]) < Count(xs, d[k])
    {
      OfAt(xs, m);
    }
    forall i | 0 <= i < FirstIndex(xs, d[k])
      ensures Count(xs, xs[i]) < c[k].1
    {
      EarlierBelowKey(xs, k, i);
    }
  }

  lemma {:induction false} CountBelowTop<T>(xs: seq<T>, i: nat)
    requires i < |xs|
    ensures Count(xs, xs[i]) <= MostCommonOne(Of(xs)).1
  {
    var c := Of(xs);
    var j := FirstIndex(Distinct(xs), xs[i]);
    OfAt(xs, j);
    assert c[j].1 == Count(xs, xs[i]);
  }

  /** If the `k`-th distinct element is strictly more frequent than every
      distinct element before it, it is strictly more frequent than every
      element seen before its first occurrence. */
  lemma {:induction false} EarlierBelowKey<T>(xs: seq<T>, k: nat, i: nat)
    requires k < |Distinct(xs)|
    requires forall m :: 0 <= m < k ==> Count(xs, Distinct(xs)[m]) < Count(xs, Distinct(xs)[k])
    requires i < FirstIndex(xs, Distinct(xs)[k])
    ensures Count(xs, xs[i]) < Count(xs, Distinct(xs)[k])
  {
    EarlierElementHasEarlierKey(xs, k, i);
  }

  /** An element seen before the first occurrence of the `k`-th distinct element
      is one of the first `k` distinct elements. */
  lemma {:induction false} EarlierElementHasEarlierKey<T>(xs: seq<T>, k: nat, i: nat)
    requires k < |Distinct(xs)|
    requires i < FirstIndex(xs, Distinct(xs)[k])
    ensures FirstIndex(Distinct(xs), xs[i]) < k
  {
    var d := Distinct(xs);
    var j := FirstIndex(d, xs[i]);
    assert FirstIndex(xs, d[j]) <= i;
    if j > k {
      DistinctOrderPair(xs, k, j);
    }
  }

  /** Insert an entry into a list sorted by descending count, after every entry
      whose count is at least as large (so earlier equal entries stay first). */
  function InsertByCount<T>(e: (T, nat), s: Tally<T>): (r: Tally<T>)
    ensures multiset(r) == multiset(s) + multiset{e}
    ensures |r| == |s| + 1
    ensures r[0] == e || (|s| > 0 && r[0] == s[0])
  {
    if |s| == 0 || e.1 > s[0].1 then [e] + s
    else
      var rest := InsertByCount(e, s[1..]);
      assert s == [s[0]] + s[1..];
      [s[0]] + rest
  }

  /** Inserting into a list sorted by count keeps it sorted. */
  lemma {:induction false} InsertByCountSorted<T>(e: (T, nat), s: Tally<T>)
    requires ByCount(s)
    ensures ByCount(InsertByCount(e, s))
  {
    var r := InsertByCount(e, s);
    if |s| == 0 || e.1 > s[0].1 {
      assert r == [e] + s;
      forall i, j | 0 <= i < j < |r|
        ensures r[i].1 >= r[j].1
      {
        if i == 0 {
          assert r[j] == s[j - 1];
        } else {
          assert r[i] == s[i - 1] && r[j] == s[j - 1];
        }
      }
    } else {
      var tail := s[1..];
      assert ByCount(tail) by {
        forall i, j | 0 <= i < j < |tail|
          ensures tail[i].1 >= tail[j].1
        {
          assert tail[i] == s[i + 1] && tail[j] == s[j + 1];
        }
      }
      InsertByCountSorted(e, tail);
      var rest := InsertByCount(e, tail);
      assert r == [s[0]] + rest;
      assert s[0].1 >= rest[0].1 by {
        if rest[0] != e {
          assert rest[0] == tail[0] == s[1];
        }
      }
      forall i, j | 0 <= i < j < |r|
        ensures r[i].1 >= r[j].1
      {
        if i == 0 {
          assert r[j] == rest[j - 1];
          assert rest[0].1 >= rest[j - 1].1 || j == 1;
        } else {
          assert r[i] == rest[i - 1] && r[j] == rest[j - 1];
        }
      }
    }
  }

  /** Entries in non-increasing order of count. */
  predicate ByCount<T>(c: Tally<T>)
  {
    forall i, j :: 0 <= i < j < |c| ==> c[i].1 >= c[j].1
  }

  /** `c.most_common()`: all entries, sorted by descending count with ties in
      insertion order (Python's sort is stable). */
  function MostCommon<T>(c: Tally<T>): (r: Tally<T>)
    ensures ByCount(r)
    ensures multiset(r) == multiset(c)
  {
    if |c| == 0 then []
    else
      var init := c[..|c| - 1];
      assert c == init + [c[|c| - 1]];
      InsertByCountSorted(c[|c| - 1], MostCommon(init));
      InsertByCount(c[|c| - 1], MostCommon(init))
  }

  /** Among entries of equal count, `r` keeps the order they have in `c`. */
  ghost predicate KeepsTies<T>(r: Tally<T>, c: Tally<T>)
  {
    forall i, j :: 0 <= i < j < |r| && r[i].1 == r[j].1 ==>
      exists a, b :: 0 <= a < b < |c| && c[a] == r[i] && c[b] == r[j]
  }

  /** Where `InsertByCount` puts the new entry: after the leading entries
      whose count is at least its own. */
  function InsertPos<T>(e: (T, nat), s: Tally<T>): (p: nat)
    ensures p <= |s|
  {
    if |s| == 0 || e.1 > s[0].1 then 0 else 1 + InsertPos(e, s[1..])
  }

  /** Insertion puts the entry at `InsertPos` and shifts the entries behind it by one. */
  lemma {:induction false} InsertByCountShape<T>(e: (T, nat), s: Tally<T>)
    ensures var p := InsertPos(e, s);
      var r := InsertByCount(e, s);
      && |r| == |s| + 1 && r[p] == e
      && (forall k :: 0 <= k < p ==> r[k] == s[k])
      && (forall k :: p < k < |r| ==> r[k] == s[k - 1])
  {
    if |s| > 0 && e.1 <= s[0].1 {
      var tail := s[1..];
      InsertByCountShape(e, tail);
      assert InsertByCount(e, s) == [s[0]] + InsertByCount(e, tail);
      ShiftShape(e, s, InsertByCount(e, tail), InsertPos(e, tail));
    }
  }

  /** Putting the head of `s` in front of an insertion into its tail moves the
      insertion point one place on. */
  lemma {:induction false} ShiftShape<T>(e: (T, nat), s: Tally<T>, rest: Tally<T>, q: nat)
    requires |s| > 0 && q < |rest| == |s| && rest[q] == e
    requires forall k :: 0 <= k < q ==> rest[k] == s[1..][k]
    requires forall k :: q < k < |rest| ==> rest[k] == s[1..][k - 1]
    ensures var r := [s[0]] + rest;
      && |r| == |s| + 1 && r[q + 1] == e
      && (forall k :: 0 <= k < q + 1 ==> r[k] == s[k])
      && (forall k :: q + 1 < k < |r| ==> r[k] == s[k - 1])
  {
    var r := [s[0]] + rest;
    forall k | 0 < k < q + 1
      ensures r[k] == s[k]
    {
      assert r[k] == rest[k - 1];
    }
    forall k | q + 1 < k < |r|
      ensures r[k] == s[k - 1]
    {
      assert r[k] == rest[k - 1];
    }
  }

  /** The entries in front of `InsertPos` have at least the new entry's count,
      and the entry at `InsertPos`, if any, has a smaller one. */
  lemma {:induction false} InsertPosBounds<T>(e: (T, nat), s: Tally<T>)
    ensures forall k :: 0 <= k < InsertPos(e, s) ==> s[k].1 >= e.1
    ensures InsertPos(e, s) < |s| ==> s[InsertPos(e, s)].1 < e.1
  {
    if |s| > 0 && e.1 <= s[0].1 {
      var tail := s[1..];
      InsertPosBounds(e, tail);
      assert forall k :: 0 < k < |s| ==> s[k] == tail[k - 1];
    }
  }

  /** The last step of `MostCommon` inserts the Counter's last entry. */
  lemma {:induction false} MostCommonStep<T>(c: Tally<T>)
    requires |c| > 0
    ensures MostCommon(c) == InsertByCount(c[|c| - 1], MostCommon(c[..|c| - 1]))
    ensures multiset(MostCommon(c[..|c| - 1])) == multiset(c[..|c| - 1])
    ensures ByCount(MostCommon(c[..|c| - 1]))
  {
  }

  /** `most_common()` is a stable sort: entries with equal counts come out in
      the order they have in the Counter, that is in order of first occurrence. */
  lemma {:induction false} MostCommonKeepsTies<T>(c: Tally<T>)
    ensures KeepsTies(MostCommon(c), c)
  {
    if |c| > 0 {
      var init := c[..|c| - 1];
      MostCommonKeepsTies(init);
      MostCommonStep(c);
      InsertKeepsTies(c, init, c[|c| - 1], MostCommon(init));
    }
  }

  /** Every entry of `Counter(xs).most_common()` is an element of `xs` with its count. */
  lemma {:induction false} RankedEntries<T>(xs: seq<T>)
    ensures forall j :: 0 <= j < |MostCommon(Of(xs))| ==>
      MostCommon(Of(xs))[j].0 in xs && MostCommon(Of(xs))[j].1 == Count(xs, MostCommon(Of(xs))[j].0)
  {
    var c := Of(xs);
    var ranked := MostCommon(c);
    forall j | 0 <= j < |ranked|
      ensures ranked[j].0 in xs && ranked[j].1 == Count(xs, ranked[j].0)
    {
      assert ranked[j] in multiset(c);
      var m :| 0 <= m < |c| && c[m] == ranked[j];
      assert Keys(c)[m] == ranked[j].0;
    }
  }

  /** Two entries of the ranking, the earlier first: the earlier has at least
      the count of the later, and on equal counts it occurs first. */
  lemma {:induction false} MostCommonPair<T>(xs: seq<T>, a: nat, b: nat)
    requires a < b < |MostCommon(Of(xs))|
    ensures var r := MostCommon(Of(xs));
      && r[a].1 >= r[b].1
      && r[a].0 in xs && r[b].0 in xs
      && (r[a].1 == r[b].1 ==> FirstIndex(xs, r[a].0) < FirstIndex(xs, r[b].0))
  {
    MostCommonOrder(xs);
  }

  /** `Counter(xs).most_common()` ranks the distinct elements by descending
      count, and equally frequent elements by their first occurrence in `xs`. */
  lemma {:induction false} MostCommonOrder<T>(xs: seq<T>)
    ensures var r := MostCommon(Of(xs));
      forall i, j :: 0 <= i < j < |r| ==>
        && r[i].1 >= r[j].1
        && r[i].0 in xs && r[j].0 in xs
        && (r[i].1 == r[j].1 ==> FirstIndex(xs, r[i].0) < FirstIndex(xs, r[j].0))
  {
    var r := MostCommon(Of(xs));
    RankedEntries(xs);
    MostCommonKeepsTies(Of(xs));
    forall i, j | 0 <= i < j < |r| && r[i].1 == r[j].1
      ensures FirstIndex(xs, r[i].0) < FirstIndex(xs, r[j].0)
    {
      RankedTie(xs, r, i, j);
    }
  }

  /** Two equally frequent entries of the ranking are in first-occurrence order. */
  lemma {:induction false} RankedTie<T>(xs: seq<T>, r: Tally<T>, i: nat, j: nat)
    requires KeepsTies(r, Of(xs))
    requires i < j < |r| && r[i].1 == r[j].1 && r[i].0 in xs && r[j].0 in xs
    ensures FirstIndex(xs, r[i].0) < FirstIndex(xs, r[j].0)
  {
    var c := Of(xs);
    var a, b :| 0 <= a < b < |c| && c[a] == r[i] && c[b] == r[j];
    OfAt(xs, a);
    OfAt(xs, b);
    DistinctFirstOccurrenceOrder(xs);
  }

  /** Inserting the Counter's last entry into a stable sort of the others
      gives a stable sort of the whole Counter. */
  lemma {:induction false} InsertKeepsTies<T>(c: Tally<T>, init: Tally<T>, e: (T, nat), s: Tally<T>)
    requires |c| == |init| + 1 && c[|init|] == e
    requires forall k :: 0 <= k < |init| ==> c[k] == init[k]
    requires KeepsTies(s, init) && multiset(s) == multiset(init) && ByCount(s)
    ensures KeepsTies(InsertByCount(e, s), c)
  {
    var r := InsertByCount(e, s);
    var p := InsertPos(e, s);
    InsertByCountShape(e, s);
    InsertPosBounds(e, s);
    AfterInsertSmaller(e, s, r, p);
    TiesAfterInsert(c, init, e, s, r, p);
  }

  /** Every tie of the list with the entry inserted is in Counter order. */
  lemma {:induction false} TiesAfterInsert<T>(c: Tally<T>, init: Tally<T>, e: (T, nat), s: Tally<T>, r: Tally<T>, p: nat)
    requires |c| == |init| + 1 && c[|init|] == e
    requires forall k :: 0 <= k < |init| ==> c[k] == init[k]
    requires KeepsTies(s, init) && multiset(s) == multiset(init)
    requires p <= |s| && |r| == |s| + 1 && r[p] == e
    requires forall k :: 0 <= k < p ==> r[k] == s[k]
    requires forall k :: p < k < |r| ==> r[k] == s[k - 1] && r[k].1 < e.1
    ensures KeepsTies(r, c)
  {
    forall i, j | 0 <= i < j < |r| && r[i].1 == r[j].1
      ensures exists a, b :: 0 <= a < b < |c| && c[a] == r[i] && c[b] == r[j]
    {
      TieAfterInsert(c, init, e, s, r, p, i, j);
    }
  }

  /** On a sorted list, everything the insertion puts behind the new entry has
      a smaller count. */
  lemma {:induction false} AfterInsertSmaller<T>(e: (T, nat), s: Tally<T>, r: Tally<T>, p: nat)
    requires ByCount(s) && p <= |s| && |r| == |s| + 1
    requires forall k :: p < k < |r| ==> r[k] == s[k - 1]
    requires p < |s| ==> s[p].1 < e.1
    ensures forall k :: p < k < |r| ==> r[k].1 < e.1
  {
    forall k | p < k < |r|
      ensures r[k].1 < e.1
    {
      assert r[k] == s[k - 1];
      if k - 1 > p {
        assert s[p].1 >= s[k - 1].1;
      }
    }
  }

  /** One insertion step of the stable sort keeps every tie in Counter order. */
  lemma {:induction false} TieAfterInsert<T>(c: Tally<T>, init: Tally<T>, e: (T, nat), s: Tally<T>, r: Tally<T>,
                                             p: nat, i: nat, j: nat)
    requires |c| == |init| + 1 && c[|init|] == e
    requires forall k :: 0 <= k < |init| ==> c[k] == init[k]
    requires KeepsTies(s, init) && multiset(s) == multiset(init)
    requires p <= |s| && |r| == |s| + 1 && r[p] == e
    requires forall k :: 0 <= k < p ==> r[k] == s[k]
    requires forall k :: p < k < |r| ==> r[k] == s[k - 1] && r[k].1 < e.1
    requires i < j < |r| && r[i].1 == r[j].1
    ensures exists a, b :: 0 <= a < b < |c| && c[a] == r[i] && c[b] == r[j]
  {
    if j == p {
      assert r[i] == s[i];
      assert s[i] in multiset(init);
      var a :| 0 <= a < |init| && init[a] == s[i];
      assert c[a] == r[i] && c[|init|] == r[j];
    } else if i != p {
      var i' := if i < p then i else i - 1;
      var j' := if j < p then j else j - 1;
      assert r[i] == s[i'] && r[j] == s[j'];
      var a, b :| 0 <= a < b < |init| && init[a] == s[i'] && init[b] == s[j'];
      assert c[a] == r[i] && c[b] == r[j];
    }
  }

  /** A sorted tally's count column is descending. */
  lemma {:induction false} ByCountValues<T>(c: Tally<T>)
    requires ByCount(c)
    ensures Descending(Values(c))
  {
  }

  /** Sum of the counts of the elements of `d` in `xs`. */
  function CountsOver<T(==)>(d: seq<T>, xs: seq<T>): nat
  {
    if |d| == 0 then 0 else CountsOver(d[..|d| - 1], xs) + Count(xs, d[|d| - 1])
  }

  /** `sum(c.values())`: the counts of a tally added up. */
  function Total<T>(c: Tally<T>): nat
  {
    if |c| == 0 then 0 else Total(c[..|c| - 1]) + c[|c| - 1].1
  }

  /** The counts of a Counter add up to the length of the list. */
  lemma {:induction false} TallyTotal<T>(xs: seq<T>)
    ensures Total(Of(xs)) == |xs|
  {
    var c := Of(xs);
    TotalCountsOver(c, xs);
    DistinctCountsTotal(xs);
  }

  lemma {:induction false} TotalCountsOver<T>(c: Tally<T>, xs: seq<T>)
    requires forall k :: 0 <= k < |c| ==> c[k].1 == Count(xs, c[k].0)
    ensures Total(c) == CountsOver(Keys(c), xs)
  {
    if |c| > 0 {
      var init := c[..|c| - 1];
      TotalCountsOver(init, xs);
      assert Keys(c)[..|c| - 1] == Keys(init);
    }
  }

  lemma {:induction false} DistinctCountsTotal<T>(xs: seq<T>)
    ensures CountsOver(Distinct(xs), xs) == |xs|
  {
    if |xs| > 0 {
      var init := xs[..|xs| - 1];
      var x := xs[|xs| - 1];
      assert xs == init + [x];
      var d := Distinct(init);
      DistinctCountsTotal(init);
      CountsOverAppend(d, init, x);
      if x !in d {
        assert (d + [x])[..|d|] == d;
        CountsOverAppend(d, init, x);
      }
    }
  }

  /** Appending `x` to the list adds one to the sum exactly when `x` is counted. */
  lemma {:induction false} CountsOverAppend<T>(d: seq<T>, xs: seq<T>, x: T)
    requires NoDup(d)
    ensures CountsOver(d, xs + [x]) == CountsOver(d, xs) + (if x in d then 1 else 0)
  {
    if |d| > 0 {
      var init := d[..|d| - 1];
      assert d == init + [d[|d| - 1]];
      CountsOverAppend(init, xs, x);
    }
  }

  /** `c[x] += 1` on a `defaultdict(int)` or a Counter. */
  function Increment<T(==)>(c: Tally<T>, x: T): Tally<T>
  {
    Put(c, x, GetOr(c, x, 0) + 1)
  }

  /** Incrementing the Counter of a list counts the list with one more element. */
  lemma {:induction false} IncrementOf<T>(xs: seq<T>, x: T)
    ensures Increment(Of(xs), x) == Of(xs + [x])
  {
    var ys := xs + [x];
    DistinctAppend(xs, x);
    CountAppend(xs, x, x);
    forall y | y != x
      ensures Count(ys, y) == Count(xs, y)
    {
      CountAppend(xs, x, y);
    }
    IncrementCounts(xs, x, ys);
  }

  /** Incrementing `x` in the Counter of `xs` gives the Counter of any list
      `ys` that has the same elements in the same first-occurrence order (`x`
      last if it is new) and one more `x`. */
  lemma {:induction false} IncrementCounts<T>(xs: seq<T>, x: T, ys: seq<T>)
    requires Distinct(ys) == if x in xs then Distinct(xs) else Distinct(xs) + [x]
    requires Count(ys, x) == Count(xs, x) + 1
    requires forall y :: y != x ==> Count(ys, y) == Count(xs, y)
    ensures Increment(Of(xs), x) == Of(ys)
  {
    if x in xs {
      IncrementPresent(xs, x, ys);
    } else {
      IncrementAbsent(xs, x, ys);
    }
  }

  lemma {:induction false} IncrementPresent<T>(xs: seq<T>, x: T, ys: seq<T>)
    requires x in xs && Distinct(ys) == Distinct(xs)
    requires Count(ys, x) == Count(xs, x) + 1
    requires forall y :: y != x ==> Count(ys, y) == Count(xs, y)
    ensures Increment(Of(xs), x) == Of(ys)
  {
    var c := Of(xs);
    var i := FirstIndex(Distinct(xs), x);
    OfAt(xs, i);
    KeyAt(c, i);
    IncrementEntry(c, x, i, Count(ys, x));
    PresentTable(xs, x, ys, i);
  }

  /** Incrementing a present key updates its entry in place. */
  lemma {:induction false} IncrementEntry<T>(c: Tally<T>, x: T, i: nat, v: nat)
    requires x in Keys(c) && FirstIndex(Keys(c), x) == i && v == c[i].1 + 1
    ensures Increment(c, x) == c[i := (x, v)]
  {
    GetOrPresent(c, x);
    IncrementIsPut(c, x, v);
    PutExisting<T, nat>(c, x, v);
  }

  /** Incrementing a key assigns its count plus one. */
  lemma {:induction false} IncrementIsPut<T>(c: Tally<T>, x: T, v: nat)
    requires v == GetOr(c, x, 0) + 1
    ensures Increment(c, x) == Put(c, x, v)
  {
  }

  /** `get` with a default on a present key gives the value of its entry. */
  lemma {:induction false} GetOrPresent<T>(c: Tally<T>, x: T)
    requires x in Keys(c)
    ensures GetOr(c, x, 0) == c[FirstIndex(Keys(c), x)].1
  {
  }

  /** The Counter of `xs` with the entry of `x` bumped is the Counter of `ys`. */
  lemma {:induction false} PresentTable<T>(xs: seq<T>, x: T, ys: seq<T>, i: nat)
    requires Distinct(ys) == Distinct(xs)
    requires Count(ys, x) == Count(xs, x) + 1
    requires forall y :: y != x ==> Count(ys, y) == Count(xs, y)
    requires i < |Distinct(xs)| && Distinct(xs)[i] == x
    ensures Of(xs)[i := (x, Count(ys, x))] == Of(ys)
  {
    var r := Of(xs)[i := (x, Count(ys, x))];
    forall k | 0 <= k < |r|
      ensures r[k] == Of(ys)[k]
    {
      MorePresentAt(xs, x, ys, i, k);
    }
    MorePresentAt(xs, x, ys, i, i);
  }

  lemma {:induction false} IncrementAbsent<T>(xs: seq<T>, x: T, ys: seq<T>)
    requires x !in xs && Distinct(ys) == Distinct(xs) + [x]
    requires Count(ys, x) == Count(xs, x) + 1
    requires forall y :: y != x ==> Count(ys, y) == Count(xs, y)
    ensures Increment(Of(xs), x) == Of(ys)
  {
    IncrementAbsentEntry(Of(xs), x);
    AbsentTable(xs, x, ys);
  }

  /** Incrementing an absent key appends an entry with count one. */
  lemma {:induction false} IncrementAbsentEntry<T>(c: Tally<T>, x: T)
    requires x !in Keys(c)
    ensures Increment(c, x) == c + [(x, 1)]
  {
    assert GetOr(c, x, 0) == 0;
    PutNew<T, nat>(c, x, 1);
  }

  /** The Counter of `xs` with an entry for `x` appended is the Counter of `ys`. */
  lemma {:induction false} AbsentTable<T>(xs: seq<T>, x: T, ys: seq<T>)
    requires x !in xs && Distinct(ys) == Distinct(xs) + [x]
    requires Count(ys, x) == Count(xs, x) + 1
    requires forall y :: y != x ==> Count(ys, y) == Count(xs, y)
    ensures Of(xs) + [(x, 1)] == Of(ys)
  {
    MoreAbsentLast(xs, x, ys);
    forall k | 0 <= k < |Of(xs)|
      ensures Of(ys)[k] == Of(xs)[k]
    {
      MoreAbsentBefore(xs, x, ys, k);
    }
  }

  /** The `k`-th entry of a Counter is the `k`-th distinct element and its count. */
  lemma {:induction false} OfAt<T>(xs: seq<T>, k: nat)
    requires k < |Distinct(xs)|
    ensures |Of(xs)| == |Distinct(xs)|
    ensures Of(xs)[k] == (Distinct(xs)[k], Count(xs, Distinct(xs)[k]))
  {
    assert Keys(Of(xs))[k] == Of(xs)[k].0;
  }

  /** Counting one more occurrence of an element already present bumps its
      entry and leaves every other entry as it was. */
  lemma {:induction false} MorePresentAt<T>(xs: seq<T>, x: T, ys: seq<T>, i: nat, k: nat)
    requires Distinct(ys) == Distinct(xs)
    requires Count(ys, x) == Count(xs, x) + 1
    requires forall y :: y != x ==> Count(ys, y) == Count(xs, y)
    requires i < |Distinct(xs)| && Distinct(xs)[i] == x && k < |Distinct(xs)|
    ensures |Of(ys)| == |Of(xs)|
    ensures Of(ys)[k] == if k == i then (x, Count(ys, x)) else Of(xs)[k]
  {
    var y := Distinct(xs)[k];
    OfAt(ys, k);
    OfAt(xs, k);
    if k != i {
      assert y != x;
    }
  }

  /** Counting an element not yet present leaves every earlier entry as it was. */
  lemma {:induction false} MoreAbsentBefore<T>(xs: seq<T>, x: T, ys: seq<T>, k: nat)
    requires Distinct(ys) == Distinct(xs) + [x]
    requires forall y :: y != x ==> Count(ys, y) == Count(xs, y)
    requires x !in xs && k < |Distinct(xs)|
    ensures Of(ys)[k] == Of(xs)[k]
  {
    var y := Distinct(xs)[k];
    OfAt(ys, k);
    OfAt(xs, k);
    assert Distinct(ys)[k] == y;
    assert y != x;
  }

  /** Counting an element not yet present adds an entry for it with count one
      at the end. */
  lemma {:induction false} MoreAbsentLast<T>(xs: seq<T>, x: T, ys: seq<T>)
    requires Distinct(ys) == Distinct(xs) + [x]
    requires Count(ys, x) == Count(xs, x) + 1
    requires x !in xs
    ensures |Of(ys)| == |Of(xs)| + 1
    ensures Of(ys)[|Of(xs)|] == (x, 1)
  {
    OfAt(ys, |Distinct(xs)|);
    assert Count(xs, x) == 0;
  }
}
