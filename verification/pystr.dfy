/** Python string semantics the scripts rely on: clamped slicing `s[i:j]`,
    the substring test `p in s`, and `str.split(sep)` with a one-character
    separator. */
module PyStr {
  import Seqs

  function Min(a: int, b: int): int { if a <= b then a else b }

  /** Python's normalisation of a slice bound: a negative bound counts from
      the end, and the result is clamped into `0..n`. */
  function SliceBound(i: int, n: nat): (b: nat)
    ensures b <= n
  {
    if i < 0 then (if i + n < 0 then 0 else i + n)
    else if i > n then n
    else i
  }

  /** `s[i:j]`: never fails, whatever the bounds. */
  function Slice<T>(s: seq<T>, i: int, j: int): (r: seq<T>)
    ensures |r| <= |s|
  {
    var lo := SliceBound(i, |s|);
    var hi := SliceBound(j, |s|);
    if lo <= hi then s[lo..hi] else []
  }

  /** With non-negative bounds, `s[i:j]` is the part of `s[i..j]` that exists. */
  lemma {:induction false} SliceNonNegative<T>(s: seq<T>, i: nat, j: nat)
    requires i <= j
    ensures Slice(s, i, j) == s[Min(i, |s|)..Min(j, |s|)]
    ensures |Slice(s, i, j)| == Min(j, |s|) - Min(i, |s|)
  {
  }

  /** `s[n:]` is the part of `s` from index `n` on, empty when `n >= len(s)`. */
  lemma {:induction false} SliceFrom<T>(s: seq<T>, n: nat)
    ensures Slice(s, n, |s|) == s[Min(n, |s|)..]
  {
  }

  /** `s[-k:]` is the last `min(k, len(s))` elements (for `k >= 1`; `s[-0:]` is all of `s`). */
  lemma {:induction false} SliceLast<T>(s: seq<T>, k: nat)
    requires k >= 1
    ensures Slice(s, -(k as int), |s|) == s[|s| - Min(k, |s|)..]
    ensures |Slice(s, -(k as int), |s|)| == Min(k, |s|)
  {
  }

  /** `s[:n] + s[n:] == s` for every non-negative `n`, including `n > len(s)`. */
  lemma {:induction false} SplitAtRoundTrip<T>(s: seq<T>, n: nat)
    ensures Slice(s, 0, n) + Slice(s, n, |s|) == s
    ensures |Slice(s, 0, n)| == Min(n, |s|)
  {
    if n <= |s| {
      assert s[..n] + s[n..] == s;
    }
  }

  /** Python's `p in s` on strings: `p` occurs contiguously in `s`. */
  predicate Contains(s: string, p: string)
  {
    exists i :: 0 <= i <= |s| && OccursAt(s, p, i)
  }

  /** `p` occurs in `s` starting at offset `i`. */
  predicate OccursAt(s: string, p: string, i: nat)
  {
    i + |p| <= |s| && s[i..i + |p|] == p
  }

  /** Python's `s.split(sep)`: every separator ends a field, empty fields are kept. */
  function Split<T(==)>(s: seq<T>, sep: T): (fields: seq<seq<T>>)
    ensures |fields| >= 1
    ensures forall k :: 0 <= k < |fields| ==> sep !in fields[k]
  {
    if |s| == 0 then [[]]
    else
      var rest := Split(s[1..], sep);
      if s[0] == sep then [[]] + rest
      else [[s[0]] + rest[0]] + rest[1..]
  }

  /** Python's `sep.join(fields)`. */
  function Join<T>(fields: seq<seq<T>>, sep: T): seq<T>
    requires |fields| >= 1
  {
    if |fields| == 1 then fields[0] else fields[0] + [sep] + Join(fields[1..], sep)
  }

  /** Joining the fields of a split gives back the string. */
  lemma {:induction false} JoinSplit<T>(s: seq<T>, sep: T)
    ensures Join(Split(s, sep), sep) == s
  {
    if |s| > 0 {
      var rest := Split(s[1..], sep);
      JoinSplit(s[1..], sep);
      if s[0] != sep && |rest| > 1 {
        assert Join(rest, sep) == rest[0] + [sep] + Join(rest[1..], sep);
      }
    }
  }

  /** Splitting a join of separator-free fields gives back the fields. */
  lemma {:induction false} SplitJoin<T>(fields: seq<seq<T>>, sep: T)
    requires |fields| >= 1
    requires forall k :: 0 <= k < |fields| ==> sep !in fields[k]
    ensures Split(Join(fields, sep), sep) == fields
  {
    if |fields| == 1 {
      SplitSeparatorFree(fields[0], sep);
    } else {
      SplitJoin(fields[1..], sep);
      SplitPrefixField(fields[0], Join(fields[1..], sep), sep);
    }
  }

  /** A string without the separator is a single field. */
  lemma {:induction false} SplitSeparatorFree<T>(s: seq<T>, sep: T)
    requires sep !in s
    ensures Split(s, sep) == [s]
  {
    if |s| > 0 {
      assert sep !in s[1..] by {
        forall k | 0 <= k < |s| - 1 ensures s[1..][k] != sep {
          assert s[1..][k] == s[k + 1];
        }
      }
      SplitSeparatorFree(s[1..], sep);
      assert [s[0]] + s[1..] == s;
    }
  }

  /** A separator-free field followed by the separator splits off as the first field. */
  lemma {:induction false} SplitPrefixField<T>(f: seq<T>, t: seq<T>, sep: T)
    requires sep !in f
    ensures Split(f + [sep] + t, sep) == [f] + Split(t, sep)
  {
    if |f| == 0 {
      assert f + [sep] + t == [sep] + t;
      SplitStep(sep, t, sep);
    } else {
      var g := f[1..];
      SplitPrefixField(g, t, sep);
      assert f + [sep] + t == [f[0]] + (g + [sep] + t);
      SplitStep(f[0], g + [sep] + t, sep);
      assert [f[0]] + g == f;
    }
  }

  /** Splitting a sequence that starts with `x`: a separator closes an empty
      first field, anything else starts the first field of the rest. */
  lemma {:induction false} SplitStep<T>(x: T, rest: seq<T>, sep: T)
    ensures Split([x] + rest, sep) == if x == sep then [[]] + Split(rest, sep)
      else [[x] + Split(rest, sep)[0]] + Split(rest, sep)[1..]
  {
    assert ([x] + rest)[1..] == rest;
  }

  /** The first field is the text before the first separator (all of `s` if there is none). */
  lemma {:induction false} SplitFirstField<T>(s: seq<T>, sep: T)
    ensures var f := Split(s, sep)[0];
      && |f| <= |s|
      && f == s[..|f|]
      && (|f| == |s| || s[|f|] == sep)
  {
    if |s| > 0 && s[0] != sep {
      SplitFirstField(s[1..], sep);
      var g := Split(s[1..], sep)[0];
      assert Split(s, sep)[0] == [s[0]] + g;
      assert s[..|g| + 1] == [s[0]] + s[1..][..|g|];
    }
  }

  /** A split has one field more than there are separators. */
  lemma {:induction false} SplitFieldCount<T>(s: seq<T>, sep: T)
    ensures |Split(s, sep)| == multiset(s)[sep] + 1
  {
    if |s| > 0 {
      SplitFieldCount(s[1..], sep);
      assert s == [s[0]] + s[1..];
      assert multiset(s) == multiset{s[0]} + multiset(s[1..]);
    }
  }

  /** Cutting at the first `sep1` and then at the first `sep2` gives back a
      prefix `w` free of both, when what follows `w` is empty or starts with
      one of the two separators. */
  lemma {:induction false} FirstWordOfFirstField<T>(w: seq<T>, tail: seq<T>, sep1: T, sep2: T)
    requires sep1 !in w && sep2 !in w
    requires |tail| == 0 || tail[0] == sep1 || tail[0] == sep2
    ensures Split(Split(w + tail, sep1)[0], sep2)[0] == w
  {
    var s := w + tail;
    var f := Split(s, sep1)[0];
    SplitFirstField(s, sep1);
    FieldCoversPrefix(s, w, f, sep1);
    if |f| == |w| {
      assert f == w;
      SplitSeparatorFree(w, sep2);
    } else {
      assert f[|w|] == tail[0];
      assert f[|w|] in f;
      assert f[|w|] == sep2;
      assert f[..|w|] == w;
      Seqs.AroundIndex(f, |w|);
      SplitPrefixField(w, f[|w| + 1..], sep2);
    }
  }

  /** A field that starts a sequence and stops at a separator or at the end
      reaches past a separator-free prefix. */
  lemma {:induction false} FieldCoversPrefix<T>(s: seq<T>, w: seq<T>, f: seq<T>, sep: T)
    requires w <= s && sep !in w
    requires |f| <= |s| && f == s[..|f|] && (|f| == |s| || s[|f|] == sep)
    ensures w <= f
  {
  }
}
