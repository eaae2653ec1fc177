/** Python's insertion-ordered `dict`, as built by `dict(zip(column_a, column_b))`
    over the rows of a table: a repeated key keeps the position of its first row
    and the value of its last row. */
module PyDict {
  import opened Seqs
  import opened Wrappers

  /** The entries of a dict in iteration order. */
  type Dict<K, V> = seq<(K, V)>

  /** The keys in iteration order (`list(d)`). */
  function Keys<K, V>(d: Dict<K, V>): (ks: seq<K>)
    ensures |ks| == |d|
    ensures forall i :: 0 <= i < |d| ==> ks[i] == d[i].0
  {
    if |d| == 0 then [] else Keys(d[..|d| - 1]) + [d[|d| - 1].0]
  }

  /** The values in iteration order (`list(d.values())`). */
  function Values<K, V>(d: Dict<K, V>): (vs: seq<V>)
    ensures |vs| == |d|
    ensures forall i :: 0 <= i < |d| ==> vs[i] == d[i].1
  {
    if |d| == 0 then [] else Values(d[..|d| - 1]) + [d[|d| - 1].1]
  }

  /** `d.get(k)`: the value stored under `k`, or `None`. */
  function Get<K(==), V>(d: Dict<K, V>, k: K): Option<V>
  {
    if k in Keys(d) then Some(d[FirstIndex(Keys(d), k)].1) else None
  }

  /** `d.get(k, default)`. */
  function GetOr<K(==), V>(d: Dict<K, V>, k: K, default: V): V
  {
    match Get(d, k)
    case Some(v) => v
    case None => default
  }

  /** `d[k] = v`: an existing key is updated in place, a new key goes last. */
  function Put<K(==), V>(d: Dict<K, V>, k: K, v: V): (r: Dict<K, V>)
    ensures Get(r, k) == Some(v)
    ensures Keys(r) == if k in Keys(d) then Keys(d) else Keys(d) + [k]
  {
    if k in Keys(d) then
      var r := d[FirstIndex(Keys(d), k) := (k, v)];
      assert Keys(r) == Keys(d);
      r
    else
      d + [(k, v)]
  }

  /** Assigning one key leaves every other key's lookup unchanged. */
  lemma {:induction false} PutOther<K, V>(d: Dict<K, V>, k: K, v: V, k': K)
    requires k' != k
    ensures Get(Put(d, k, v), k') == Get(d, k')
  {
  }

  /** With distinct keys, entry `i` is the first, and only, entry with its key. */
  lemma {:induction false} KeyAt<K, V>(d: Dict<K, V>, i: nat)
    requires NoDup(Keys(d)) && i < |d|
    ensures d[i].0 in Keys(d) && FirstIndex(Keys(d), d[i].0) == i
  {
    var ks := Keys(d);
    assert ks[i] == d[i].0;
    FirstIndexNoDup(ks, i);
  }

  /** With distinct keys, the key of entry `i` looks up entry `i`'s value. */
  lemma {:induction false} GetAt<K, V>(d: Dict<K, V>, i: nat)
    requires NoDup(Keys(d)) && i < |d|
    ensures Get(d, d[i].0) == Some(d[i].1)
  {
    KeyAt(d, i);
  }

  /** Assigning an existing key replaces its entry in place. */
  lemma {:induction false} PutExisting<K, V>(d: Dict<K, V>, k: K, v: V)
    requires k in Keys(d)
    ensures Put(d, k, v) == d[FirstIndex(Keys(d), k) := (k, v)]
  {
  }

  /** Assigning a new key appends an entry. */
  lemma {:induction false} PutNew<K, V>(d: Dict<K, V>, k: K, v: V)
    requires k !in Keys(d)
    ensures Put(d, k, v) == d + [(k, v)]
  {
  }

  /** `dict(rows)`: each row `(key, value)` assigned in order. */
  function FromRows<K(==), V>(rows: seq<(K, V)>): Dict<K, V>
  {
    if |rows| == 0 then []
    else
      var last := rows[|rows| - 1];
      Put(FromRows(rows[..|rows| - 1]), last.0, last.1)
  }

  /** The key column of a table. */
  function KeyColumn<K, V>(rows: seq<(K, V)>): seq<K>
  {
    Keys(rows)
  }

  /** The values of the rows whose key is `key`, in row order: one group of a
      `groupby(key)[value].apply(list)`. */
  function GroupValues<K(==), V(==, !new)>(rows: seq<(K, V)>, key: K): (vs: seq<V>)
    ensures |vs| == Count(KeyColumn(rows), key)
    ensures forall v :: Count(vs, v) == Count(rows, (key, v))
  {
    if |rows| == 0 then []
    else
      var init := rows[..|rows| - 1];
      var last := rows[|rows| - 1];
      assert rows == init + [last];
      assert KeyColumn(rows) == KeyColumn(init) + [last.0];
      GroupValues(init, key) + (if last.0 == key then [last.1] else [])
  }

  /** The group of a non-empty table: that of all but its last row, then the last row's value if it has the key. */
  lemma {:induction false} GroupValuesLast<K, V(!new)>(rows: seq<(K, V)>, key: K)
    requires |rows| > 0
    ensures GroupValues(rows, key) ==
      GroupValues(rows[..|rows| - 1], key) + (if rows[|rows| - 1].0 == key then [rows[|rows| - 1].1] else [])
  {
  }

  /** Grouping a concatenation groups each part and keeps the parts in order,
      so a group lists its values in row order. */
  lemma {:induction false} GroupValuesAppend<K, V(!new)>(xs: seq<(K, V)>, ys: seq<(K, V)>, key: K)
    ensures GroupValues(xs + ys, key) == GroupValues(xs, key) + GroupValues(ys, key)
    decreases |ys|
  {
    if |ys| > 0 {
      var init := ys[..|ys| - 1];
      var y := ys[|ys| - 1];
      var zs := xs + ys;
      assert zs[..|zs| - 1] == xs + init && zs[|zs| - 1] == y;
      GroupValuesLast(zs, key);
      GroupValuesLast(ys, key);
      GroupValuesAppend(xs, init, key);
      var a, b, c := GroupValues(xs, key), GroupValues(init, key), (if y.0 == key then [y.1] else []);
      ConcatAssoc(a, b, c);
    } else {
      assert xs + ys == xs;
    }
  }

  /** The dict's keys are the distinct key column values, in order of first row. */
  lemma {:induction false} FromRowsKeys<K, V>(rows: seq<(K, V)>)
    ensures Keys(FromRows(rows)) == Distinct(KeyColumn(rows))
  {
    if |rows| > 0 {
      var init := rows[..|rows| - 1];
      FromRowsKeys(init);
      assert KeyColumn(rows)[..|rows| - 1] == KeyColumn(init);
    }
  }

  /** A key maps to the value of its LAST row; a key in no row is absent. */
  lemma {:induction false} FromRowsGet<K, V>(rows: seq<(K, V)>, k: K)
    ensures k in KeyColumn(rows) ==>
      Get(FromRows(rows), k) == Some(rows[LastIndex(KeyColumn(rows), k)].1)
    ensures k !in KeyColumn(rows) ==> Get(FromRows(rows), k) == None
  {
    if |rows| > 0 {
      var init := rows[..|rows| - 1];
      var ks := KeyColumn(rows);
      assert ks[..|rows| - 1] == KeyColumn(init);
      assert ks == KeyColumn(init) + [rows[|rows| - 1].0];
      FromRowsGet(init, k);
      var last := rows[|rows| - 1];
      if last.0 != k {
        PutOther(FromRows(init), last.0, last.1, k);
      }
    } else {
      assert Keys(FromRows(rows)) == [];
    }
  }

  /** A key is present exactly when some row carries it. */
  lemma {:induction false} FromRowsHas<K, V>(rows: seq<(K, V)>, k: K)
    ensures Get(FromRows(rows), k).Some? <==> exists i :: 0 <= i < |rows| && rows[i].0 == k
  {
    FromRowsGet(rows, k);
    if exists i :: 0 <= i < |rows| && rows[i].0 == k {
      var i :| 0 <= i < |rows| && rows[i].0 == k;
      assert KeyColumn(rows)[i] == k;
    }
  }

  /** A key occurs in the first `n` rows exactly when it occurs at an index below `n`. */
  lemma {:induction false} PrefixHasKey<K, V>(rows: seq<(K, V)>, n: nat, k: K)
    requires n <= |rows|
    ensures (exists i :: 0 <= i < |rows[..n]| && rows[..n][i].0 == k) <==>
            (exists i :: 0 <= i < n && rows[i].0 == k)
  {
    if exists i :: 0 <= i < n && rows[i].0 == k {
      var i :| 0 <= i < n && rows[i].0 == k;
      assert rows[..n][i].0 == k;
    }
  }

  /** A key occurs in the rows from `n` on exactly when it occurs at an index of at least `n`. */
  lemma {:induction false} SuffixHasKey<K, V>(rows: seq<(K, V)>, n: nat, k: K)
    requires n <= |rows|
    ensures (exists i :: 0 <= i < |rows[n..]| && rows[n..][i].0 == k) <==>
            (exists i :: n <= i < |rows| && rows[i].0 == k)
  {
    if exists i :: n <= i < |rows| && rows[i].0 == k {
      var i :| n <= i < |rows| && rows[i].0 == k;
      assert rows[n..][i - n].0 == k;
    }
    if exists i :: 0 <= i < |rows[n..]| && rows[n..][i].0 == k {
      var i :| 0 <= i < |rows[n..]| && rows[n..][i].0 == k;
      assert rows[n + i].0 == k;
    }
  }
}
