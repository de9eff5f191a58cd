/**
 * PHP's ordered arrays with string keys, as the catalog records, the WordPress
 * attachment metadata and a DOM element's attribute list use them: a list of
 * key/value pairs in insertion order.  Assigning `$a[$k] = $v` replaces the value
 * in place when `$k` is already a key and appends the pair otherwise.
 */
module PhpArray {
  import opened Optional

  type Entries<V> = seq<(string, V)>

  /** The keys in order (`array_keys`). */
  function Keys<V>(d: Entries<V>): seq<string> {
    seq(|d|, i requires 0 <= i < |d| => d[i].0)
  }

  /** The keys of a non-empty array: its first key, then the keys of the rest. */
  lemma KeysCons<V>(d: Entries<V>)
    requires d != []
    ensures Keys(d) == [d[0].0] + Keys(d[1..])
  {
    assert Keys(d) == [d[0].0] + Keys(d[1..]);
  }

  /** No key occurs twice: every PHP array has this shape. */
  predicate UniqueKeys<V>(d: Entries<V>) {
    forall i, j :: 0 <= i < j < |d| ==> d[i].0 != d[j].0
  }

  /** No element occurs twice in a list. */
  predicate NoDup<T(==)>(s: seq<T>) {
    forall i, j :: 0 <= i < j < |s| ==> s[i] != s[j]
  }

  /** `$a[$k] ?? null`: the value stored under `k`. */
  function Get<V(==)>(d: Entries<V>, k: string): (r: Option<V>)
    ensures r.None? <==> k !in Keys(d)
  {
    if d == [] then None
    else if d[0].0 == k then assert Keys(d)[0] == k; Some(d[0].1)
    else KeysCons(d); Get(d[1..], k)
  }

  /** `$a[$k] = $v`. */
  function Put<V(==)>(d: Entries<V>, k: string, v: V): (r: Entries<V>)
    ensures Keys(r) == if k in Keys(d) then Keys(d) else Keys(d) + [k]
    ensures Get(r, k) == Some(v)
    ensures forall k' :: k' != k ==> Get(r, k') == Get(d, k')
  {
    if d == [] then [(k, v)]
    else if d[0].0 == k then
      var r := [(k, v)] + d[1..];
      assert r[1..] == d[1..];
      KeysCons(d);
      KeysCons(r);
      r
    else
      var rest := Put(d[1..], k, v);
      var r := [d[0]] + rest;
      assert r[1..] == rest;
      KeysCons(d);
      KeysCons(r);
      r
  }

  lemma {:induction false} GetUnique<V>(d: Entries<V>, i: nat)
    requires UniqueKeys(d) && i < |d|
    ensures Get(d, d[i].0) == Some(d[i].1)
  {
    if i > 0 {
      assert d[1..][i - 1] == d[i];
      GetUnique(d[1..], i - 1);
    }
  }

  /** Assigning to an array keeps its keys unique. */
  lemma PutUnique<V>(d: Entries<V>, k: string, v: V)
    requires UniqueKeys(d)
    ensures UniqueKeys(Put(d, k, v))
  {
    var r := Put(d, k, v);
    forall i, j | 0 <= i < j < |r| ensures r[i].0 != r[j].0 {
      assert Keys(r)[i] == r[i].0 && Keys(r)[j] == r[j].0;
    }
  }

  /** The keys of an array, split at its last entry. */
  lemma KeysLast<V>(d: Entries<V>)
    requires d != []
    ensures Keys(d) == Keys(d[..|d| - 1]) + [d[|d| - 1].0]
  {
    var n := |d| - 1;
    var a := Keys(d);
    var b := Keys(d[..n]) + [d[n].0];
    forall i | 0 <= i < |a| ensures a[i] == b[i] {
      if i < n { assert d[..n][i] == d[i]; }
    }
  }

  /** Two assignments to the same key: the second one wins and nothing is duplicated. */
  lemma {:induction false} PutPut<V>(d: Entries<V>, k: string, v: V, w: V)
    ensures Put(Put(d, k, v), k, w) == Put(d, k, w)
  {
    if d != [] && d[0].0 != k {
      PutPut(d[1..], k, v, w);
    }
  }

  /** Assigning to a key the array does not have appends the pair. */
  lemma {:induction false} PutAbsent<V>(d: Entries<V>, k: string, v: V)
    requires k !in Keys(d)
    ensures Put(d, k, v) == d + [(k, v)]
  {
    if d != [] {
      KeysCons(d);
      PutAbsent(d[1..], k, v);
      assert [d[0]] + (d[1..] + [(k, v)]) == d + [(k, v)];
    }
  }

  /** Assigning the value a key already holds changes nothing. */
  lemma {:induction false} PutSame<V>(d: Entries<V>, k: string, v: V)
    requires Get(d, k) == Some(v)
    ensures Put(d, k, v) == d
  {
    if d != [] && d[0].0 != k {
      PutSame(d[1..], k, v);
    }
  }

  /** Looking a key up in an array, split at its last entry. */
  lemma {:induction false} GetLast<V>(d: Entries<V>, k: string)
    requires d != [] && UniqueKeys(d)
    ensures Get(d, k) == if k == d[|d| - 1].0 then Some(d[|d| - 1].1) else Get(d[..|d| - 1], k)
  {
    if k == d[|d| - 1].0 {
      GetUnique(d, |d| - 1);
    } else if d[0].0 != k && |d| > 1 {
      assert d[1..][..|d| - 2] == d[..|d| - 1][1..];
      GetLast(d[1..], k);
    }
  }

  /** Every pair of `$a` after `$a[$k] = $v` was in `$a` before or is the new pair. */
  lemma {:induction false} PutEntries<V>(d: Entries<V>, k: string, v: V)
    ensures forall e :: e in Put(d, k, v) ==> e in d || e == (k, v)
  {
    if d != [] && d[0].0 != k {
      PutEntries(d[1..], k, v);
    }
  }

  /** A value found under a key is one of the array's pairs. */
  lemma {:induction false} GetIn<V>(d: Entries<V>, k: string)
    requires Get(d, k).Some?
    ensures (k, Get(d, k).value) in d
  {
    if d[0].0 != k {
      GetIn(d[1..], k);
    }
  }

  /**
   * `foreach ($a as $k => &$v) { $v = f($k, $v); }`: every value replaced in place
   * through the reference, in order, keys unchanged.
   */
  function MapValues<V>(d: Entries<V>, f: (string, V) -> V): Entries<V>
    decreases |d|
  {
    if d == [] then []
    else
      var n := |d| - 1;
      MapValues(d[..n], f) + [(d[n].0, f(d[n].0, d[n].1))]
  }

  /** Mapping the values keeps the length. */
  lemma {:induction false} MapValuesLength<V>(d: Entries<V>, f: (string, V) -> V)
    ensures |MapValues(d, f)| == |d|
    decreases |d|
  {
    if d != [] {
      MapValuesLength(d[..|d| - 1], f);
    }
  }

  /** Position by position, the mapped array holds the same key and the mapped value. */
  lemma {:induction false} MapValuesAt<V>(d: Entries<V>, f: (string, V) -> V)
    ensures |MapValues(d, f)| == |d|
    ensures forall k :: 0 <= k < |d| ==> MapValues(d, f)[k] == (d[k].0, f(d[k].0, d[k].1))
    decreases |d|
  {
    if d != [] {
      var n := |d| - 1;
      MapValuesAt(d[..n], f);
      forall k | 0 <= k < n ensures d[..n][k] == d[k] {
      }
    }
  }

  /** The loop after one more entry. */
  lemma MapValuesStep<V>(d: Entries<V>, f: (string, V) -> V, i: nat)
    requires i < |d|
    ensures MapValues(d[..i + 1], f) == MapValues(d[..i], f) + [(d[i].0, f(d[i].0, d[i].1))]
  {
    assert d[..i + 1][..i] == d[..i];
  }

  /**
   * The state of that loop before entry `i`: the entries before it mapped, the rest
   * as they were; assigning the mapped value to entry `i` moves to the next state.
   */
  lemma MapValuesSplice<V>(d: Entries<V>, f: (string, V) -> V, i: nat)
    requires i < |d|
    ensures |MapValues(d[..i], f)| == i
    ensures (MapValues(d[..i], f) + d[i..])[i] == d[i]
    ensures (MapValues(d[..i], f) + d[i..])[i := (d[i].0, f(d[i].0, d[i].1))] == MapValues(d[..i + 1], f) + d[i + 1..]
  {
    var prefix := MapValues(d[..i], f);
    MapValuesLength(d[..i], f);
    MapValuesStep(d, f, i);
    assert (prefix + d[i..])[i := (d[i].0, f(d[i].0, d[i].1))] == (prefix + [(d[i].0, f(d[i].0, d[i].1))]) + d[i + 1..];
  }

  /** That loop starts from the entries as they are and ends with all of them mapped. */
  lemma MapValuesBounds<V>(d: Entries<V>, f: (string, V) -> V)
    ensures MapValues(d[..0], f) + d[0..] == d
    ensures MapValues(d[..|d|], f) + d[|d|..] == MapValues(d, f)
  {
    assert d[..0] == [] && d[0..] == d;
    assert d[..|d|] == d && d[|d|..] == [];
  }
}
