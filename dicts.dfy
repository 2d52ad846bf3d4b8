/**
 * Python dictionaries as insertion-ordered association lists.
 *
 * `d[k] = v` keeps the position of an existing key and only replaces its
 * value; a new key goes to the end. `Put` models exactly that, so the order
 * of `keys()` and `items()` in the converter is the order of this sequence.
 */
module Dicts {
  import opened Wrappers

  type Dict<K, V> = seq<(K, V)>

  /** No element occurs twice. */
  predicate Distinct<T(==)>(s: seq<T>)
  {
    forall i, j :: 0 <= i < j < |s| ==> s[i] != s[j]
  }

  /** The position of the first `x` in `s`. */
  function IndexOf<T(==)>(s: seq<T>, x: T): (i: nat)
    requires x in s
    ensures i < |s| && s[i] == x
    ensures forall j :: 0 <= j < i ==> s[j] != x
  {
    if s[0] == x then 0 else 1 + IndexOf(s[1..], x)
  }

  /** The keys in insertion order. */
  function Keys<K, V>(d: Dict<K, V>): seq<K>
  {
    seq(|d|, i requires 0 <= i < |d| => d[i].0)
  }

  /** The values in insertion order (Python's `values()`). */
  function Values<K, V>(d: Dict<K, V>): seq<V>
  {
    seq(|d|, i requires 0 <= i < |d| => d[i].1)
  }

  /** A dictionary never holds a key twice. */
  predicate Valid<K(==), V>(d: Dict<K, V>)
  {
    Distinct(Keys(d))
  }

  /** `d.get(k)`: the value stored under `k`, if any. */
  function Get<K(==), V>(d: Dict<K, V>, k: K): (r: Option<V>)
    ensures r.Some? <==> k in Keys(d)
  {
    if k in Keys(d) then Some(d[IndexOf(Keys(d), k)].1) else None
  }

  /** `d[k] = v`: replace in place when `k` is present, append otherwise. */
  function Put<K(==), V>(d: Dict<K, V>, k: K, v: V): (r: Dict<K, V>)
    ensures Keys(r) == if k in Keys(d) then Keys(d) else Keys(d) + [k]
    ensures Valid(d) ==> Valid(r)
    ensures Get(r, k) == Some(v)
  {
    if k in Keys(d) then d[IndexOf(Keys(d), k) := (k, v)] else d + [(k, v)]
  }

  /** `d[k] = v` leaves every other key's value alone. */
  lemma PutOther<K, V>(d: Dict<K, V>, k: K, v: V, x: K)
    requires x != k
    ensures Get(Put(d, k, v), x) == Get(d, x)
  {
    var r := Put(d, k, v);
    if x in Keys(d) {
      var i := IndexOf(Keys(d), x);
      assert Keys(r)[i] == x;
      assert forall j :: 0 <= j < i ==> Keys(r)[j] != x;
    }
  }

  /** Looking up in a dictionary extended at the end. */
  lemma GetAppend<K, V>(d: Dict<K, V>, k: K, v: V, x: K)
    ensures Get(d + [(k, v)], x) ==
            if x in Keys(d) then Get(d, x) else if x == k then Some(v) else None
  {
    var r := d + [(k, v)];
    assert Keys(r) == Keys(d) + [k];
    if x in Keys(d) {
      var i := IndexOf(Keys(d), x);
      assert Keys(r)[i] == x;
      assert forall j :: 0 <= j < i ==> Keys(r)[j] != x;
    } else if x == k {
      assert Keys(r)[|d|] == x;
    }
  }

  /** Storing a key that is not yet present appends it. */
  lemma PutMissing<K, V>(d: Dict<K, V>, k: K, v: V)
    requires k !in Keys(d)
    ensures Put(d, k, v) == d + [(k, v)]
  {
  }

  /** The keys of a dictionary extended by one entry. */
  lemma KeysAppend<K, V>(d: Dict<K, V>, e: (K, V))
    ensures Keys(d + [e]) == Keys(d) + [e.0]
  {
  }

  /** In a dictionary without repeats, the last key is not among the earlier ones. */
  lemma LastKeyFresh<K, V>(d: Dict<K, V>)
    requires d != []
    ensures Valid(d) ==> d[|d| - 1].0 !in Keys(d[..|d| - 1]) && Valid(d[..|d| - 1])
    ensures forall x :: x in Keys(d[..|d| - 1]) ==> x in Keys(d)
  {
    var n := |d| - 1;
    assert Keys(d[..n]) == Keys(d)[..n];
    if Valid(d) {
      forall j | 0 <= j < n ensures Keys(d[..n])[j] != d[n].0 {
        assert Keys(d)[j] != Keys(d)[n];
      }
    }
  }

  /** A prefix of a dictionary without repeats has no repeats. */
  lemma ValidPrefix<K, V>(d: Dict<K, V>, n: nat)
    requires Valid(d) && n <= |d|
    ensures Valid(d[..n])
  {
    assert Keys(d[..n]) == Keys(d)[..n];
  }
}
