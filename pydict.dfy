/**
  Python dictionaries as the eco-route engine uses them: a finite map whose
  items are kept in insertion order. A `Dict` is the sequence of its items;
  the dicts Python builds never hold a key twice (`DistinctKeys`), and
  `Set` is the item assignment `d[k] = v`, which overwrites an existing key
  in place and appends a new one.
 */
module PyDict {
  /** The items of a Python dict, in insertion order. */
  type Dict<K, V> = seq<(K, V)>

  /** No key occurs twice, as in every dict Python builds. */
  predicate DistinctKeys<K(==), V>(d: Dict<K, V>) {
    forall i, j :: 0 <= i < j < |d| ==> d[i].0 != d[j].0
  }

  /** The keys of a dict, in insertion order. */
  function Keys<K, V>(d: Dict<K, V>): (ks: seq<K>)
    ensures |ks| == |d|
    ensures forall i :: 0 <= i < |d| ==> ks[i] == d[i].0
  {
    if d == [] then [] else [d[0].0] + Keys(d[1..])
  }

  /** Position of key `k` among the items. */
  function IndexOf<K(==), V>(d: Dict<K, V>, k: K): (i: nat)
    requires k in Keys(d)
    ensures i < |d| && d[i].0 == k
    ensures forall j :: 0 <= j < i ==> d[j].0 != k
  {
    if d[0].0 == k then 0
    else
      assert k in Keys(d[1..]) by {
        var j :| 0 <= j < |d| && Keys(d)[j] == k;
        assert Keys(d[1..])[j - 1] == k;
      }
      1 + IndexOf(d[1..], k)
  }

  /** The value stored under a key the dict holds (`d[k]`). */
  function Value<K(==), V>(d: Dict<K, V>, k: K): V
    requires k in Keys(d)
  {
    d[IndexOf(d, k)].1
  }

  /** In a dict the item at position `i` is the one its key looks up. */
  lemma ValueAt<K, V>(d: Dict<K, V>, i: nat)
    requires DistinctKeys(d) && i < |d|
    ensures d[i].0 in Keys(d)
    ensures IndexOf(d, d[i].0) == i
    ensures Value(d, d[i].0) == d[i].1
  {
    assert Keys(d)[i] == d[i].0;
  }

  /** `d[k] = v`: an existing key keeps its position, a new key goes last. */
  function Set<K(==), V>(d: Dict<K, V>, k: K, v: V): Dict<K, V>
  {
    if k in Keys(d) then d[IndexOf(d, k) := (k, v)] else d + [(k, v)]
  }

  /** The keys after `d[k] = v`: as before, with `k` added at the end if it was new. */
  lemma SetKeys<K, V>(d: Dict<K, V>, k: K, v: V)
    ensures Keys(Set(d, k, v)) == if k in Keys(d) then Keys(d) else Keys(d) + [k]
  {
    var r := Set(d, k, v);
    if k in Keys(d) {
      assert Keys(r) == Keys(d);
    } else {
      assert Keys(r) == Keys(d) + [k];
    }
  }

  /**
    What the assignment `d[k] = v` does to a dict: the keys stay as they
    were, with `k` added at the end if it was new, and still occur once
    each; `k` now maps to `v`; every other key keeps its value.
   */
  lemma SetSpec<K, V>(d: Dict<K, V>, k: K, v: V)
    requires DistinctKeys(d)
    ensures Keys(Set(d, k, v)) == if k in Keys(d) then Keys(d) else Keys(d) + [k]
    ensures DistinctKeys(Set(d, k, v))
    ensures k !in Keys(d) ==> Set(d, k, v) == d + [(k, v)]
    ensures k in Keys(Set(d, k, v)) && Value(Set(d, k, v), k) == v
    ensures forall k' :: k' in Keys(d) && k' != k ==> k' in Keys(Set(d, k, v)) && Value(Set(d, k, v), k') == Value(d, k')
  {
    var r := Set(d, k, v);
    if k in Keys(d) {
      var i := IndexOf(d, k);
      assert Keys(r) == Keys(d);
      SetSameKeys(d, r, i, k);
    } else {
      assert Keys(r) == Keys(d) + [k];
      SetNewKey(d, r, k);
    }
  }

  lemma SetSameKeys<K, V>(d: Dict<K, V>, r: Dict<K, V>, i: nat, k: K)
    requires DistinctKeys(d)
    requires i < |d| == |r| && d[i].0 == k && r[i].0 == k
    requires forall j :: 0 <= j < |d| && j != i ==> r[j] == d[j]
    ensures DistinctKeys(r)
    ensures k in Keys(r) && Value(r, k) == r[i].1
    ensures forall k' :: k' in Keys(d) && k' != k ==> k' in Keys(r) && Value(r, k') == Value(d, k')
  {
    assert forall j :: 0 <= j < |d| ==> r[j].0 == d[j].0;
    ValueAt(r, i);
    forall k' | k' in Keys(d) && k' != k
      ensures k' in Keys(r) && Value(r, k') == Value(d, k')
    {
      var j := IndexOf(d, k');
      ValueAt(d, j);
      ValueAt(r, j);
    }
  }

  lemma SetNewKey<K, V>(d: Dict<K, V>, r: Dict<K, V>, k: K)
    requires DistinctKeys(d) && k !in Keys(d)
    requires |r| == |d| + 1 && r[..|d|] == d && r[|d|].0 == k
    ensures DistinctKeys(r)
    ensures k in Keys(r) && Value(r, k) == r[|d|].1
    ensures forall k' :: k' in Keys(d) && k' != k ==> k' in Keys(r) && Value(r, k') == Value(d, k')
  {
    AppendDistinct(d, r, k);
    ValueAt(r, |d|);
    forall k' | k' in Keys(d) && k' != k
      ensures k' in Keys(r) && Value(r, k') == Value(d, k')
    {
      var j := IndexOf(d, k');
      ValueAt(d, j);
      assert r[j] == d[j];
      ValueAt(r, j);
    }
  }

  lemma AppendDistinct<K, V>(d: Dict<K, V>, r: Dict<K, V>, k: K)
    requires DistinctKeys(d) && k !in Keys(d)
    requires |r| == |d| + 1 && r[..|d|] == d && r[|d|].0 == k
    ensures DistinctKeys(r)
  {
    forall i | 0 <= i < |d| ensures r[i] == d[i] && d[i].0 != k {
      assert Keys(d)[i] == d[i].0;
    }
  }
}
