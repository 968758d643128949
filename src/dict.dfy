/**
 * Python dictionaries as insertion-ordered association lists. The order
 * matters to the backend: `list(registers.keys())` is reported to clients
 * as-is.
 */
module Dict {
  import opened Wrappers

  type Dict<K, V> = seq<(K, V)>

  /** `list(d.keys())`, in insertion order. */
  function Keys<K, V>(d: Dict<K, V>): seq<K> {
    seq(|d|, i requires 0 <= i < |d| => d[i].0)
  }

  /** No key occurs twice, as in every Python dict. */
  predicate DistinctKeys<K(==), V>(d: Dict<K, V>) {
    forall i, j :: 0 <= i < j < |d| ==> d[i].0 != d[j].0
  }

  /** `d.get(k)`: the value stored under the last binding of `k`. */
  function Get<K(==), V>(d: Dict<K, V>, k: K): (r: Option<V>)
    ensures r.None? <==> k !in Keys(d)
    ensures r.Some? ==> (k, r.value) in d
  {
    if |d| == 0 then None
    else if d[|d| - 1].0 == k then
      assert Keys(d)[|d| - 1] == k;
      Some(d[|d| - 1].1)
    else
      assert Keys(d) == Keys(d[..|d| - 1]) + [d[|d| - 1].0];
      Get(d[..|d| - 1], k)
  }

  /** `d.get(k, default)`. */
  function GetOr<K(==), V>(d: Dict<K, V>, k: K, default: V): V {
    Get(d, k).GetOr(default)
  }

  /** `d[k] = v`: rebinding keeps the key's position, a new key goes last. */
  function Put<K(==), V>(d: Dict<K, V>, k: K, v: V): (r: Dict<K, V>)
    ensures k in Keys(d) ==> Keys(r) == Keys(d)
    ensures k !in Keys(d) ==> Keys(r) == Keys(d) + [k]
  {
    if k in Keys(d) then Rebind(d, k, v)
    else
      assert Keys(d + [(k, v)]) == Keys(d) + [k];
      d + [(k, v)]
  }

  /** Every binding of `k` in `d` now holds `v`; keys and their order are unchanged. */
  function Rebind<K(==), V>(d: Dict<K, V>, k: K, v: V): (r: Dict<K, V>)
    ensures Keys(r) == Keys(d)
  {
    if |d| == 0 then []
    else
      var front := Rebind(d[..|d| - 1], k, v);
      var last := if d[|d| - 1].0 == k then (k, v) else d[|d| - 1];
      assert Keys(d) == Keys(d[..|d| - 1]) + [d[|d| - 1].0];
      assert Keys(front + [last]) == Keys(front) + [last.0];
      front + [last]
  }

  lemma {:induction false} GetRebind<K, V>(d: Dict<K, V>, k: K, v: V, k': K)
    ensures Get(Rebind(d, k, v), k') == if k' == k && k in Keys(d) then Some(v) else Get(d, k')
  {
    if |d| > 0 {
      GetRebind(d[..|d| - 1], k, v, k');
      var front := Rebind(d[..|d| - 1], k, v);
      var last := if d[|d| - 1].0 == k then (k, v) else d[|d| - 1];
      assert (front + [last])[..|front|] == front;
      assert Keys(d) == Keys(d[..|d| - 1]) + [d[|d| - 1].0];
    }
  }

  /** Reading back what was just stored, and nothing else disturbed. */
  lemma GetPut<K, V>(d: Dict<K, V>, k: K, v: V, k': K)
    ensures Get(Put(d, k, v), k') == if k' == k then Some(v) else Get(d, k')
  {
    if k in Keys(d) {
      GetRebind(d, k, v, k');
    } else {
      assert (d + [(k, v)])[..|d|] == d;
    }
  }

  lemma PutKeepsDistinct<K, V>(d: Dict<K, V>, k: K, v: V)
    requires DistinctKeys(d)
    ensures DistinctKeys(Put(d, k, v))
  {
    var r := Put(d, k, v);
    forall i, j | 0 <= i < j < |r|
      ensures r[i].0 != r[j].0
    {
      if j < |d| {
        assert Keys(r)[i] == Keys(d)[i] && Keys(r)[j] == Keys(d)[j];
      } else {
        assert Keys(r)[i] == Keys(d)[i];
      }
    }
  }

  /** Rebinding touches exactly the entries of key `k`, each in place. */
  lemma {:induction false} RebindAt<K, V>(d: Dict<K, V>, k: K, v: V, j: nat)
    requires j < |d|
    ensures |Rebind(d, k, v)| == |d|
    ensures Rebind(d, k, v)[j] == if d[j].0 == k then (k, v) else d[j]
    decreases |d|
  {
    assert |Keys(Rebind(d, k, v))| == |Keys(d)|;
    if j < |d| - 1 {
      RebindAt(d[..|d| - 1], k, v, j);
    }
  }

  /** In a dict without repeated keys, each binding is what its key reads back. */
  lemma {:induction false} GetAt<K, V>(d: Dict<K, V>, j: nat)
    requires DistinctKeys(d) && j < |d|
    ensures Get(d, d[j].0) == Some(d[j].1)
    decreases |d|
  {
    if j < |d| - 1 {
      var front := d[..|d| - 1];
      assert front[j] == d[j];
      GetAt(front, j);
    }
  }
}
