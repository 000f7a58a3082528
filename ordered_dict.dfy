/** Python `dict` semantics that the core depends on: keys are distinct,
    iteration follows first insertion, and assigning to an existing key
    replaces its value in place. */
module OrderedDict {
  import opened Wrappers

  type Dict<K, V> = seq<(K, V)>

  predicate DistinctKeys<K(==), V>(d: Dict<K, V>) {
    forall i, j :: 0 <= i < j < |d| ==> d[i].0 != d[j].0
  }

  function Keys<K, V>(d: Dict<K, V>): (ks: seq<K>)
    ensures |ks| == |d|
    ensures forall i :: 0 <= i < |d| ==> ks[i] == d[i].0
  {
    seq(|d|, i requires 0 <= i < |d| => d[i].0)
  }

  function Values<K, V>(d: Dict<K, V>): (vs: seq<V>)
    ensures |vs| == |d|
    ensures forall i :: 0 <= i < |d| ==> vs[i] == d[i].1
  {
    seq(|d|, i requires 0 <= i < |d| => d[i].1)
  }

  /** The position of `k`, if it is a key. */
  function IndexOf<K(==,!new), V>(d: Dict<K, V>, k: K): (r: Option<nat>)
    ensures r.Some? ==> r.value < |d| && d[r.value].0 == k
    ensures r.Some? ==> forall j :: 0 <= j < r.value ==> d[j].0 != k
    ensures r.None? ==> forall j :: 0 <= j < |d| ==> d[j].0 != k
  {
    if d == [] then None
    else if d[0].0 == k then Some(0)
    else
      var r := IndexOf(d[1..], k);
      if r.Some? then Some(r.value + 1) else None
  }

  /** `d.get(k)`. */
  function Get<K(==,!new), V>(d: Dict<K, V>, k: K): Option<V> {
    var i := IndexOf(d, k);
    if i.Some? then Some(d[i.value].1) else None
  }

  /** `d[k] = v`. */
  function Put<K(==,!new), V>(d: Dict<K, V>, k: K, v: V): Dict<K, V> {
    var i := IndexOf(d, k);
    if i.Some? then d[i.value := (k, v)] else d + [(k, v)]
  }

  /** Assignment keeps keys distinct, maps `k` to `v`, leaves every other
      key alone, and appends `k` to the key order only if it is new. */
  lemma PutFacts<K(!new), V>(d: Dict<K, V>, k: K, v: V)
    ensures DistinctKeys(d) ==> DistinctKeys(Put(d, k, v))
    ensures Get(Put(d, k, v), k) == Some(v)
    ensures forall k' :: k' != k ==> Get(Put(d, k, v), k') == Get(d, k')
    ensures Keys(Put(d, k, v)) == if k in Keys(d) then Keys(d) else Keys(d) + [k]
  {
    var r := Put(d, k, v);
    var i := IndexOf(d, k);
    if i.Some? {
      assert Keys(r) == Keys(d);
      forall k' | k' != k ensures Get(r, k') == Get(d, k') {
        IndexOfAgree(r, d, k');
      }
    } else {
      assert Keys(r) == Keys(d) + [k];
      assert k !in Keys(d);
      forall k' | k' != k ensures Get(r, k') == Get(d, k') {
        IndexOfAgree(r, d, k');
      }
      IndexOfLast(d, k, v);
    }
  }

  /** Two dictionaries whose keys agree wherever the other one has `k` find
      `k` at the same place. */
  lemma IndexOfAgree<K(!new), V>(a: Dict<K, V>, b: Dict<K, V>, k: K)
    requires |b| <= |a|
    requires forall j :: 0 <= j < |b| ==> (a[j].0 == k <==> b[j].0 == k)
    requires forall j :: |b| <= j < |a| ==> a[j].0 != k
    ensures IndexOf(a, k) == IndexOf(b, k)
  {
    var ia, ib := IndexOf(a, k), IndexOf(b, k);
    if ia.Some? && ib.Some? {
      assert !(ia.value < ib.value) && !(ib.value < ia.value);
    }
  }

  lemma IndexOfLast<K(!new), V>(d: Dict<K, V>, k: K, v: V)
    requires forall j :: 0 <= j < |d| ==> d[j].0 != k
    ensures IndexOf(d + [(k, v)], k) == Some(|d|)
  {
    var i := IndexOf(d + [(k, v)], k);
    assert i.Some? by {
      assert (d + [(k, v)])[|d|].0 == k;
    }
  }

  lemma KeysDistinctIff<K(!new), V>(d: Dict<K, V>, k: K)
    ensures k in Keys(d) <==> IndexOf(d, k).Some?
  {
    if k in Keys(d) {
      var j :| 0 <= j < |d| && Keys(d)[j] == k;
    }
  }
}
