/** Python's `dict` as an insertion-ordered association list: keys keep the
    position of their first insertion, and assigning to an existing key
    replaces its value in place. */
module Assoc {
  import opened Wrappers

  function Keys<K, V>(a: seq<(K, V)>): (ks: seq<K>)
    ensures |ks| == |a|
    ensures forall i :: 0 <= i < |a| ==> ks[i] == a[i].0
  {
    seq(|a|, i requires 0 <= i < |a| => a[i].0)
  }

  predicate DistinctKeys<K(==), V>(a: seq<(K, V)>) {
    forall i, j :: 0 <= i < j < |a| ==> a[i].0 != a[j].0
  }

  /** Position of the entry for `k`. */
  function IndexOf<K(==), V>(a: seq<(K, V)>, k: K): (i: nat)
    requires k in Keys(a)
    ensures i < |a| && a[i].0 == k
    ensures forall j :: 0 <= j < i ==> a[j].0 != k
  {
    if a[0].0 == k then 0
    else
      assert k in Keys(a[1..]) by {
        var j :| 0 <= j < |a| && Keys(a)[j] == k;
        assert Keys(a[1..])[j - 1] == k;
      }
      1 + IndexOf(a[1..], k)
  }

  /** `d.get(k)`. */
  function Get<K(==), V>(a: seq<(K, V)>, k: K): (r: Option<V>)
    ensures r.Some? <==> k in Keys(a)
  {
    if k in Keys(a) then Some(a[IndexOf(a, k)].1) else None
  }

  lemma GetDistinct<K, V>(a: seq<(K, V)>, i: nat)
    requires DistinctKeys(a) && i < |a|
    ensures Get(a, a[i].0) == Some(a[i].1)
  {
    assert Keys(a)[i] == a[i].0;
  }

  /** `d[k] = v`. */
  function Put<K(==), V>(a: seq<(K, V)>, k: K, v: V): (r: seq<(K, V)>)
    ensures k in Keys(a) ==> Keys(r) == Keys(a)
    ensures k !in Keys(a) ==> Keys(r) == Keys(a) + [k]
    ensures Get(r, k) == Some(v)
  {
    if k in Keys(a) then
      var r := a[IndexOf(a, k) := (k, v)];
      assert Keys(r) == Keys(a);
      r
    else
      var r := a + [(k, v)];
      assert Keys(r) == Keys(a) + [k];
      assert IndexOf(r, k) == |a|;
      r
  }

  lemma PutOther<K, V>(a: seq<(K, V)>, k: K, v: V, k': K)
    requires k' != k
    ensures Get(Put(a, k, v), k') == Get(a, k')
  {
    var r := Put(a, k, v);
    if k' in Keys(a) {
      var i := IndexOf(a, k');
      assert r[i] == a[i];
      assert forall j :: 0 <= j < i ==> r[j].0 != k';
      assert IndexOf(r, k') == i;
    }
  }

  lemma PutDistinct<K, V>(a: seq<(K, V)>, k: K, v: V)
    requires DistinctKeys(a)
    ensures DistinctKeys(Put(a, k, v))
  {
    var r := Put(a, k, v);
    forall i, j | 0 <= i < j < |r|
      ensures r[i].0 != r[j].0
    {
      assert Keys(r)[i] == r[i].0 && Keys(r)[j] == r[j].0;
      if j == |a| {
        assert Keys(a)[i] == a[i].0;
      }
    }
  }

  /** Every entry after `d[k] = v` was there before or is the new one. */
  lemma PutEntries<K, V>(a: seq<(K, V)>, k: K, v: V)
    ensures forall i :: 0 <= i < |Put(a, k, v)| ==> Put(a, k, v)[i] in a || Put(a, k, v)[i] == (k, v)
  {
    var r := Put(a, k, v);
    forall i | 0 <= i < |r|
      ensures r[i] in a || r[i] == (k, v)
    {
      if i < |a| && r[i] != (k, v) {
        assert r[i] == a[i];
      }
    }
  }
}
