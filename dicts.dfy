/**
  Python's `dict` as the modelled code uses it: an insertion-ordered table of
  distinct keys, where assigning an existing key keeps its position.
*/
module Dicts {
  import opened Base

  /** The entries in insertion order. */
  type Dict<K, V> = seq<(K, V)>

  predicate DistinctKeys<K(==, !new), V>(d: Dict<K, V>)
  {
    forall i, j :: 0 <= i < j < |d| ==> d[i].0 != d[j].0
  }

  function KeySet<K, V>(d: Dict<K, V>): set<K>
  {
    set i | 0 <= i < |d| :: d[i].0
  }

  /** The keys in insertion order (Python's `list(d)`). */
  function Keys<K, V>(d: Dict<K, V>): (ks: seq<K>)
    ensures |ks| == |d|
    ensures forall i :: 0 <= i < |d| ==> ks[i] == d[i].0
  {
    seq(|d|, i requires 0 <= i < |d| => d[i].0)
  }

  /** Position of key `k`, if present. */
  function IndexOfKey<K(==, !new), V>(d: Dict<K, V>, k: K): (r: Option<nat>)
    ensures r.Some? ==> r.value < |d| && d[r.value].0 == k
    ensures r.Some? ==> forall j :: 0 <= j < r.value ==> d[j].0 != k
    ensures r.None? <==> k !in KeySet(d)
  {
    if |d| == 0 then None
    else if d[0].0 == k then Some(0)
    else
      var r' := IndexOfKey(d[1..], k);
      assert KeySet(d) == {d[0].0} + KeySet(d[1..]) by {
        forall x | x in KeySet(d) ensures x in {d[0].0} + KeySet(d[1..]) {
          var i :| 0 <= i < |d| && d[i].0 == x;
          if i > 0 { assert d[1..][i - 1].0 == x; }
        }
      }
      match r'
      case None => None
      case Some(j) => Some(j + 1)
  }

  /** Python's `d.get(k)`. */
  function Get<K(==, !new), V>(d: Dict<K, V>, k: K): (r: Option<V>)
    ensures r.Some? <==> k in KeySet(d)
  {
    match IndexOfKey(d, k)
    case None => None
    case Some(i) => Some(d[i].1)
  }

  /** Python's `d[k] = v`: overwrite in place when `k` is present, append otherwise. */
  function Put<K(==, !new), V>(d: Dict<K, V>, k: K, v: V): (r: Dict<K, V>)
    ensures Get(r, k) == Some(v)
    ensures forall k' :: k' != k ==> Get(r, k') == Get(d, k')
    ensures KeySet(r) == KeySet(d) + {k}
    ensures DistinctKeys(d) ==> DistinctKeys(r)
    ensures Keys(r) == if k in KeySet(d) then Keys(d) else Keys(d) + [k]
  {
    match IndexOfKey(d, k)
    case None =>
      var r := d + [(k, v)];
      assert Keys(r) == Keys(d) + [k];
      assert KeySet(r) == KeySet(d) + {k} by {
        assert forall i :: 0 <= i < |d| ==> r[i] == d[i];
        assert r[|d|].0 == k;
      }
      PutGet(d, k, v, r);
      r
    case Some(i) =>
      var r := d[i := (k, v)];
      assert Keys(r) == Keys(d);
      assert KeySet(r) == KeySet(d) by {
        assert forall j :: 0 <= j < |d| ==> r[j].0 == d[j].0;
      }
      PutGet(d, k, v, r);
      r
  }

  /** Two assignments to the same key: the second value wins, and the key is placed as by the first. */
  lemma PutTwice<K(!new), V>(d: Dict<K, V>, k: K, v1: V, v2: V)
    ensures var r := Put(Put(d, k, v1), k, v2);
      && Get(r, k) == Some(v2)
      && (forall k' :: k' != k ==> Get(r, k') == Get(d, k'))
      && KeySet(r) == KeySet(d) + {k}
      && Keys(r) == if k in KeySet(d) then Keys(d) else Keys(d) + [k]
  {
    var once := Put(d, k, v1);
    assert k in KeySet(once);
  }

  /** Lookups in `r`, which has `d`'s keys (plus `k` last) and `v` at `k`'s place, agree with `d` off `k`. */
  lemma PutGet<K(!new), V>(d: Dict<K, V>, k: K, v: V, r: Dict<K, V>)
    requires |r| >= |d| && (forall j :: 0 <= j < |d| ==> r[j].0 == d[j].0)
    requires forall j :: 0 <= j < |d| && d[j].0 != k ==> r[j] == d[j]
    requires IndexOfKey(d, k).None? ==> |r| == |d| + 1 && r[|d|] == (k, v)
    requires IndexOfKey(d, k).Some? ==> |r| == |d| && r[IndexOfKey(d, k).value] == (k, v)
    ensures Get(r, k) == Some(v)
    ensures forall k' :: k' != k ==> Get(r, k') == Get(d, k')
  {
    PutGetSame(d, k, v, r);
    forall k' | k' != k ensures Get(r, k') == Get(d, k') {
      PutGetOther(d, k, v, r, k');
    }
  }

  lemma PutGetSame<K(!new), V>(d: Dict<K, V>, k: K, v: V, r: Dict<K, V>)
    requires |r| >= |d| && (forall j :: 0 <= j < |d| ==> r[j].0 == d[j].0)
    requires IndexOfKey(d, k).None? ==> |r| == |d| + 1 && r[|d|] == (k, v)
    requires IndexOfKey(d, k).Some? ==> |r| == |d| && r[IndexOfKey(d, k).value] == (k, v)
    ensures Get(r, k) == Some(v)
  {
    var id := IndexOfKey(d, k);
    var at := if id.None? then |d| else id.value;
    assert r[at].0 == k;
    var ir := IndexOfKey(r, k);
    assert ir.Some? by { assert k in KeySet(r); }
    assert ir.value == at;
  }

  lemma PutGetOther<K(!new), V>(d: Dict<K, V>, k: K, v: V, r: Dict<K, V>, k': K)
    requires k' != k
    requires |r| >= |d| && (forall j :: 0 <= j < |d| ==> r[j].0 == d[j].0)
    requires forall j :: 0 <= j < |d| && d[j].0 != k ==> r[j] == d[j]
    requires IndexOfKey(d, k).None? ==> |r| == |d| + 1 && r[|d|] == (k, v)
    requires IndexOfKey(d, k).Some? ==> |r| == |d|
    ensures Get(r, k') == Get(d, k')
  {
    var jd := IndexOfKey(d, k');
    var jr := IndexOfKey(r, k');
    if jd.Some? {
      var j := jd.value;
      assert r[j].0 == k';
      assert jr.Some? by { assert k' in KeySet(r); }
      assert forall i :: 0 <= i < j ==> r[i].0 == d[i].0 != k';
      assert jr.value == j;
      assert r[j] == d[j];
    } else {
      assert k' !in KeySet(r) by {
        forall i | 0 <= i < |r| ensures r[i].0 != k' {
          if i < |d| {
            assert r[i].0 == d[i].0 && d[i].0 in KeySet(d);
          }
        }
      }
    }
  }

  /** A dict's keys are its first key and the keys of the rest. */
  lemma KeySetCons<K, V>(d: Dict<K, V>)
    requires |d| > 0
    ensures KeySet(d) == {d[0].0} + KeySet(d[1..])
  {
    forall x | x in KeySet(d) ensures x in {d[0].0} + KeySet(d[1..]) {
      var i :| 0 <= i < |d| && d[i].0 == x;
      if i > 0 { assert d[1..][i - 1].0 == x; }
    }
    forall x | x in KeySet(d[1..]) ensures x in KeySet(d) {
      var i :| 0 <= i < |d| - 1 && d[1..][i].0 == x;
      assert d[i + 1].0 == x;
    }
  }

  /** Python's `d.update(other)`: assign each entry of `other` in order. */
  function Update<K(==, !new), V>(d: Dict<K, V>, other: Dict<K, V>): (r: Dict<K, V>)
    requires DistinctKeys(other)
    ensures KeySet(r) == KeySet(d) + KeySet(other)
    ensures forall k :: k in KeySet(other) ==> Get(r, k) == Get(other, k)
    ensures forall k :: k !in KeySet(other) ==> Get(r, k) == Get(d, k)
    decreases |other|
  {
    if |other| == 0 then d
    else
      var k0, rest := other[0].0, other[1..];
      UpdateStep(other);
      Update(Put(d, k0, other[0].1), rest)
  }

  /** Splitting off the first entry of a table with distinct keys. */
  lemma UpdateStep<K(!new), V>(other: Dict<K, V>)
    requires |other| > 0 && DistinctKeys(other)
    ensures var k0, rest := other[0].0, other[1..];
      && DistinctKeys(rest)
      && KeySet(other) == {k0} + KeySet(rest)
      && k0 !in KeySet(rest)
      && Get(other, k0) == Some(other[0].1)
      && forall k :: k != k0 ==> Get(other, k) == Get(rest, k)
  {
    var k0, rest := other[0].0, other[1..];
    KeySetCons(other);
    assert DistinctKeys(rest) by {
      forall i, j | 0 <= i < j < |rest| ensures rest[i].0 != rest[j].0 {
        assert rest[i] == other[i + 1] && rest[j] == other[j + 1];
      }
    }
    assert k0 !in KeySet(rest) by {
      forall i | 0 <= i < |rest| ensures rest[i].0 != k0 {
        assert rest[i] == other[i + 1];
      }
    }
    forall k | k != k0 ensures Get(other, k) == Get(rest, k) {
      assert IndexOfKey(other, k) == match IndexOfKey(rest, k) case None => None case Some(j) => Some(j + 1);
    }
  }

  /** With distinct keys, looking up an entry's key finds that entry. */
  lemma GetAt<K(!new), V>(d: Dict<K, V>, i: nat)
    requires DistinctKeys(d) && i < |d|
    ensures Get(d, d[i].0) == Some(d[i].1)
  {
    var j := IndexOfKey(d, d[i].0);
    assert d[i].0 in KeySet(d);
  }
}
