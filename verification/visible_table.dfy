/**
 `mutableVisibleItems` of `DefaultImpressionState`: a Kotlin `mutableMapOf`,
 which is insertion-ordered, from a key to the `VisibleItem` holding the time
 the key became visible. It is modelled as the sequence of its entries in
 iteration order; a well-formed table has pairwise distinct keys.
 */
module VisibleTable {

  import opened Wrappers
  import opened Sequences

  datatype VisibleItem<K> = VisibleItem(key: K, startTime: int)

  type Table<K> = seq<VisibleItem<K>>

  /** The keys the table has an entry for. */
  function Keys<K>(t: Table<K>): set<K>
  {
    set i | 0 <= i < |t| :: t[i].key
  }

  /** No key has two entries: what a map guarantees. */
  predicate DistinctKeys<K(==)>(t: Table<K>)
  {
    forall i, j | 0 <= i < j < |t| :: t[i].key != t[j].key
  }

  /** The keys of the entries, in iteration order. */
  function KeySeq<K>(t: Table<K>): seq<K>
  {
    seq(|t|, i requires 0 <= i < |t| => t[i].key)
  }

  lemma KeysOfCons<K>(t: Table<K>)
    requires t != []
    ensures Keys(t) == {t[0].key} + Keys(t[1..])
  {
    forall k | k in Keys(t) ensures k in {t[0].key} + Keys(t[1..]) {
      var i :| 0 <= i < |t| && t[i].key == k;
      if i > 0 {
        assert t[1..][i - 1].key == k;
      }
    }
    forall k | k in Keys(t[1..]) ensures k in Keys(t) {
      var i :| 0 <= i < |t[1..]| && t[1..][i].key == k;
      assert t[i + 1].key == k;
    }
  }

  /** `mutableVisibleItems[key]?.startTime`: the start time of the key's entry, if any. */
  function Get<K(==)>(t: Table<K>, k: K): (r: Option<int>)
    ensures r.None? <==> k !in Keys(t)
    ensures r.Some? ==> VisibleItem(k, r.value) in t
    ensures DistinctKeys(t) ==> forall i | 0 <= i < |t| && t[i].key == k :: r == Some(t[i].startTime)
  {
    if t == [] then None
    else
      KeysOfCons(t);
      if t[0].key == k then Some(t[0].startTime)
      else
        var r := Get(t[1..], k);
        assert DistinctKeys(t) ==> DistinctKeys(t[1..]);
        assert forall i | 1 <= i < |t| :: t[i] == t[1..][i - 1];
        r
  }

  /** `mutableVisibleItems.remove(key)`: drops the key's entry, keeping the order of the rest. */
  function Remove<K(==)>(t: Table<K>, k: K): (r: Table<K>)
    ensures Keys(r) == Keys(t) - {k}
    ensures forall x | x in Keys(t) && x != k :: Get(r, x) == Get(t, x)
    ensures k !in Keys(t) ==> r == t
    ensures IsSubsequence(r, t)
    ensures |r| <= |t|
    ensures DistinctKeys(t) ==> DistinctKeys(r)
  {
    if t == [] then []
    else
      KeysOfCons(t);
      var rest := Remove(t[1..], k);
      var r := if t[0].key == k then rest else [t[0]] + rest;
      if t[0].key == k then r
      else
        KeysOfCons(r);
        assert r[1..] == rest;
        assert DistinctKeys(t) ==> t[0].key !in Keys(t[1..]);
        r
  }

  /**
   `mutableVisibleItems.getOrPut(key) { VisibleItem(key, now) }`: a key
   without an entry gets one stamped `now`, appended last; a key that already
   has one keeps it, and the table is left as it was.
   */
  function GetOrPut<K(==)>(t: Table<K>, k: K, now: int): (r: Table<K>)
    ensures Keys(r) == Keys(t) + {k}
    ensures Get(r, k) == if k in Keys(t) then Get(t, k) else Some(now)
    ensures forall x | x in Keys(t) && x != k :: Get(r, x) == Get(t, x)
    ensures k in Keys(t) ==> r == t
    ensures k !in Keys(t) ==> r == t + [VisibleItem(k, now)]
    ensures DistinctKeys(t) ==> DistinctKeys(r)
  {
    if k in Keys(t) then t
    else
      var r := t + [VisibleItem(k, now)];
      AppendGet(t, VisibleItem(k, now));
      assert r[|t|].key == k;
      r
  }

  lemma {:induction false} AppendGet<K>(t: Table<K>, item: VisibleItem<K>)
    requires item.key !in Keys(t)
    ensures Keys(t + [item]) == Keys(t) + {item.key}
    ensures Get(t + [item], item.key) == Some(item.startTime)
    ensures forall x | x != item.key :: Get(t + [item], x) == Get(t, x)
  {
    var r := t + [item];
    assert r[|t|] == item;
    forall k | k in Keys(r) ensures k in Keys(t) + {item.key} {
      var i :| 0 <= i < |r| && r[i].key == k;
      if i < |t| { assert t[i] == r[i]; }
    }
    forall k | k in Keys(t) ensures k in Keys(r) {
      var i :| 0 <= i < |t| && t[i].key == k;
      assert r[i] == t[i];
    }
    if t != [] {
      assert r[1..] == t[1..] + [item];
      KeysOfCons(t);
      AppendGet(t[1..], item);
    }
  }

  /**
   `setCurrentTimeToVisibleItemStartTime` on the table: every entry is
   re-stamped `now`, in place, so keys and their order are unchanged.
   */
  function Restamp<K(==)>(t: Table<K>, now: int): (r: Table<K>)
    ensures KeySeq(r) == KeySeq(t)
    ensures Keys(r) == Keys(t)
    ensures forall k | k in Keys(t) :: Get(r, k) == Some(now)
    ensures DistinctKeys(t) ==> DistinctKeys(r)
  {
    var r := seq(|t|, i requires 0 <= i < |t| => t[i].(startTime := now));
    assert forall i | 0 <= i < |r| :: r[i].key == t[i].key;
    forall k | k in Keys(t) ensures Get(r, k) == Some(now) {
      var i :| 0 <= i < |t| && t[i].key == k;
      assert r[i].key == k;
      assert VisibleItem(k, Get(r, k).value) in r;
    }
    r
  }

  lemma KeySeqMembers<K>(t: Table<K>)
    ensures forall k | k in KeySeq(t) :: k in Keys(t)
    ensures forall k | k in Keys(t) :: k in KeySeq(t)
  {
    forall k | k in Keys(t) ensures k in KeySeq(t) {
      var i :| 0 <= i < |t| && t[i].key == k;
      assert KeySeq(t)[i] == k;
    }
  }

  /** Distinct entries have distinct keys in iteration order. */
  lemma DistinctKeySeq<K>(t: Table<K>)
    requires DistinctKeys(t)
    ensures NoDuplicates(KeySeq(t))
    ensures forall k :: k in KeySeq(t) <==> k in Keys(t)
  {
    forall k | k in Keys(t) ensures k in KeySeq(t) {
      var i :| 0 <= i < |t| && t[i].key == k;
      assert KeySeq(t)[i] == k;
    }
  }

}
