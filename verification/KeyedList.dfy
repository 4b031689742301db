/** Lists of entries with distinct keys: what both LRU caches are, seen from outside. */
module KeyedList {
  datatype Entry<K, V> = Entry(key: K, value: V)

  predicate DistinctKeys<K(==), V>(a: seq<Entry<K, V>>) {
    forall i, j :: 0 <= i < j < |a| ==> a[i].key != a[j].key
  }

  /** The index of the entry with key `k`, or the length of the list. */
  function IndexOf<K(==), V>(a: seq<Entry<K, V>>, k: K): (i: nat)
    ensures i <= |a|
    ensures i < |a| ==> a[i].key == k
    ensures forall j :: 0 <= j < i ==> a[j].key != k
  {
    if a == [] || a[0].key == k then 0 else 1 + IndexOf(a[1..], k)
  }

  predicate Has<K(==), V>(a: seq<Entry<K, V>>, k: K) {
    IndexOf(a, k) < |a|
  }

  function Keys<K, V>(a: seq<Entry<K, V>>): set<K> {
    set i | 0 <= i < |a| :: a[i].key
  }

  lemma IndexOfAt<K, V>(a: seq<Entry<K, V>>, i: nat)
    requires DistinctKeys(a) && i < |a|
    ensures IndexOf(a, a[i].key) == i
  {
  }

  lemma IndexOfEntry<K, V>(a: seq<Entry<K, V>>, e: Entry<K, V>)
    requires DistinctKeys(a) && e in a
    ensures IndexOf(a, e.key) < |a| && a[IndexOf(a, e.key)] == e
  {
    var i :| 0 <= i < |a| && a[i] == e;
    IndexOfAt(a, i);
  }

  lemma {:induction false} KeysSize<K, V>(a: seq<Entry<K, V>>)
    requires DistinctKeys(a)
    ensures |Keys(a)| == |a|
  {
    if a == [] {
      assert Keys(a) == {};
    } else {
      var last := |a| - 1;
      KeysSize(a[..last]);
      assert Keys(a) == Keys(a[..last]) + {a[last].key};
    }
  }
}
