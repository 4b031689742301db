/** `lru_cache` of lru_cache/lrucache.h: a list of keys and a map from each key to its value and its list node.
    A list iterator is the identity of a node, given out when the node is created. */
module LruCacheObject {
  import opened Basics
  import opened KeyedList
  import opened LruCacheModel
  import opened NodeList

  type Index<K, V> = map<K, (V, Iterator)>

  /** Each key's list node. */
  function NodeOf<K, V>(index: Index<K, V>): map<K, Iterator> {
    map k | k in index :: index[k].1
  }

  /** The cached entries in list order. */
  ghost function Entries<K, V>(list: seq<ListNode<K, ()>>, index: Index<K, V>): (a: seq<Entry<K, V>>)
    requires forall i :: 0 <= i < |list| ==> list[i].key in index
    ensures |a| == |list|
    ensures forall i :: 0 <= i < |list| ==> a[i] == Entry(list[i].key, index[list[i].key].0)
  {
    seq(|list|, i requires 0 <= i < |list| => Entry(list[i].key, index[list[i].key].0))
  }

  lemma PushFront<K, V>(list: seq<ListNode<K, ()>>, index: Index<K, V>, created: Iterator, key: K, value: V)
    requires Linked(list, NodeOf(index), created) && key !in index
    ensures var list', index' := [ListNode(created, key, ())] + list, index[key := (value, created)];
      Linked(list', NodeOf(index'), created + 1) && Entries(list', index') == [Entry(key, value)] + Entries(list, index)
  {
    var node := ListNode(created, key, ());
    LinkFront(list, NodeOf(index), created, node);
    assert NodeOf(index[key := (value, created)]) == NodeOf(index)[key := created];
    EntriesCons(list, index, node, value);
  }

  lemma EntriesCons<K, V>(list: seq<ListNode<K, ()>>, index: Index<K, V>, node: ListNode<K, ()>, value: V)
    requires forall i :: 0 <= i < |list| ==> list[i].key in index
    requires node.key !in index
    ensures Entries([node] + list, index[node.key := (value, node.id)]) == [Entry(node.key, value)] + Entries(list, index)
  {
  }

  /** Erasing one node, and its key from the map. */
  lemma Remove<K, V>(list: seq<ListNode<K, ()>>, index: Index<K, V>, created: Iterator, at: nat)
    requires Linked(list, NodeOf(index), created) && at < |list|
    ensures var list', index' := Without(list, at), index - {list[at].key};
      Linked(list', NodeOf(index'), created) && Entries(list', index') == Without(Entries(list, index), at)
  {
    LinkedKeysDistinct(list, NodeOf(index), created);
    Unlink(list, NodeOf(index), created, at);
    assert NodeOf(index - {list[at].key}) == NodeOf(index) - {list[at].key};
    hide Without, Linked;
    EntriesWithout(list, index, index - {list[at].key}, at);
  }

  lemma EntriesWithout<K, V>(list: seq<ListNode<K, ()>>, index: Index<K, V>, index': Index<K, V>, at: nat)
    requires at < |list| && forall i :: 0 <= i < |list| ==> list[i].key in index
    requires forall i :: 0 <= i < |list| && i != at ==>
      list[i].key in index' && index'[list[i].key] == index[list[i].key]
    ensures Entries(Without(list, at), index') == Without(Entries(list, index), at)
  {
  }

  /** Unlinking a node and linking a new one for the same key and value in front. */
  lemma ReLink<K, V>(list: seq<ListNode<K, ()>>, index: Index<K, V>, created: Iterator, at: nat)
    requires Linked(list, NodeOf(index), created) && at < |list|
    ensures var key, a := list[at].key, Entries(list, index);
      var list', index' := [ListNode(created, key, ())] + Without(list, at), index[key := (index[key].0, created)];
      Linked(list', NodeOf(index'), created + 1) && Entries(list', index') == [a[at]] + Without(a, at)
  {
    var key := list[at].key;
    var value := index[key].0;
    Remove(list, index, created, at);
    PushFront(Without(list, at), index - {key}, created, key, value);
    assert (index - {key})[key := (value, created)] == index[key := (value, created)];
  }

  lemma FrontStays<K, V>(a: seq<Entry<K, V>>)
    requires a != []
    ensures [a[0]] + Without(a, 0) == a
  {
  }

  class LruCache<K(==), V> {
    var index: Index<K, V>
    var list: seq<ListNode<K, ()>>
    var capacity: nat
    var created: Iterator  // the next node's identity

    ghost predicate Valid()
      reads this
    {
      capacity >= 1 && |list| <= capacity && Linked(list, NodeOf(index), created)
    }

    ghost function Contents(): seq<Entry<K, V>>
      requires Valid()
      reads this
    {
      Entries(list, index)
    }

    constructor (capacity: nat)
      requires capacity >= 1
      ensures Valid() && Contents() == [] && this.capacity == capacity
    {
      index, list, this.capacity, created := map[], [], capacity, 0;
    }

    method Size() returns (n: nat)
      requires Valid()
      ensures n == |Contents()|
    {
      SameSize(list, NodeOf(index), created, Contents());
      assert |index| == |index.Keys| && index.Keys == NodeOf(index).Keys;
      n := |index|;
    }

    method Contains(key: K) returns (b: bool)
      requires Valid()
      ensures b == Has(Contents(), key)
    {
      IndexedIsListed(list, NodeOf(index), created, Contents(), key);
      b := key in index;
    }

    method Insert(key: K, value: V)
      requires Valid()
      modifies this
      ensures Valid() && capacity == old(capacity)
      ensures Contents() == Step(old(Contents()), capacity, Op.Insert(key, value))
    {
      hide Linked, IndexOf;
      IndexedIsListed(list, NodeOf(index), created, Contents(), key);
      if key !in index {
        SameSize(list, NodeOf(index), created, Contents());
        assert |index| == |index.Keys| && index.Keys == NodeOf(index).Keys;
        if |index| >= capacity {
          Evict();
        }
        PushFront(list, index, created, key, value);
        list := [ListNode(created, key, ())] + list;
        index := index[key := (value, created)];
        created := created + 1;
      }
    }

    method Evict()
      requires Valid() && list != []
      modifies `index, `list
      ensures Valid() && |list| == |old(list)| - 1
      ensures Contents() == old(Contents())[..|old(Contents())| - 1]
      ensures forall k :: k in index ==> k in old(index)
    {
      var last := list[|list| - 1];
      Remove(list, index, created, |list| - 1);
      index := index - {last.key};
      list := list[..|list| - 1];
      assert list == Without(old(list), |list|);
    }

    method Get(key: K) returns (value: Option<V>)
      requires Valid()
      modifies this
      ensures Valid() && capacity == old(capacity)
      ensures Contents() == Step(old(Contents()), capacity, Op.Get(key))
      ensures value == Lookup(old(Contents()), key)
    {
      hide Linked, IndexOf, Without;
      IndexedIsListed(list, NodeOf(index), created, Contents(), key);
      if key !in index {
        return None;
      }
      ghost var at := IndexOf(Contents(), key);
      NodesApart(list, NodeOf(index), created);
      var node := index[key].1;
      value := Some(index[key].0);
      if node != list[0].id {
        ReLink(list, index, created, at);
        var i := Locate(list, node, at);
        list := [ListNode(created, key, ())] + Without(list, i);
        index := index[key := (value.value, created)];
        created := created + 1;
      } else {
        FrontStays(Contents());
      }
    }

    method Clear()
      requires Valid()
      modifies this
      ensures Valid() && capacity == old(capacity)
      ensures Contents() == Step(old(Contents()), capacity, Op.Clear)
    {
      index := map[];
      list := [];
    }
  }
}
