/** `LruMap` of LruMap/lurmap.h: a list of entries and an index from each key to its list node. */
module LruMapObject {
  import opened Basics
  import opened KeyedList
  import opened LruMapModel
  import opened NodeList

  type Node<K, V> = ListNode<K, Stamped<V>>

  ghost function Entries<K, V>(list: seq<Node<K, V>>): (a: List<K, V>)
    ensures |a| == |list|
    ensures forall i :: 0 <= i < |list| ==> a[i] == Entry(list[i].key, list[i].data)
  {
    seq(|list|, i requires 0 <= i < |list| => Entry(list[i].key, list[i].data))
  }

  lemma EntriesWithout<K, V>(list: seq<Node<K, V>>, at: nat)
    requires at < |list|
    ensures Entries(Without(list, at)) == Without(Entries(list), at)
  {
  }

  lemma EntriesSnoc<K, V>(list: seq<Node<K, V>>, node: Node<K, V>)
    ensures Entries(list + [node]) == Entries(list) + [Entry(node.key, node.data)]
  {
  }

  class LruMap<K(==), V> {
    var capacity: nat
    var index: map<K, Iterator>
    var nodelist: seq<Node<K, V>>
    var created: Iterator  // the next node's identity

    ghost predicate Valid()
      reads this
    {
      Linked(nodelist, index, created)
    }

    ghost function State(): Cache<K, V>
      requires Valid()
      reads this
    {
      Cache(capacity, Entries(nodelist))
    }

    constructor (capacity: nat)
      ensures Valid() && State() == Empty(capacity)
    {
      this.capacity, index, nodelist, created := capacity, map[], [], 0;
    }

    method Size() returns (n: nat)
      requires Valid()
      ensures n == |State().list|
    {
      SameSize(nodelist, index, created, Entries(nodelist));
      assert |index| == |index.Keys|;
      n := |index|;
    }

    method Clear()
      requires Valid()
      modifies this
      ensures Valid() && State() == Step(old(State()), Op.Clear)
    {
      index := map[];
      nodelist := [];
    }

    method SetCapacity(n: nat)
      requires Valid()
      modifies this
      ensures Valid() && State() == Step(old(State()), Op.SetCapacity(n))
    {
      capacity := n;
      if capacity == 0 {
        index := map[];
        nodelist := [];
      }
    }

    /** Returns the node found, or nothing for `end()`; `now` is the time read. */
    method Get(key: K, erasingExpired: bool, now: int) returns (found: Option<Node<K, V>>)
      requires Valid()
      modifies this
      ensures Valid() && State() == Step(old(State()), Op.Get(key, erasingExpired, now))
      ensures match Lookup(old(State()).list, key, erasingExpired, now)
        case None => found == None
        case Some(data) => found.Some? && found.value.key == key && found.value.data == data
                           && nodelist != [] && nodelist[|nodelist| - 1] == found.value
    {
      IndexedIsListed(nodelist, index, created, Entries(nodelist), key);
      if key !in index {
        return None;
      }
      ghost var at := IndexOf(Entries(nodelist), key);
      var i := Locate(nodelist, index[key], at);
      var node := nodelist[i];
      if erasingExpired && now > node.data.expiration {
        Erase(key);
        return None;
      }
      node := Splice(key, None);
      found := Some(node);
    }

    /** Moves the node of `key` to the back, after storing new data in it if there is any. */
    method Splice(key: K, data: Option<Stamped<V>>) returns (node: Node<K, V>)
      requires Valid() && key in index && Has(Entries(nodelist), key)
      modifies `nodelist
      ensures Valid() && nodelist != [] && nodelist[|nodelist| - 1] == node && node.key == key
      ensures var at := IndexOf(old(Entries(nodelist)), key);
        && node.data == (if data.Some? then data.value else old(Entries(nodelist))[at].value)
        && Entries(nodelist) == Without(old(Entries(nodelist)), at) + [Entry(key, node.data)]
    {
      IndexedIsListed(nodelist, index, created, Entries(nodelist), key);
      ghost var at := IndexOf(Entries(nodelist), key);
      var i := Locate(nodelist, index[key], at);
      node := if data.Some? then nodelist[i].(data := data.value) else nodelist[i];
      MoveToBack(nodelist, index, created, at, node.data);
      EntriesWithout(nodelist, at);
      EntriesSnoc(Without(nodelist, at), node);
      nodelist := Without(nodelist, i) + [node];
    }

    method Put(key: K, value: V, expirationSec: int, now: int) returns (node: Node<K, V>)
      requires Valid()
      modifies this
      ensures Valid() && State() == Step(old(State()), Op.Put(key, value, expirationSec, now))
      ensures nodelist != [] && nodelist[|nodelist| - 1] == node
    {
      hide Linked, Has, IndexOf, Without, Vacated;
      IndexedIsListed(nodelist, index, created, Entries(nodelist), key);
      if key in index {
        node := Splice(key, Some(Stamped(value, expirationSec + now)));
        return;
      }
      SameSize(nodelist, index, created, Entries(nodelist));
      assert |index| == |index.Keys|;
      if |index| >= capacity {
        VacateFront(VACATE_BATCH);
      }
      node := ListNode(created, key, Stamped(value, expirationSec + now));
      LinkBack(nodelist, index, created, node);
      EntriesSnoc(nodelist, node);
      nodelist := nodelist + [node];
      index := index[key := created];
      created := created + 1;
    }

    method Erase(key: K)
      requires Valid()
      modifies this
      ensures Valid() && State() == Step(old(State()), Op.Erase(key))
    {
      IndexedIsListed(nodelist, index, created, Entries(nodelist), key);
      if key in index {
        ghost var at := IndexOf(Entries(nodelist), key);
        var i := Locate(nodelist, index[key], at);
        Unlink(nodelist, index, created, at);
        EntriesWithout(nodelist, at);
        nodelist := Without(nodelist, i);
        index := index - {key};
      }
    }

    /** `vacate` removes one front node after another. */
    method VacateFront(n: nat)
      requires Valid()
      modifies `index, `nodelist
      ensures Valid() && State() == Step(old(State()), Op.Vacate(n))
      ensures forall k :: k in index ==> k in old(index)
    {
      ghost var before := Entries(nodelist);
      var i := 0;
      while nodelist != [] && i < n
        invariant Valid() && i <= n && i <= |before|
        invariant Entries(nodelist) == before[i..]
        invariant forall k :: k in index ==> k in old(index)
        decreases n - i
      {
        Unlink(nodelist, index, created, 0);
        EntriesWithout(nodelist, 0);
        index := index - {nodelist[0].key};
        nodelist := Without(nodelist, 0);
        i := i + 1;
      }
    }
  }
}
