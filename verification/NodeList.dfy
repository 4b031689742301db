/** `std::list` as a sequence of nodes, with a map from keys into it. A list iterator is the identity of a
    node, given out when the node is created and kept wherever the node moves. */
module NodeList {
  import opened Basics
  import opened KeyedList

  type Iterator = nat

  datatype ListNode<K, D> = ListNode(id: Iterator, key: K, data: D)

  /** Nodes are told apart by their identities. */
  ghost predicate DistinctNodes<K, D>(list: seq<ListNode<K, D>>, created: Iterator) {
    && (forall i :: 0 <= i < |list| ==> list[i].id < created)
    && (forall i, j :: 0 <= i < j < |list| ==> list[i].id != list[j].id)
  }

  ghost function ListedKeys<K, D>(list: seq<ListNode<K, D>>): set<K> {
    set i | 0 <= i < |list| :: list[i].key
  }

  /** The map leads each key to its own list node, and knows no other key. */
  ghost predicate Linked<K, D>(list: seq<ListNode<K, D>>, nodeOf: map<K, Iterator>, created: Iterator) {
    && DistinctNodes(list, created)
    && (forall i :: 0 <= i < |list| ==> list[i].key in nodeOf && nodeOf[list[i].key] == list[i].id)
    && nodeOf.Keys == ListedKeys(list)
  }

  /** The entries of `a` have the keys of the nodes, in order. */
  ghost predicate Keyed<K, D, W>(a: seq<Entry<K, W>>, list: seq<ListNode<K, D>>) {
    |a| == |list| && forall i :: 0 <= i < |list| ==> a[i].key == list[i].key
  }

  lemma LinkedKeysDistinct<K, D>(list: seq<ListNode<K, D>>, nodeOf: map<K, Iterator>, created: Iterator)
    requires Linked(list, nodeOf, created)
    ensures forall i, j :: 0 <= i < j < |list| ==> list[i].key != list[j].key
  {
  }

  lemma NodesApart<K, D>(list: seq<ListNode<K, D>>, nodeOf: map<K, Iterator>, created: Iterator)
    requires Linked(list, nodeOf, created)
    ensures forall i, j :: 0 <= i < j < |list| ==> list[i].id != list[j].id
  {
  }

  lemma IndexedIsListed<K, D, W>(list: seq<ListNode<K, D>>, nodeOf: map<K, Iterator>, created: Iterator,
                                 a: seq<Entry<K, W>>, key: K)
    requires Linked(list, nodeOf, created) && Keyed(a, list)
    ensures Has(a, key) <==> key in nodeOf
    ensures key in nodeOf ==> var i := IndexOf(a, key); list[i].id == nodeOf[key] && list[i].key == key
  {
    if key in nodeOf {
      assert key in ListedKeys(list);
      var i :| 0 <= i < |list| && list[i].key == key;
      LinkedKeysDistinct(list, nodeOf, created);
      IndexOfAt(a, i);
    }
  }

  lemma SameSize<K, D, W>(list: seq<ListNode<K, D>>, nodeOf: map<K, Iterator>, created: Iterator, a: seq<Entry<K, W>>)
    requires Linked(list, nodeOf, created) && Keyed(a, list)
    ensures |nodeOf.Keys| == |list|
  {
    LinkedKeysDistinct(list, nodeOf, created);
    KeysSize(a);
    assert Keys(a) == ListedKeys(list) by {
      assert forall i :: 0 <= i < |list| ==> a[i].key == list[i].key;
    }
  }

  lemma ListedKeysCons<K, D>(node: ListNode<K, D>, list: seq<ListNode<K, D>>)
    ensures ListedKeys([node] + list) == {node.key} + ListedKeys(list)
  {
    var list' := [node] + list;
    forall k | k in ListedKeys(list) ensures k in ListedKeys(list') {
      var i :| 0 <= i < |list| && list[i].key == k;
      assert list'[i + 1].key == k;
    }
    assert list'[0] == node;
  }

  lemma ListedKeysSnoc<K, D>(list: seq<ListNode<K, D>>, node: ListNode<K, D>)
    ensures ListedKeys(list + [node]) == ListedKeys(list) + {node.key}
  {
    var list' := list + [node];
    forall k | k in ListedKeys(list) ensures k in ListedKeys(list') {
      var i :| 0 <= i < |list| && list[i].key == k;
      assert list'[i].key == k;
    }
    assert list'[|list|] == node;
  }

  lemma ListedKeysUnlink<K, D>(list: seq<ListNode<K, D>>, at: nat)
    requires at < |list| && forall i, j :: 0 <= i < j < |list| ==> list[i].key != list[j].key
    ensures ListedKeys(Without(list, at)) == ListedKeys(list) - {list[at].key}
  {
    var list' := Without(list, at);
    forall k | k in ListedKeys(list) - {list[at].key} ensures k in ListedKeys(list') {
      var i :| 0 <= i < |list| && list[i].key == k;
      assert list'[if i < at then i else i - 1].key == k;
    }
    forall k | k in ListedKeys(list') ensures k in ListedKeys(list) - {list[at].key} {
      var i :| 0 <= i < |list'| && list'[i].key == k;
      assert list[if i < at then i else i + 1].key == k;
    }
  }

  /** Unlinking any one node, with its key. */
  lemma Unlink<K, D>(list: seq<ListNode<K, D>>, nodeOf: map<K, Iterator>, created: Iterator, at: nat)
    requires Linked(list, nodeOf, created) && at < |list|
    ensures Linked(Without(list, at), nodeOf - {list[at].key}, created)
  {
    LinkedKeysDistinct(list, nodeOf, created);
    ListedKeysUnlink(list, at);
    assert (nodeOf - {list[at].key}).Keys == nodeOf.Keys - {list[at].key};
    hide ListedKeys, Without;
  }

  /** Linking a new node in front. */
  lemma LinkFront<K, D>(list: seq<ListNode<K, D>>, nodeOf: map<K, Iterator>, created: Iterator, node: ListNode<K, D>)
    requires Linked(list, nodeOf, created) && node.key !in nodeOf && node.id == created
    ensures Linked([node] + list, nodeOf[node.key := node.id], created + 1)
  {
    var list', nodeOf' := [node] + list, nodeOf[node.key := node.id];
    ListedKeysCons(node, list);
    assert nodeOf'.Keys == nodeOf.Keys + {node.key};
    hide ListedKeys;
    assert DistinctNodes(list', created + 1);
    forall i | 0 <= i < |list'| ensures list'[i].key in nodeOf' && nodeOf'[list'[i].key] == list'[i].id {
      if i > 0 {
        assert list'[i] == list[i - 1];
      }
    }
  }

  /** Linking a new node at the back. */
  lemma LinkBack<K, D>(list: seq<ListNode<K, D>>, nodeOf: map<K, Iterator>, created: Iterator, node: ListNode<K, D>)
    requires Linked(list, nodeOf, created) && node.key !in nodeOf && node.id == created
    ensures Linked(list + [node], nodeOf[node.key := node.id], created + 1)
  {
    var list', nodeOf' := list + [node], nodeOf[node.key := node.id];
    ListedKeysSnoc(list, node);
    assert nodeOf'.Keys == nodeOf.Keys + {node.key};
    hide ListedKeys;
    assert DistinctNodes(list', created + 1);
    forall i | 0 <= i < |list'| ensures list'[i].key in nodeOf' && nodeOf'[list'[i].key] == list'[i].id {
      if i < |list| {
        assert list'[i] == list[i];
      }
    }
  }

  /** Moving a node to the back, possibly with new data: the map stays right as it is. */
  lemma MoveToBack<K, D>(list: seq<ListNode<K, D>>, nodeOf: map<K, Iterator>, created: Iterator, at: nat, data: D)
    requires Linked(list, nodeOf, created) && at < |list|
    ensures Linked(Without(list, at) + [list[at].(data := data)], nodeOf, created)
  {
    var node, rest := list[at].(data := data), Without(list, at);
    LinkedKeysDistinct(list, nodeOf, created);
    ListedKeysUnlink(list, at);
    ListedKeysSnoc(rest, node);
    assert list[at].key in ListedKeys(list);
    assert ListedKeys(rest + [node]) == ListedKeys(list);
    hide ListedKeys, Without;
    DistinctSnoc(list, rest, node, created, at);
    forall i | 0 <= i < |rest + [node]|
      ensures (rest + [node])[i].key in nodeOf && nodeOf[(rest + [node])[i].key] == (rest + [node])[i].id
    {
      if i < |rest| {
        assert (rest + [node])[i] == rest[i];
      }
    }
  }

  lemma DistinctSnoc<K, D>(list: seq<ListNode<K, D>>, rest: seq<ListNode<K, D>>, node: ListNode<K, D>,
                           created: Iterator, at: nat)
    requires DistinctNodes(list, created) && at < |list| && rest == Without(list, at) && node.id == list[at].id
    ensures DistinctNodes(rest + [node], created)
  {
  }

  /** The position of the node with identity `id`: how an iterator is followed. */
  method Locate<K, D>(list: seq<ListNode<K, D>>, id: Iterator, ghost at: nat) returns (i: nat)
    requires at < |list| && list[at].id == id
    requires forall i, j :: 0 <= i < j < |list| ==> list[i].id != list[j].id
    ensures i == at
  {
    i := 0;
    while list[i].id != id
      invariant i <= at
      decreases at - i
    {
      i := i + 1;
    }
  }
}
