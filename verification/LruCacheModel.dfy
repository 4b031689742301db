/** The cache of lru_cache/lrucache.h as a list of entries, the most recently used one in front. */
module LruCacheModel {
  import opened Basics
  import opened KeyedList

  datatype Op<K, V> = Insert(key: K, value: V) | Get(key: K) | Clear

  /** The cache after an operation. A key that is present is neither overwritten nor refreshed by an insert;
      a new one pushes out the last entry when the cache is full. */
  function Step<K(==), V>(a: seq<Entry<K, V>>, capacity: nat, op: Op<K, V>): seq<Entry<K, V>>
    requires capacity >= 1
  {
    match op
    case Insert(k, v) =>
      if Has(a, k) then a
      else [Entry(k, v)] + (if |a| >= capacity then a[..|a| - 1] else a)
    case Get(k) =>
      if Has(a, k) then [a[IndexOf(a, k)]] + Without(a, IndexOf(a, k)) else a
    case Clear => []
  }

  /** What `get` returns. */
  function Lookup<K(==), V>(a: seq<Entry<K, V>>, k: K): Option<V> {
    if Has(a, k) then Some(a[IndexOf(a, k)].value) else None
  }

  /** The key an operation newly inserts or hits. */
  function Touched<K(==), V>(a: seq<Entry<K, V>>, op: Op<K, V>): set<K> {
    match op
    case Insert(k, _) => if Has(a, k) then {} else {k}
    case Get(k) => if Has(a, k) then {k} else {}
    case Clear => {}
  }

  function After<K(==), V>(a: seq<Entry<K, V>>, capacity: nat, ops: seq<Op<K, V>>): seq<Entry<K, V>>
    requires capacity >= 1
  {
    if ops == [] then a else Step(After(a, capacity, Init(ops)), capacity, Last(ops))
  }

  /** All keys newly inserted or hit during a run. */
  function AllTouched<K(==), V>(a: seq<Entry<K, V>>, capacity: nat, ops: seq<Op<K, V>>): set<K>
    requires capacity >= 1
  {
    if ops == [] then {}
    else AllTouched(a, capacity, Init(ops)) + Touched(After(a, capacity, Init(ops)), Last(ops))
  }

  predicate Inv<K(==), V>(a: seq<Entry<K, V>>, capacity: nat) {
    DistinctKeys(a) && |a| <= capacity
  }

  lemma StepInv<K, V>(a: seq<Entry<K, V>>, capacity: nat, op: Op<K, V>)
    requires capacity >= 1 && Inv(a, capacity)
    ensures Inv(Step(a, capacity, op), capacity)
  {
    if op.Get? && Has(a, op.key) {
      FrontedDistinct(a, IndexOf(a, op.key));
    }
  }

  lemma FrontedDistinct<K, V>(a: seq<Entry<K, V>>, i: nat)
    requires DistinctKeys(a) && i < |a|
    ensures DistinctKeys([a[i]] + Without(a, i))
  {
  }

  /** No operation sequence duplicates a key or exceeds the capacity. */
  lemma {:induction false} RunInv<K, V>(a: seq<Entry<K, V>>, capacity: nat, ops: seq<Op<K, V>>)
    requires capacity >= 1 && Inv(a, capacity)
    ensures Inv(After(a, capacity, ops), capacity)
  {
    if ops != [] {
      RunInv(a, capacity, Init(ops));
      StepInv(After(a, capacity, Init(ops)), capacity, Last(ops));
    }
  }

  // ---- The list is the order of last use, and holds what was inserted ----

  /** When `k` was last newly inserted or hit: the number of operations up to and including that one. */
  function LastTouch<K(==), V>(capacity: nat, ops: seq<Op<K, V>>, k: K): (t: nat)
    requires capacity >= 1
    ensures t <= |ops|
  {
    if ops == [] then 0
    else if k in Touched(After([], capacity, Init(ops)), Last(ops)) then |ops|
    else LastTouch(capacity, Init(ops), k)
  }

  /** The value last newly inserted for `k`. */
  function Inserted<K(==), V>(capacity: nat, ops: seq<Op<K, V>>, k: K): Option<V>
    requires capacity >= 1
  {
    if ops == [] then None
    else if Last(ops).Insert? && Last(ops).key == k && !Has(After([], capacity, Init(ops)), k) then Some(Last(ops).value)
    else Inserted(capacity, Init(ops), k)
  }

  lemma {:induction false} OrderedByLastTouch<K, V>(capacity: nat, ops: seq<Op<K, V>>, i: nat, j: nat)
    requires capacity >= 1 && i < j < |After([], capacity, ops)|
    ensures var a := After([], capacity, ops);
      LastTouch(capacity, ops, a[i].key) > LastTouch(capacity, ops, a[j].key)
  {
    if ops != [] {
      var a, op := After([], capacity, Init(ops)), Last(ops);
      RunInv([], capacity, Init(ops));
      var i' := Origin(a, capacity, op, i);
      var j' := Origin(a, capacity, op, j);
      if i' < |a| && j' < |a| && i' < j' {
        OrderedByLastTouch(capacity, Init(ops), i', j');
      }
    }
  }

  /** Where the entry at index `i` after the operation stood before it; nowhere if it is new. */
  lemma Origin<K, V>(a: seq<Entry<K, V>>, capacity: nat, op: Op<K, V>, i: nat) returns (i': nat)
    requires capacity >= 1 && Inv(a, capacity) && i < |Step(a, capacity, op)|
    ensures var e := Step(a, capacity, op)[i];
      && i' <= |a|
      && (i' < |a| ==> a[i'] == e)
      && (e.key in Touched(a, op) <==> i == 0 && Touched(a, op) != {})
      && (i' == |a| ==> op == Insert(e.key, e.value) && !Has(a, e.key))
    ensures Touched(a, op) == {} ==> i' == i
    ensures i > 0 && Touched(a, op) != {} ==>
      i' == if op.Insert? then i - 1 else if i <= IndexOf(a, op.key) then i - 1 else i
  {
    var b := Step(a, capacity, op);
    if Touched(a, op) == {} {
      i' := i;
    } else if op.Insert? {
      i' := if i == 0 then |a| else i - 1;
    } else {
      var p := IndexOf(a, op.key);
      i' := if i == 0 then p else if i <= p then i - 1 else i;
    }
  }

  /** Every cached value is the one of the key's last new insertion. */
  lemma {:induction false} ValuesAsInserted<K, V>(capacity: nat, ops: seq<Op<K, V>>, i: nat)
    requires capacity >= 1 && i < |After([], capacity, ops)|
    ensures var e := After([], capacity, ops)[i]; Inserted(capacity, ops, e.key) == Some(e.value)
  {
    if ops != [] {
      var a, op := After([], capacity, Init(ops)), Last(ops);
      RunInv([], capacity, Init(ops));
      var i' := Origin(a, capacity, op, i);
      if i' < |a| {
        ValuesAsInserted(capacity, Init(ops), i');
        IndexOfAt(a, i');
      }
    }
  }

  // ---- What each operation leaves cached ----

  /** Whether an entry stays. `IndexOf` is its rank in the order of last use, the latest first. */
  predicate Stays<K(==), V>(a: seq<Entry<K, V>>, capacity: nat, op: Op<K, V>, e: Entry<K, V>) {
    match op
    case Insert(k, _) => Has(a, k) || |a| < capacity || IndexOf(a, e.key) + 1 < |a|
    case Get(_) => true
    case Clear => false
  }

  lemma NothingElse<K, V>(a: seq<Entry<K, V>>, capacity: nat, op: Op<K, V>, e: Entry<K, V>)
    requires capacity >= 1 && Inv(a, capacity) && e in Step(a, capacity, op)
    ensures (op.Insert? && !Has(a, op.key) && e == Entry(op.key, op.value)) || (e in a && Stays(a, capacity, op, e))
  {
    var b := Step(a, capacity, op);
    var j :| 0 <= j < |b| && b[j] == e;
    var i := Origin(a, capacity, op, j);
    if i < |a| {
      IndexOfAt(a, i);
    }
  }

  lemma StaysCached<K, V>(a: seq<Entry<K, V>>, capacity: nat, op: Op<K, V>, e: Entry<K, V>)
    requires capacity >= 1 && Inv(a, capacity) && e in a && Stays(a, capacity, op, e)
    ensures e in Step(a, capacity, op)
  {
    IndexOfEntry(a, e);
    hide IndexOf, DistinctKeys;
    var b, i := Step(a, capacity, op), IndexOf(a, e.key);
    if op.Insert? && !Has(a, op.key) {
      assert b[i + 1] == e;
    }
    if op.Get? && Has(a, op.key) {
      var p := IndexOf(a, op.key);
      assert b[if i == p then 0 else if i < p then i + 1 else i] == e;
    }
  }

  /** What is cached after one operation: what was newly inserted, and, of what was cached, exactly what stays. */
  lemma StepContents<K, V>(a: seq<Entry<K, V>>, capacity: nat, op: Op<K, V>, e: Entry<K, V>)
    requires capacity >= 1 && Inv(a, capacity)
    ensures e in Step(a, capacity, op) <==>
      || (op.Insert? && !Has(a, op.key) && e == Entry(op.key, op.value))
      || (e in a && Stays(a, capacity, op, e))
  {
    if e in Step(a, capacity, op) {
      NothingElse(a, capacity, op, e);
    } else if e in a && Stays(a, capacity, op, e) {
      StaysCached(a, capacity, op, e);
    }
  }

  /** `get` after any run: the value last newly inserted for a cached key, and nothing for any other. */
  lemma GetExactly<K, V>(capacity: nat, ops: seq<Op<K, V>>, key: K)
    requires capacity >= 1
    ensures var a := After([], capacity, ops);
      if forall e <- a :: e.key != key then Lookup(a, key) == None
      else Lookup(a, key).Some? && Lookup(a, key) == Inserted(capacity, ops, key)
  {
    var a := After([], capacity, ops);
    RunInv([], capacity, ops);
    if e :| e in a && e.key == key {
      ValuesAsInserted(capacity, ops, IndexOf(a, key));
    }
  }

  // ---- Retention ----

  /** `k` is cached at index `p`, and the keys before it are `ahead`. */
  ghost predicate Behind<K, V>(a: seq<Entry<K, V>>, p: nat, e: Entry<K, V>, ahead: set<K>) {
    p < |a| && a[p] == e && Keys(a[..p]) == ahead
  }

  lemma InsertKeeps<K, V>(a: seq<Entry<K, V>>, capacity: nat, x: Entry<K, V>, p: nat, e: Entry<K, V>, ahead: set<K>)
    requires Inv(a, capacity) && Behind(a, p, e, ahead) && !Has(a, x.key) && p + 1 < capacity
    ensures Behind(Step(a, capacity, Insert(x.key, x.value)), p + 1, e, ahead + {x.key})
  {
    var b := Step(a, capacity, Insert(x.key, x.value));
    hide Has, IndexOf, Keys;
    assert b[..p + 1] == [x] + a[..p];
    KeysCons(x, a[..p]);
  }

  lemma InsertEvicts<K, V>(a: seq<Entry<K, V>>, capacity: nat, x: Entry<K, V>, e: Entry<K, V>)
    requires capacity >= 1 && Inv(a, capacity) && !Has(a, x.key) && |a| == capacity && a[capacity - 1] == e
    ensures !Has(Step(a, capacity, Insert(x.key, x.value)), e.key)
  {
    var b := Step(a, capacity, Insert(x.key, x.value));
    assert forall i :: 0 <= i < |b| ==> b[i].key != e.key;
  }

  lemma InsertStep<K, V>(a: seq<Entry<K, V>>, capacity: nat, x: Entry<K, V>, p: nat, e: Entry<K, V>, ahead: set<K>)
    requires capacity >= 1 && Inv(a, capacity) && Behind(a, p, e, ahead) && |ahead| == p
    requires !Has(a, x.key)
    ensures var b := Step(a, capacity, Insert(x.key, x.value));
      && |ahead + {x.key}| == p + 1
      && if p + 1 < capacity then Behind(b, p + 1, e, ahead + {x.key}) else !Has(b, e.key)
  {
    assert x.key !in ahead;
    hide Keys, Step, Has, IndexOf;
    if p + 1 < capacity {
      InsertKeeps(a, capacity, x, p, e, ahead);
    } else {
      InsertEvicts(a, capacity, x, e);
    }
  }

  lemma HitAhead<K, V>(a: seq<Entry<K, V>>, i: nat, p: nat)
    requires i < p < |a|
    ensures var b := [a[i]] + Without(a, i);
      b[p] == a[p] && Keys(b[..p]) == Keys(a[..p]) && a[i].key in Keys(a[..p])
  {
    var b := [a[i]] + Without(a, i);
    assert a[..p][i].key in Keys(a[..p]);
    assert b[..p] == [a[..p][i]] + Without(a[..p], i);
    MovedKeys(a[..p], i);
  }

  lemma HitBehind<K, V>(a: seq<Entry<K, V>>, i: nat, p: nat)
    requires DistinctKeys(a) && p < i < |a|
    ensures var b := [a[i]] + Without(a, i);
      b[p + 1] == a[p] && Keys(b[..p + 1]) == {a[i].key} + Keys(a[..p]) && a[i].key !in Keys(a[..p])
  {
    var b := [a[i]] + Without(a, i);
    assert b[..p + 1] == [a[i]] + a[..p];
    KeysCons(a[i], a[..p]);
  }

  lemma HitFronts<K, V>(a: seq<Entry<K, V>>, capacity: nat, i: nat)
    requires capacity >= 1 && Inv(a, capacity) && i < |a|
    ensures Step(a, capacity, Get(a[i].key)) == [a[i]] + Without(a, i)
  {
    IndexOfAt(a, i);
  }

  lemma HitStep<K, V>(a: seq<Entry<K, V>>, capacity: nat, i: nat, p: nat, e: Entry<K, V>, ahead: set<K>)
    requires capacity >= 1 && Inv(a, capacity) && Behind(a, p, e, ahead) && |ahead| == p
    requires i < |a| && i != p
    ensures var b, ahead' := Step(a, capacity, Get(a[i].key)), ahead + {a[i].key};
      |ahead'| < capacity && Behind(b, |ahead'|, e, ahead')
  {
    hide Without, Keys;
    HitFronts(a, capacity, i);
    hide Step;
    if i < p {
      HitAhead(a, i, p);
      assert ahead + {a[i].key} == ahead;
    } else {
      HitBehind(a, i, p);
      assert {a[i].key} + ahead == ahead + {a[i].key};
    }
  }

  lemma FrontStep<K, V>(a: seq<Entry<K, V>>, capacity: nat, op: Op<K, V>, p: nat, e: Entry<K, V>, ahead: set<K>)
    requires capacity >= 1 && Inv(a, capacity) && Behind(a, p, e, ahead)
    requires !op.Clear? && e.key !in Touched(a, op)
    ensures var b, ahead' := Step(a, capacity, op), ahead + Touched(a, op);
      if |ahead'| < capacity then Behind(b, |ahead'|, e, ahead') else !Has(b, e.key)
  {
    KeysSize(a[..p]);
    if Touched(a, op) == {} {
      assert ahead + Touched(a, op) == ahead;
    } else if op.Insert? {
      InsertStep(a, capacity, Entry(op.key, op.value), p, e, ahead);
    } else {
      HitStep(a, capacity, IndexOf(a, op.key), p, e, ahead);
    }
  }

  lemma KeysCons<K, V>(e: Entry<K, V>, a: seq<Entry<K, V>>)
    ensures Keys([e] + a) == {e.key} + Keys(a)
  {
    var b := [e] + a;
    forall k | k in Keys(a) ensures k in Keys(b) {
      var i :| 0 <= i < |a| && a[i].key == k;
      assert b[i + 1].key == k;
    }
    assert b[0].key in Keys(b);
  }

  lemma MovedKeys<K, V>(a: seq<Entry<K, V>>, i: nat)
    requires i < |a|
    ensures Keys([a[i]] + Without(a, i)) == Keys(a)
  {
    var b := [a[i]] + Without(a, i);
    forall k | k in Keys(a) ensures k in Keys(b) {
      var j :| 0 <= j < |a| && a[j].key == k;
      assert b[if j == i then 0 else if j < i then j + 1 else j].key == k;
    }
  }

  predicate NoClear<K, V>(ops: seq<Op<K, V>>) {
    forall i :: 0 <= i < |ops| ==> !ops[i].Clear?
  }

  /** Retention, exactly: take any run without `clear` from a moment at which `k` was just used, in which `k`
      is not used again. `k` is cached at the end if and only if fewer than `capacity` distinct other keys
      were newly inserted or hit. It then has its entry unchanged, and those keys are the ones before it. */
  lemma {:induction false} RetainedExactly<K, V>(a: seq<Entry<K, V>>, capacity: nat, ops: seq<Op<K, V>>)
    requires capacity >= 1 && Inv(a, capacity) && a != []
    requires NoClear(ops) && a[0].key !in AllTouched(a, capacity, ops)
    ensures var b, others := After(a, capacity, ops), AllTouched(a, capacity, ops);
      && (Has(b, a[0].key) <==> |others| < capacity)
      && (|others| < capacity ==> Behind(b, |others|, a[0], others))
  {
    if ops == [] {
      assert Keys(a[..0]) == {};
    } else {
      RunInv(a, capacity, Init(ops));
      RetainedExactly(a, capacity, Init(ops));
      var b, others := After(a, capacity, Init(ops)), AllTouched(a, capacity, Init(ops));
      if |others| < capacity {
        FrontStep(b, capacity, Last(ops), |others|, a[0], others);
      } else {
        GrowingSet(others, Touched(b, Last(ops)));
        GoneStays(b, capacity, Last(ops), a[0].key);
      }
      RunInv(a, capacity, ops);
      if |AllTouched(a, capacity, ops)| < capacity {
        BehindHas(After(a, capacity, ops), capacity, a[0]);
      }
    }
  }

  lemma GoneStays<K, V>(a: seq<Entry<K, V>>, capacity: nat, op: Op<K, V>, k: K)
    requires capacity >= 1 && Inv(a, capacity) && !Has(a, k) && k !in Touched(a, op)
    ensures !Has(Step(a, capacity, op), k)
  {
  }

  lemma BehindHas<K, V>(a: seq<Entry<K, V>>, capacity: nat, e: Entry<K, V>)
    requires Inv(a, capacity) && e in a
    ensures Has(a, e.key)
  {
  }

  lemma GrowingSet<K>(s: set<K>, t: set<K>)
    ensures |s| <= |s + t|
  {
    assert s + t == s + (t - s);
  }

  /** What makes a key the front one: a new insertion, with the value given, or a hit, with the value kept. The
      insertion of a cached key and a miss change nothing, and `clear` leaves nothing. */
  lemma UseMovesToFront<K, V>(a: seq<Entry<K, V>>, capacity: nat, op: Op<K, V>)
    requires capacity >= 1 && Inv(a, capacity)
    ensures var b := Step(a, capacity, op);
      match op
      case Insert(k, v) => if Has(a, k) then b == a else b != [] && b[0] == Entry(k, v)
      case Get(k) => if Has(a, k) then b != [] && b[0].key == k && b[0] in a else b == a
      case Clear => b == []
  {
    if op.Get? && Has(a, op.key) {
      assert Step(a, capacity, op)[0] == a[IndexOf(a, op.key)];
    }
  }
}
