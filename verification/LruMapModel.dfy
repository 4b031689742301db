/** The map of LruMap/lurmap.h as a list of entries, the least recently used one in front. */
module LruMapModel {
  import opened Basics
  import opened KeyedList

  datatype Stamped<V> = Stamped(value: V, expiration: int)

  type List<K, V> = seq<Entry<K, Stamped<V>>>

  datatype Cache<K, V> = Cache(capacity: nat, list: List<K, V>)

  /** An operation; `now` is what `time(NULL)` returns during it. */
  datatype Op<K, V> =
    | Get(key: K, erasingExpired: bool, now: int)
    | Put(key: K, value: V, expirationSec: int, now: int)
    | Erase(key: K)
    | Vacate(n: nat)
    | SetCapacity(n: nat)
    | Clear

  const VACATE_BATCH: nat := 16

  function ToBack<K, V>(a: List<K, V>, i: nat): List<K, V>
    requires i < |a|
  {
    Without(a, i) + [a[i]]
  }

  /** Drops the `n` least recently used entries, or all. */
  function Vacated<K, V>(a: List<K, V>, n: nat): List<K, V> {
    if n <= |a| then a[n..] else []
  }

  predicate Expired<V>(s: Stamped<V>, now: int) {
    now > s.expiration
  }

  /** Whether `get` finds an entry it may return. */
  predicate Hit<K(==), V>(a: List<K, V>, key: K, erasingExpired: bool, now: int) {
    Has(a, key) && !(erasingExpired && Expired(a[IndexOf(a, key)].value, now))
  }

  /** What `get` returns. */
  function Lookup<K(==), V>(a: List<K, V>, key: K, erasingExpired: bool, now: int): Option<Stamped<V>> {
    if Hit(a, key, erasingExpired, now) then Some(a[IndexOf(a, key)].value) else None
  }

  function Step<K(==), V>(c: Cache<K, V>, op: Op<K, V>): Cache<K, V> {
    var a := c.list;
    match op
    case Get(k, erasing, now) =>
      if !Has(a, k) then c
      else if Hit(a, k, erasing, now) then c.(list := ToBack(a, IndexOf(a, k)))
      else c.(list := Without(a, IndexOf(a, k)))
    case Put(k, v, sec, now) =>
      var room := if Has(a, k) then Without(a, IndexOf(a, k))
                  else if |a| >= c.capacity then Vacated(a, VACATE_BATCH)
                  else a;
      c.(list := room + [Entry(k, Stamped(v, sec + now))])
    case Erase(k) => if Has(a, k) then c.(list := Without(a, IndexOf(a, k))) else c
    case Vacate(n) => c.(list := Vacated(a, n))
    case SetCapacity(n) => Cache(n, if n == 0 then [] else a)
    case Clear => c.(list := [])
  }

  /** The key an operation uses: moves or puts to the back. */
  function Touched<K(==), V>(c: Cache<K, V>, op: Op<K, V>): set<K> {
    match op
    case Get(k, erasing, now) => if Hit(c.list, k, erasing, now) then {k} else {}
    case Put(k, _, _, _) => {k}
    case _ => {}
  }

  function After<K(==), V>(c: Cache<K, V>, ops: seq<Op<K, V>>): Cache<K, V> {
    if ops == [] then c else Step(After(c, Init(ops)), Last(ops))
  }

  function AllTouched<K(==), V>(c: Cache<K, V>, ops: seq<Op<K, V>>): set<K> {
    if ops == [] then {} else AllTouched(c, Init(ops)) + Touched(After(c, Init(ops)), Last(ops))
  }

  /** Where the entry at index `i` after the operation stood before it; at the old length if it was put. */
  function Origin<K(==), V>(c: Cache<K, V>, op: Op<K, V>, i: nat): nat {
    var a := c.list;
    var past := if op.Get? || op.Put? || op.Erase? then IndexOf(a, op.key) else |a|;
    match op
    case Get(k, erasing, now) =>
      if !Has(a, k) || i < past then i
      else if i == |a| - 1 then past else i + 1
    case Put(k, _, _, _) =>
      if i + 1 == |Step(c, op).list| then |a|
      else if Has(a, k) then (if i < past then i else i + 1)
      else if |a| >= c.capacity then i + VACATE_BATCH
      else i
    case Erase(k) => if i < past then i else i + 1
    case Vacate(n) => i + n
    case SetCapacity(_) => i
    case Clear => i
  }

  lemma OriginIsRight<K, V>(c: Cache<K, V>, op: Op<K, V>, i: nat)
    requires DistinctKeys(c.list) && i < |Step(c, op).list|
    ensures var e, i' := Step(c, op).list[i], Origin(c, op, i);
      && i' <= |c.list|
      && (i' < |c.list| ==> c.list[i'] == e)
      && (i' == |c.list| ==> op.Put? && e == Entry(op.key, Stamped(op.value, op.expirationSec + op.now)))
      && (op.Put? && op.key == e.key ==> i' == |c.list|)
      && (e.key in Touched(c, op) ==> i + 1 == |Step(c, op).list|)
  {
  }

  lemma OrderKeptByPut<K, V>(c: Cache<K, V>, op: Op<K, V>, i: nat, j: nat)
    requires DistinctKeys(c.list) && op.Put? && i < j < |Step(c, op).list|
    ensures OrderKeptAt(c, op, i, j)
  {
  }

  lemma OrderKeptByGet<K, V>(c: Cache<K, V>, op: Op<K, V>, i: nat, j: nat)
    requires DistinctKeys(c.list) && op.Get? && i < j < |Step(c, op).list|
    ensures OrderKeptAt(c, op, i, j)
  {
  }

  ghost predicate OrderKeptAt<K, V>(c: Cache<K, V>, op: Op<K, V>, i: nat, j: nat)
    requires i < j < |Step(c, op).list|
  {
    var b := Step(c, op).list;
    && b[i].key != b[j].key
    && b[i].key !in Touched(c, op)
    && Origin(c, op, i) < |c.list|
    && (b[j].key in Touched(c, op) || Origin(c, op, i) < Origin(c, op, j) < |c.list|)
  }

  /** Entries other than the one used keep their order. */
  lemma OrderKept<K, V>(c: Cache<K, V>, op: Op<K, V>, i: nat, j: nat)
    requires DistinctKeys(c.list) && i < j < |Step(c, op).list|
    ensures OrderKeptAt(c, op, i, j)
  {
    if op.Put? {
      OrderKeptByPut(c, op, i, j);
    } else if op.Get? {
      OrderKeptByGet(c, op, i, j);
    }
  }

  lemma StepDistinct<K, V>(c: Cache<K, V>, op: Op<K, V>)
    requires DistinctKeys(c.list)
    ensures DistinctKeys(Step(c, op).list)
  {
    hide Step, Origin;
    forall i, j | 0 <= i < j < |Step(c, op).list|
      ensures Step(c, op).list[i].key != Step(c, op).list[j].key
    {
      OrderKept(c, op, i, j);
    }
  }

  /** No operation sequence duplicates a key. */
  lemma {:induction false} RunDistinct<K, V>(c: Cache<K, V>, ops: seq<Op<K, V>>)
    requires DistinctKeys(c.list)
    ensures DistinctKeys(After(c, ops).list)
  {
    if ops != [] {
      RunDistinct(c, Init(ops));
      StepDistinct(After(c, Init(ops)), Last(ops));
    }
  }

  function Empty<K, V>(capacity: nat): Cache<K, V> {
    Cache(capacity, [])
  }

  // ---- The list is the order of last use, and holds what was put ----

  /** When `k` was last used: the number of operations up to and including that one. */
  function LastTouch<K(==), V>(capacity: nat, ops: seq<Op<K, V>>, k: K): (t: nat)
    ensures t <= |ops|
  {
    if ops == [] then 0
    else if k in Touched(After(Empty(capacity), Init(ops)), Last(ops)) then |ops|
    else LastTouch(capacity, Init(ops), k)
  }

  /** What the last `put` of `k` stored. */
  function LastPut<K(==), V>(ops: seq<Op<K, V>>, k: K): Option<Stamped<V>> {
    if ops == [] then None
    else
      var op := Last(ops);
      if op.Put? && op.key == k then Some(Stamped(op.value, op.expirationSec + op.now)) else LastPut(Init(ops), k)
  }

  /** So `Vacate`, which drops from the front, drops exactly the least recently used entries. */
  lemma {:induction false} OrderedByLastTouch<K, V>(capacity: nat, ops: seq<Op<K, V>>, i: nat, j: nat)
    requires i < j < |After(Empty(capacity), ops).list|
    ensures var a := After(Empty(capacity), ops).list;
      LastTouch(capacity, ops, a[i].key) < LastTouch(capacity, ops, a[j].key)
  {
    hide Step, Origin, Touched;
    if ops != [] {
      var c, op := After(Empty(capacity), Init(ops)), Last(ops);
      RunDistinct(Empty(capacity), Init(ops));
      OrderKept(c, op, i, j);
      OriginIsRight(c, op, i);
      OriginIsRight(c, op, j);
      if Step(c, op).list[j].key !in Touched(c, op) {
        OrderedByLastTouch(capacity, Init(ops), Origin(c, op, i), Origin(c, op, j));
      }
    }
  }

  /** Every stored value and expiration is that of the key's last `put`. */
  lemma {:induction false} HoldsLastPut<K, V>(capacity: nat, ops: seq<Op<K, V>>, i: nat)
    requires i < |After(Empty(capacity), ops).list|
    ensures var e := After(Empty(capacity), ops).list[i]; LastPut(ops, e.key) == Some(e.value)
  {
    hide Step, Origin, Touched;
    if ops != [] {
      var c, op := After(Empty(capacity), Init(ops)), Last(ops);
      RunDistinct(Empty(capacity), Init(ops));
      OriginIsRight(c, op, i);
      if Origin(c, op, i) < |c.list| {
        HoldsLastPut(capacity, Init(ops), Origin(c, op, i));
      }
    }
  }

  /** After any run, what `get` yields is what the last `put` of that key stored, and, with erasing on, it has
      not expired. */
  lemma GetYieldsLastPut<K, V>(capacity: nat, ops: seq<Op<K, V>>, key: K, erasingExpired: bool, now: int)
    requires Lookup(After(Empty(capacity), ops).list, key, erasingExpired, now).Some?
    ensures var found := Lookup(After(Empty(capacity), ops).list, key, erasingExpired, now);
      found == LastPut(ops, key) && (erasingExpired ==> found.value.expiration >= now)
  {
    HoldsLastPut(capacity, ops, IndexOf(After(Empty(capacity), ops).list, key));
  }

  // ---- What each operation leaves stored ----

  /** Whether an entry stays. `IndexOf` is its rank in the order of last use. */
  predicate Stays<K(==), V>(c: Cache<K, V>, op: Op<K, V>, e: Entry<K, Stamped<V>>) {
    match op
    case Get(k, erasing, now) => !(e.key == k && erasing && now > e.value.expiration)
    case Put(k, _, _, _) => e.key != k && (Has(c.list, k) || |c.list| < c.capacity || IndexOf(c.list, e.key) >= 16)
    case Erase(k) => e.key != k
    case Vacate(n) => IndexOf(c.list, e.key) >= n
    case SetCapacity(n) => n != 0
    case Clear => false
  }

  lemma InWithout<K, V>(a: List<K, V>, i: nat, e: Entry<K, Stamped<V>>)
    requires DistinctKeys(a) && i < |a|
    ensures e in Without(a, i) <==> e in a && e.key != a[i].key
  {
    var rest := Without(a, i);
    if e in a && e.key != a[i].key {
      var j :| 0 <= j < |a| && a[j] == e;
      assert rest[if j < i then j else j - 1] == e;
    }
  }

  lemma InVacated<K, V>(a: List<K, V>, n: nat, e: Entry<K, Stamped<V>>)
    requires DistinctKeys(a)
    ensures e in Vacated(a, n) <==> e in a && IndexOf(a, e.key) >= n
  {
    if e in a {
      IndexOfEntry(a, e);
      if IndexOf(a, e.key) >= n {
        assert a[n..][IndexOf(a, e.key) - n] == e;
      }
    }
    if e in Vacated(a, n) {
      var j :| 0 <= j < |a[n..]| && a[n..][j] == e;
      IndexOfAt(a, n + j);
    }
  }

  lemma GetContents<K, V>(c: Cache<K, V>, key: K, erasing: bool, now: int, e: Entry<K, Stamped<V>>)
    requires DistinctKeys(c.list)
    ensures e in Step(c, Get(key, erasing, now)).list <==> e in c.list && Stays(c, Get(key, erasing, now), e)
  {
    if e in c.list {
      IndexOfEntry(c.list, e);
    }
    if Has(c.list, key) {
      InWithout(c.list, IndexOf(c.list, key), e);
    }
  }

  lemma PutContents<K, V>(c: Cache<K, V>, op: Op<K, V>, e: Entry<K, Stamped<V>>)
    requires DistinctKeys(c.list) && op.Put?
    ensures e in Step(c, op).list <==>
      e == Entry(op.key, Stamped(op.value, op.expirationSec + op.now)) || (e in c.list && Stays(c, op, e))
  {
    InVacated(c.list, VACATE_BATCH, e);
    if e in c.list {
      IndexOfEntry(c.list, e);
    }
    if Has(c.list, op.key) {
      InWithout(c.list, IndexOf(c.list, op.key), e);
    }
  }

  /** What is stored after one operation: what was put, and, of what was stored, exactly what stays. */
  lemma StepContents<K, V>(c: Cache<K, V>, op: Op<K, V>, e: Entry<K, Stamped<V>>)
    requires DistinctKeys(c.list)
    ensures e in Step(c, op).list <==>
      || (op.Put? && e == Entry(op.key, Stamped(op.value, op.expirationSec + op.now)))
      || (e in c.list && Stays(c, op, e))
    ensures Step(c, op).capacity == if op.SetCapacity? then op.n else c.capacity
  {
    match op {
      case Get(key, erasing, now) => GetContents(c, key, erasing, now, e);
      case Put(_, _, _, _) => PutContents(c, op, e);
      case Erase(key) =>
        if Has(c.list, key) {
          InWithout(c.list, IndexOf(c.list, key), e);
        }
      case Vacate(n) => InVacated(c.list, n, e);
      case _ =>
    }
  }

  /** `get` after any run: without an entry for the key it yields nothing; with one that has not expired, or with
      erasing off, it yields what the last `put` stored, and the entry stays; an expired one is gone. */
  lemma GetExactly<K, V>(capacity: nat, ops: seq<Op<K, V>>, key: K, erasingExpired: bool, now: int)
    ensures var c := After(Empty(capacity), ops);
      var found, list := Lookup(c.list, key, erasingExpired, now), Step(c, Get(key, erasingExpired, now)).list;
      if forall e <- c.list :: e.key != key then found == None && list == c.list
      else
        var put := LastPut(ops, key);
        && put.Some? && Entry(key, put.value) in c.list
        && if !erasingExpired || put.value.expiration >= now then found == put && Entry(key, put.value) in list
           else found == None && forall e <- list :: e.key != key
  {
    var c := After(Empty(capacity), ops);
    var a, i := c.list, IndexOf(c.list, key);
    RunDistinct(Empty(capacity), ops);
    if e :| e in a && e.key == key {
      HoldsLastPut(capacity, ops, i);
      var put := LastPut(ops, key).value;
      forall e' ensures e' in Step(c, Get(key, erasingExpired, now)).list <==>
        e' in a && !(e'.key == key && erasingExpired && now > e'.value.expiration)
      {
        GetContents(c, key, erasingExpired, now, e');
      }
      assert a[i] == Entry(key, put);
    }
  }

  /** A `put`, and a `get` that finds an entry it may return, make the key the last one, that is, the most
      recently used. */
  lemma UsedIsLast<K, V>(c: Cache<K, V>, op: Op<K, V>, e: Entry<K, Stamped<V>>)
    requires DistinctKeys(c.list)
    requires op.Put? || (op.Get? && e in c.list && e.key == op.key && (!op.erasingExpired || op.now <= e.value.expiration))
    ensures var b := Step(c, op).list; b != [] && b[|b| - 1].key == op.key
    ensures op.Get? ==> Step(c, op).list[|Step(c, op).list| - 1] == e
  {
    if op.Get? {
      IndexOfEntry(c.list, e);
    }
  }

  // ---- Size ----

  function Limit(capacity: nat): nat {
    if capacity == 0 then 1 else capacity
  }

  /** Whether the operation puts a key that is not there. */
  predicate PutsAbsent<K(==), V>(c: Cache<K, V>, op: Op<K, V>) {
    op.Put? && !Has(c.list, op.key)
  }

  function AbsentPuts<K(==), V>(c: Cache<K, V>, ops: seq<Op<K, V>>): nat {
    if ops == [] then 0
    else AbsentPuts(c, Init(ops)) + (if PutsAbsent(After(c, Init(ops)), Last(ops)) then 1 else 0)
  }

  predicate KeepsCapacity<K, V>(ops: seq<Op<K, V>>) {
    forall i :: 0 <= i < |ops| ==> !ops[i].SetCapacity?
  }

  lemma SizeStep<K, V>(c: Cache<K, V>, op: Op<K, V>)
    requires !op.SetCapacity?
    ensures var c' := Step(c, op);
      && c'.capacity == c.capacity
      && (!PutsAbsent(c, op) ==> |c'.list| <= |c.list|)
      && (PutsAbsent(c, op) && |c.list| < c.capacity ==> |c'.list| == |c.list| + 1)
      && (PutsAbsent(c, op) && |c.list| >= c.capacity ==>
            |c'.list| == if |c.list| >= VACATE_BATCH then |c.list| - (VACATE_BATCH - 1) else 1)
  {
  }

  /** A map that is over its limit loses 15 entries with every new key, whatever else happens in between, and
      one that is within its limit stays within. */
  lemma {:induction false} SizeBound<K, V>(c: Cache<K, V>, ops: seq<Op<K, V>>)
    requires KeepsCapacity(ops)
    ensures var c' := After(c, ops); var limit := Limit(c.capacity);
      && c'.capacity == c.capacity
      && (|c'.list| <= limit || |c'.list| + (VACATE_BATCH - 1) * AbsentPuts(c, ops) <= |c.list|)
  {
    if ops != [] {
      SizeBound(c, Init(ops));
      SizeStep(After(c, Init(ops)), Last(ops));
    }
  }

  lemma StaysWithinLimit<K, V>(c: Cache<K, V>, ops: seq<Op<K, V>>)
    requires KeepsCapacity(ops) && |c.list| <= Limit(c.capacity)
    ensures |After(c, ops).list| <= Limit(c.capacity)
  {
    SizeBound(c, ops);
  }

  /** After the capacity was set to `n` with `s` entries stored, new keys bring the size back to the limit as
      soon as 15 times their number is at least the excess, that is, after `ceil((s - limit) / 15)` of them. */
  lemma LimitRestored<K, V>(c: Cache<K, V>, n: nat, ops: seq<Op<K, V>>)
    requires KeepsCapacity(ops)
    requires (VACATE_BATCH - 1) * AbsentPuts(Step(c, SetCapacity(n)), ops) >= |c.list| - Limit(n)
    ensures |After(Step(c, SetCapacity(n)), ops).list| <= Limit(n)
  {
    SizeBound(Step(c, SetCapacity(n)), ops);
  }

  // ---- Retention ----

  /** Entries of other keys only, and no `vacate` but the one inside `put`. */
  predicate LeavesAlone<K(==), V>(ops: seq<Op<K, V>>, k: K) {
    forall i :: 0 <= i < |ops| ==> (ops[i].Get? || ops[i].Put? || ops[i].Erase?) && ops[i].key != k
  }

  /** `e` is stored at index `p`, and all keys after it are among `newer`. */
  ghost predicate NewerAfter<K, V>(a: List<K, V>, p: nat, e: Entry<K, Stamped<V>>, newer: set<K>) {
    p < |a| && a[p] == e && forall j :: p < j < |a| ==> a[j].key in newer
  }

  /** If another key is absent, fewer entries than `newer` has keys, not counting that one, come after `e`. */
  lemma FewNewer<K, V>(a: List<K, V>, p: nat, e: Entry<K, Stamped<V>>, newer: set<K>, absent: K)
    requires DistinctKeys(a) && NewerAfter(a, p, e, newer) && !Has(a, absent)
    ensures |a| - 1 - p < |newer + {absent}|
  {
    var rest := a[p + 1..];
    KeysSize(rest);
    var others := (newer + {absent}) - {absent};
    forall k | k in Keys(rest) ensures k in others {
      var j :| 0 <= j < |rest| && rest[j].key == k;
      assert a[p + 1 + j].key == k;
    }
    SubsetSize(Keys(rest), others);
  }

  lemma SubsetSize<K>(s: set<K>, t: set<K>)
    requires s <= t
    ensures |s| <= |t|
  {
    assert t == s + (t - s);
  }

  lemma UseStep<K, V>(c: Cache<K, V>, op: Op<K, V>, p: nat, e: Entry<K, Stamped<V>>, newer: set<K>) returns (p': nat)
    requires DistinctKeys(c.list) && NewerAfter(c.list, p, e, newer)
    requires (op.Get? || op.Put? || op.Erase?) && op.key != e.key && Has(c.list, op.key)
    ensures NewerAfter(Step(c, op).list, p', e, newer + Touched(c, op))
  {
    p' := if IndexOf(c.list, op.key) < p then p - 1 else p;
  }

  lemma PutStep<K, V>(c: Cache<K, V>, op: Op<K, V>, p: nat, e: Entry<K, Stamped<V>>, newer: set<K>) returns (p': nat)
    requires DistinctKeys(c.list) && NewerAfter(c.list, p, e, newer)
    requires op.Put? && op.key != e.key && !Has(c.list, op.key)
    requires |newer + {op.key}| + VACATE_BATCH <= c.capacity
    ensures NewerAfter(Step(c, op).list, p', e, newer + {op.key})
  {
    FewNewer(c.list, p, e, newer, op.key);
    p' := if |c.list| >= c.capacity then p - VACATE_BATCH else p;
  }

  predicate LastIs<K(==), V>(a: List<K, V>, k: K) {
    a != [] && a[|a| - 1].key == k
  }

  /** Retention under batch eviction: after `k` was used, it stays stored, unchanged, through any gets, puts
      and erases of other keys that use at most `capacity - 16` distinct ones. */
  lemma {:induction false} Retained<K, V>(c: Cache<K, V>, ops: seq<Op<K, V>>, k: K) returns (p: nat)
    requires DistinctKeys(c.list) && LastIs(c.list, k) && LeavesAlone(ops, k)
    requires |AllTouched(c, ops)| + VACATE_BATCH <= c.capacity
    ensures NewerAfter(After(c, ops).list, p, c.list[|c.list| - 1], AllTouched(c, ops))
    ensures After(c, ops).capacity == c.capacity
  {
    hide NewerAfter;
    if ops == [] {
      p := |c.list| - 1;
      NothingAfter(c.list);
    } else {
      var b, op, e := After(c, Init(ops)), Last(ops), c.list[|c.list| - 1];
      SubsetSize(AllTouched(c, Init(ops)), AllTouched(c, ops));
      p := Retained(c, Init(ops), k);
      RunDistinct(c, Init(ops));
      if Has(b.list, op.key) {
        p := UseStep(b, op, p, e, AllTouched(c, Init(ops)));
      } else if op.Put? {
        p := PutStep(b, op, p, e, AllTouched(c, Init(ops)));
      } else {
        assert Touched(b, op) == {};
        assert AllTouched(c, ops) == AllTouched(c, Init(ops));
      }
    }
  }

  lemma NothingAfter<K, V>(a: List<K, V>)
    requires a != []
    ensures NewerAfter(a, |a| - 1, a[|a| - 1], {})
  {
  }

  // ---- The retention bound is tight ----

  function Numbered(n: nat): (a: List<int, int>)
    ensures |a| == n
    ensures forall i :: 0 <= i < n ==> a[i] == Entry(i, Stamped(0, 0))
  {
    seq(n, i => Entry(i, Stamped(0, 0)))
  }

  function Puts(n: nat): (ops: seq<Op<int, int>>)
    ensures |ops| == n
    ensures forall i :: 0 <= i < n ==> ops[i] == Put(VACATE_BATCH + i, 0, 0, 0)
  {
    seq(n, i => Put(VACATE_BATCH + i, 0, 0, 0))
  }

  lemma {:induction false} NumberedHas(n: nat, k: int)
    ensures Has(Numbered(n), k) <==> 0 <= k < n
  {
    if 0 <= k < n {
      assert DistinctKeys(Numbered(n));
      IndexOfAt(Numbered(n), k);
    }
  }

  function Range(from: int, n: nat): (s: set<int>)
    ensures forall k :: k in s <==> from <= k < from + n
    ensures |s| == n
  {
    if n == 0 then {} else Range(from, n - 1) + {from + n - 1}
  }

  lemma PutAppends(capacity: nat, n: nat)
    requires n < capacity
    ensures Step(Cache(capacity, Numbered(n)), Put(n, 0, 0, 0)) == Cache(capacity, Numbered(n + 1))
  {
    NumberedHas(n, n);
    hide Has, IndexOf;
    assert Numbered(n) + [Entry(n, Stamped(0, 0))] == Numbered(n + 1);
  }

  /** As long as there is room, new keys are just appended. */
  lemma {:induction false} FillUp(capacity: nat, n: nat)
    requires VACATE_BATCH + n <= capacity
    ensures After(Cache(capacity, Numbered(VACATE_BATCH)), Puts(n)) == Cache(capacity, Numbered(VACATE_BATCH + n))
    ensures AllTouched(Cache(capacity, Numbered(VACATE_BATCH)), Puts(n)) == Range(VACATE_BATCH, n)
  {
    if n > 0 {
      PutsSnoc(n - 1);
      FillUp(capacity, n - 1);
      TouchedSnoc(Cache(capacity, Numbered(VACATE_BATCH)), n - 1);
      hide Has, Step, Numbered, Puts, Range;
      PutAppends(capacity, VACATE_BATCH + n - 1);
    }
  }

  lemma PutsSnoc(n: nat)
    ensures Init(Puts(n + 1)) == Puts(n) && Last(Puts(n + 1)) == Put(VACATE_BATCH + n, 0, 0, 0)
  {
  }

  lemma TouchedSnoc(c: Cache<int, int>, n: nat)
    requires AllTouched(c, Puts(n)) == Range(VACATE_BATCH, n)
    ensures AllTouched(c, Puts(n + 1)) == Range(VACATE_BATCH, n + 1)
  {
    hide After, Has, Hit, Step;
    PutsSnoc(n);
  }

  /** A new key put into a full map drops the 16 oldest entries. */
  lemma EvictsBatch(capacity: nat, k: nat)
    requires capacity >= VACATE_BATCH && k < VACATE_BATCH
    ensures !Has(Step(Cache(capacity, Numbered(capacity)), Put(capacity, 0, 0, 0)).list, k)
  {
    NumberedHas(capacity, capacity);
    var b := Step(Cache(capacity, Numbered(capacity)), Put(capacity, 0, 0, 0)).list;
    assert b == Numbered(capacity)[VACATE_BATCH..] + [Entry(capacity, Stamped(0, 0))];
    assert forall i :: 0 <= i < |b| ==> b[i].key != k;
  }

  lemma OneMorePut(capacity: nat, n: nat)
    requires VACATE_BATCH + n == capacity
    ensures After(Cache(capacity, Numbered(VACATE_BATCH)), Puts(n + 1))
         == Step(Cache(capacity, Numbered(capacity)), Put(capacity, 0, 0, 0))
  {
    FillUp(capacity, n);
    PutsSnoc(n);
    hide Step, Numbered, Puts, AllTouched, Range;
  }

  lemma TouchedByPuts(capacity: nat, n: nat)
    requires VACATE_BATCH + n == capacity
    ensures |AllTouched(Cache(capacity, Numbered(VACATE_BATCH)), Puts(n + 1))| == n + 1
  {
    FillUp(capacity, n);
    TouchedSnoc(Cache(capacity, Numbered(VACATE_BATCH)), n);
    hide After, AllTouched, Numbered, Puts;
  }

  lemma TightStart(n: nat)
    ensures var a := Numbered(VACATE_BATCH); var k := VACATE_BATCH - 1;
      DistinctKeys(a) && LastIs(a, k) && LeavesAlone(Puts(n), k)
  {
  }

  /** For every capacity that holds a batch, the bound is tight: `capacity - 15` distinct new keys, one more
      than `Retained` allows, can evict the key that was just used. */
  lemma RetentionIsTight(capacity: nat) returns (c: Cache<int, int>, ops: seq<Op<int, int>>, k: int)
    requires capacity >= VACATE_BATCH
    ensures c.capacity == capacity && DistinctKeys(c.list) && LastIs(c.list, k) && LeavesAlone(ops, k)
    ensures |AllTouched(c, ops)| == capacity - (VACATE_BATCH - 1)
    ensures !Has(After(c, ops).list, k)
  {
    var n := capacity - VACATE_BATCH;
    c, ops, k := Cache(capacity, Numbered(VACATE_BATCH)), Puts(n + 1), VACATE_BATCH - 1;
    TightStart(n + 1);
    hide DistinctKeys, LastIs, LeavesAlone, AllTouched, After, Has, IndexOf, Step, Numbered, Puts, Range;
    TouchedByPuts(capacity, n);
    OneMorePut(capacity, n);
    EvictsBatch(capacity, VACATE_BATCH - 1);
  }
}
