/** `ObjectMemPool` of objectpool2/object_pool.cpp: the free slots lie in a circular array between two indices
    that both belong to the window. */
module RingPool {
  import opened Basics
  import opened RingPoolModel

  /** The slots from `start` around to `end`, both included. */
  function Around(ring: seq<nat>, start: nat, end: nat): seq<nat>
    requires start < |ring| && end < |ring|
  {
    if start <= end then ring[start..end + 1] else ring[start..] + ring[..end + 1]
  }

  lemma TakeFront(ring: seq<nat>, start: nat, end: nat)
    requires start < |ring| && end < |ring| && start != end
    ensures var next := (start + 1) % |ring|;
      Around(ring, start, end) == [ring[start]] + Around(ring, next, end)
  {
    StepAround(start, |ring|);
  }

  lemma PutBack(ring: seq<nat>, start: nat, end: nat, slot: nat)
    requires start < |ring| && end < |ring| && |Around(ring, start, end)| < |ring|
    ensures var next := (end + 1) % |ring|;
      Around(ring[next := slot], start, next) == Around(ring, start, end) + [slot]
  {
    StepAround(end, |ring|);
  }

  class ObjectMemPool {
    const poolSize: nat
    const ringBuffer: array<nat>
    var ringStart: nat
    var ringEnd: nat
    var allocateCounter: nat
    var objectCounter: nat
    ghost var live: set<nat>  // slots handed out and not released

    ghost predicate Valid()
      reads this, ringBuffer
    {
      ringBuffer.Length == poolSize && ringStart < poolSize && ringEnd < poolSize
    }

    /** The free slots, in the order in which they are handed out. */
    ghost function Window(): seq<nat>
      requires Valid()
      reads this, ringBuffer
    {
      Around(ringBuffer[..], ringStart, ringEnd)
    }

    ghost function State(): Pool
      requires Valid()
      reads this, ringBuffer
    {
      Pool(Window(), live)
    }

    constructor (size: nat)
      requires size >= 1
      ensures Valid() && fresh(ringBuffer) && poolSize == size
      ensures State() == Initial(size) && allocateCounter == objectCounter == 0
    {
      poolSize := size;
      ringBuffer := new nat[size](_ => 0);
      ringStart, ringEnd := 0, size - 1;
      allocateCounter, objectCounter := 0, 0;
      live := {};
      new;
      for i := 0 to size
        modifies ringBuffer
        invariant forall k :: 0 <= k < i ==> ringBuffer[k] == k
      {
        ringBuffer[i] := i;
      }
      assert Window() == Initial(size).free;
    }

    /** Returns the slot the object is built in, or nothing if it is built on the heap. */
    method Get() returns (slot: Option<nat>)
      requires Valid()
      modifies this
      ensures Valid() && State() == Apply(old(State()), RingPoolModel.Get)
      ensures slot == if Pooled(old(State())) then Some(old(State()).free[0]) else None
      ensures slot.Some? <==> |old(Window())| >= 2
      ensures objectCounter == old(objectCounter) + 1
      ensures allocateCounter == old(allocateCounter) + (if slot.None? then 1 else 0)
    {
      if ringStart == ringEnd {
        allocateCounter := allocateCounter + 1;
        objectCounter := objectCounter + 1;
        slot := None;
      } else {
        var index := ringBuffer[ringStart];
        TakeFront(ringBuffer[..], ringStart, ringEnd);
        StepAround(ringStart, poolSize);
        hide Around;
        ringStart := (ringStart + 1) % poolSize;
        objectCounter := objectCounter + 1;
        live := live + {index};
        slot := Some(index);
      }
    }

    /** The deleter of a pooled object. */
    method Release(index: nat)
      requires Valid() && |Window()| < poolSize
      modifies this, ringBuffer
      ensures Valid() && State() == Apply(old(State()), RingPoolModel.Release(index))
      ensures allocateCounter == old(allocateCounter) && objectCounter == old(objectCounter)
    {
      hide Around;
      PutBack(ringBuffer[..], ringStart, ringEnd, index);
      StepAround(ringEnd, poolSize);
      ringEnd := (ringEnd + 1) % poolSize;
      ringBuffer[ringEnd] := index;
      assert ringBuffer[..] == old(ringBuffer[..])[ringEnd := index];
      live := live - {index};
    }
  }

  lemma StepAround(i: nat, size: nat)
    requires i < size
    ensures (i + 1) % size == if i + 1 == size then 0 else i + 1
  {
  }

  /** The room `Release` needs is always there for a live slot. */
  lemma RoomForLiveSlot(p: Pool, slot: nat, size: nat)
    requires Inv(p, size) && slot in p.live
    ensures |p.free| < size
  {
    PartitionSize(p, size);
  }
}
