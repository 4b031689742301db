/** `ObjectPoolAllocator` of objectpool/objectpool.h as an object. `locked` is whether the mutex was acquired,
    and `memory` what the allocator returns if it is called. */
module ChunkPool {
  import opened Basics
  import opened ChunkPoolModel

  class ObjectPoolAllocator {
    var objects: seq<int>
    var chunks: seq<Chunk>
    var currNum: nat
    var maxNum: nat
    var incNum: nat
    ghost var out: set<int>  // objects created and not destroyed

    ghost function State(): Pool
      reads this
    {
      Pool(ChunkPoolModel.State(objects, chunks, currNum, maxNum, incNum), out)
    }

    constructor (initNum: nat, maxNum: nat, incNum: nat, memory: Option<int>)
      ensures State() == Pool(Constructed(initNum, maxNum, incNum, memory), {})
    {
      objects, chunks, currNum, this.maxNum, this.incNum := [], [], 0, maxNum, incNum;
      out := {};
      if maxNum < initNum {
        this.maxNum := initNum;
        this.incNum := 0;
      }
      new;
      var failed := IncreaseObjects(initNum, memory);
    }

    method SetMaxNum(n: nat)
      modifies `maxNum
      ensures State() == Apply(old(State()), Op.SetMaxNum(n))
    {
      if currNum >= n {
        maxNum := currNum;
      } else {
        maxNum := n;
      }
    }

    method SetIncNum(n: nat)
      modifies `incNum
      ensures State() == Apply(old(State()), Op.SetIncNum(n))
    {
      incNum := n;
    }

    /** `IncreaseObjects`: constructs the objects of one more chunk, one after another. */
    method IncreaseObjects(inc: nat, memory: Option<int>) returns (failed: bool)
      modifies this
      ensures State() == old(State()).(s := Grown(old(State()).s, inc, memory))
      ensures failed <==> !CanGrow(old(State()).s, memory)
    {
      if currNum >= maxNum {
        return true;
      }
      var count := inc;
      if currNum + count > maxNum {
        count := maxNum - currNum;
      }
      if memory.None? {
        return true;
      }
      ghost var before := objects;
      var i := 0;
      while i < count
        invariant i <= count
        invariant objects == before + Range(memory.value, i)
        invariant State() == old(State()).(s := old(State()).s.(free := objects))
      {
        objects := objects + [memory.value + i];
        i := i + 1;
      }
      chunks := chunks + [Chunk(memory.value, count)];
      currNum := currNum + count;
      failed := false;
    }

    method Create(locked: bool, memory: Option<int>) returns (created: Option<int>)
      requires !Result(State().s, Op.Create(locked, memory)).FrontOfEmpty?
      modifies this
      ensures State() == Apply(old(State()), Op.Create(locked, memory))
      ensures created == match Result(old(State()).s, Op.Create(locked, memory))
        case Object(address) => Some(address)
        case _ => None
    {
      if !locked {
        return None;
      }
      if objects == [] {
        var failed := IncreaseObjects(incNum, memory);
        if failed {
          return None;
        }
      }
      created := Some(objects[0]);
      out := out + {objects[0]};
      objects := objects[1..];
    }

    method Destroy(locked: bool, address: Option<int>)
      modifies this
      ensures State() == Apply(old(State()), Op.Destroy(locked, address))
    {
      if !locked {
        return;
      }
      if address.Some? {
        objects := [address.value] + objects;
        out := out - {address.value};
      }
    }
  }
}
