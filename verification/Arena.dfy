/** `Arena` of statusandslice/arena.h and arena.cpp as an object, against the functions of `ArenaModel`. The
    argument `base` of a call is the address `new char[]` returns if it is called. */
module ArenaObject {
  import opened ArenaModel

  class Arena {
    var allocPtr: int
    var allocBytesRemaining: nat
    var blocks: seq<Block>
    var memoryUsage: nat

    ghost function State(): State
      reads this
    {
      ArenaModel.State(allocPtr, allocBytesRemaining, blocks, memoryUsage)
    }

    constructor ()
      ensures State() == EMPTY
    {
      allocPtr, allocBytesRemaining, blocks, memoryUsage := 0, 0, [], 0;
    }

    method Allocate(bytes: nat, base: int) returns (result: int)
      requires bytes > 0
      modifies this
      ensures result == Result(old(State()), Call.Allocate(bytes, base))
      ensures State() == Next(old(State()), Call.Allocate(bytes, base))
      ensures bytes <= old(allocBytesRemaining) ==>
        && result == old(allocPtr) && allocPtr == result + bytes
        && allocBytesRemaining == old(allocBytesRemaining) - bytes
        && blocks == old(blocks) && memoryUsage == old(memoryUsage)
      ensures bytes > old(allocBytesRemaining) ==> result == base && |blocks| == |old(blocks)| + 1
    {
      if bytes <= allocBytesRemaining {
        result := allocPtr;
        allocPtr := allocPtr + bytes;
        allocBytesRemaining := allocBytesRemaining - bytes;
        return;
      }
      result := AllocateFallback(Call.Allocate(bytes, base));
    }

    /** The final assertion of the source holds for every address the allocator may return. */
    method AllocateAligned(bytes: nat, base: int) returns (result: int)
      requires Admissible(State(), Call.AllocateAligned(bytes, base))
      modifies this
      ensures result == Result(old(State()), Call.AllocateAligned(bytes, base))
      ensures State() == Next(old(State()), Call.AllocateAligned(bytes, base))
      ensures result % ALIGN == 0
      ensures forall gap: nat :: Gap(old(allocPtr), Call.AllocateAligned(bytes, base), gap) ==>
        if bytes + gap <= old(allocBytesRemaining) then
          && result == old(allocPtr) + gap && allocPtr == result + bytes
          && allocBytesRemaining == old(allocBytesRemaining) - (gap + bytes)
          && blocks == old(blocks) && memoryUsage == old(memoryUsage)
        else result == base && |blocks| == |old(blocks)| + 1
    {
      var currentMod := allocPtr % ALIGN;
      var slop := if currentMod == 0 then 0 else ALIGN - currentMod;
      var needed := bytes + slop;
      if needed <= allocBytesRemaining {
        result := allocPtr + slop;
        allocPtr := allocPtr + needed;
        allocBytesRemaining := allocBytesRemaining - needed;
      } else {
        result := AllocateFallback(Call.AllocateAligned(bytes, base));
      }
      assert result % ALIGN == 0;
    }

    method AllocateFallback(call: Call) returns (result: int)
      requires !Fits(State(), call)
      modifies this
      ensures result == Result(old(State()), call) && State() == Next(old(State()), call)
    {
      if call.bytes > BLOCK_SIZE / 4 {
        result := AllocateNewBlock(call.bytes, call.base);
        return;
      }
      allocPtr := AllocateNewBlock(BLOCK_SIZE, call.base);
      allocBytesRemaining := BLOCK_SIZE;
      result := allocPtr;
      allocPtr := allocPtr + call.bytes;
      allocBytesRemaining := allocBytesRemaining - call.bytes;
    }

    method AllocateNewBlock(blockBytes: nat, base: int) returns (result: int)
      modifies `blocks, `memoryUsage
      ensures result == base && State() == NewBlock(old(State()), blockBytes, base)
    {
      result := base;
      blocks := blocks + [Block(result, blockBytes)];
      memoryUsage := memoryUsage + (blockBytes + POINTER_SIZE);
    }

    method MemoryUsage() returns (usage: nat)
      ensures usage == State().usage
    {
      usage := memoryUsage;
    }
  }
}
