/** `CReadPipe`, Pipe/PipeClient/ReadPipe.cpp: frames reassembled in a fixed cache from the chunks that
    `ReadFile` happens to return. */
module PipeReader {
  import opened ChannelUtils
  import opened Framing
  import opened Reassembly
  import Memory

  const CACHE_SIZE: nat := 4096

  /** The number of reads before the pipe is found closed: the first that returned nothing ends the loop. */
  function ClosedAt(results: seq<seq<byte>>): (n: nat)
    ensures n <= |results|
    ensures forall k :: 0 <= k < n ==> results[k] != []
    ensures n < |results| ==> results[n] == []
  {
    if results == [] || results[0] == [] then 0 else 1 + ClosedAt(results[1..])
  }

  /** What the read loop takes in. */
  function Received(results: seq<seq<byte>>): seq<seq<byte>> {
    results[..ClosedAt(results)]
  }

  lemma FedNothing()
    ensures FeedAll(START, []) == START
  {
  }

  /** What the read loop needs to know when it hands `results[i]` to `HandleData`. */
  lemma NextReadIsSafe(ms: seq<Message>, results: seq<seq<byte>>, i: nat, maxFrame: nat, maxChunk: nat)
    requires AllSendable(ms) && FramesFit(ms, maxFrame) && maxFrame >= 1
    requires maxFrame - 1 + maxChunk <= CACHE_SIZE
    requires i < ClosedAt(results) && |results[i]| <= maxChunk
    requires Concat(Received(results)) <= Stream(ms)
    ensures var u := FeedAll(START, results[..i]); var v := Unpack(u.rest + results[i]);
      && |u.rest + results[i]| <= CACHE_SIZE
      && Sane(u.rest + results[i])
      && FeedAll(START, results[..i + 1]) == Unpacked(u.messages + v.messages, v.rest)
  {
    hide Unpack, Sane, Frame, Stream, ClosedAt;
    var n := ClosedAt(results);
    assert results[..n] == results[..i + 1] + results[i + 1..n];
    ConcatAppend(results[..i + 1], results[i + 1..n]);
    assert results[..i + 1][..i] == results[..i];
    CacheNeverOverrun(ms, results[..i + 1], maxFrame, maxChunk, CACHE_SIZE);
  }

  /** `ReadFile` returning `chunk`. */
  method ReadFile(bufferRead: array<byte>, chunk: seq<byte>)
    requires |chunk| <= bufferRead.Length
    modifies bufferRead
    ensures bufferRead[..|chunk|] == chunk
  {
    forall i | 0 <= i < |chunk| {
      bufferRead[i] := chunk[i];
    }
  }

  class ReadPipe {
    const bufferCache: array<byte>
    var cacheDataSize: nat
    var hasCallback: bool
    var delivered: seq<Message>  // the arguments of the callback's calls, in order

    ghost predicate Valid()
      reads this
    {
      bufferCache.Length == CACHE_SIZE && cacheDataSize <= CACHE_SIZE
    }

    ghost function Cached(): seq<byte>
      reads this, bufferCache
      requires Valid()
    {
      bufferCache[..cacheDataSize]
    }

    constructor ()
      ensures Valid() && fresh(bufferCache) && Cached() == [] && !hasCallback && delivered == []
    {
      bufferCache := new byte[CACHE_SIZE](_ => 0);
      cacheDataSize := 0;
      hasCallback := false;
      delivered := [];
    }

    method SetReadCallback()
      modifies `hasCallback
      ensures hasCallback
    {
      hasCallback := true;
    }

    /** The copying half of the loop body, lines 102 to 120: one package leaves the front of the cache and
        the rest moves down, through two scratch buffers. */
    method TakePackage(dataSize: nat) returns (package: Message)
      requires Valid() && HEADER_SIZE + dataSize <= cacheDataSize
      modifies `cacheDataSize, bufferCache
      ensures Valid() && cacheDataSize == old(cacheDataSize) - (HEADER_SIZE + dataSize)
      ensures package == old(Cached())[HEADER_SIZE..HEADER_SIZE + dataSize]
      ensures Cached() == old(Cached())[HEADER_SIZE + dataSize..]
    {
      ghost var before := Cached();
      var shift := HEADER_SIZE + dataSize;
      var onePackage := new byte[CACHE_SIZE](_ => 0);
      Memory.Copy(onePackage, 0, bufferCache, HEADER_SIZE, dataSize);
      package := onePackage[..dataSize];
      assert package == before[HEADER_SIZE..shift];
      cacheDataSize := cacheDataSize - shift;
      var remainingData := new byte[CACHE_SIZE](_ => 0);
      Memory.Copy(remainingData, 0, bufferCache, shift, cacheDataSize);
      assert remainingData[..cacheDataSize] == before[shift..];
      Memory.Fill(bufferCache, 0);
      Memory.Copy(bufferCache, 0, remainingData, 0, cacheDataSize);
      assert remainingData[0..cacheDataSize] == remainingData[..cacheDataSize];
    }

    /** The length the header at the front of the cache announces. */
    method FrontSize() returns (dataSize: int)
      requires Valid() && cacheDataSize >= HEADER_SIZE && Sane(Cached())
      ensures 0 <= dataSize == PayloadSize(Cached()) <= MAX_INT - HEADER_SIZE
    {
      hide BytesToInt, Signed, Sane;
      SaneHeader(Cached());
      HeaderOnly(bufferCache[..], Cached()) by {
        assert bufferCache[..][..HEADER_SIZE] == Cached()[..HEADER_SIZE];
      }
      dataSize := Signed(BytesToInt(bufferCache[..], 0));
    }

    /** One round of the loop: delivers the frame in front, if there is a whole one. */
    method HandleFront() returns (more: bool, ghost package: Message)
      requires Valid() && Sane(Cached())
      modifies `cacheDataSize, `delivered, bufferCache
      ensures Valid() && Sane(Cached())
      ensures more ==>
        && cacheDataSize < old(cacheDataSize)
        && Unpack(old(Cached())) == Unpacked([package] + Unpack(Cached()).messages, Unpack(Cached()).rest)
        && delivered == old(delivered) + (if hasCallback then [package] else [])
      ensures !more ==>
        && Unpack(Cached()) == Unpacked([], Cached())
        && Cached() == old(Cached()) && delivered == old(delivered)
    {
      hide PayloadSize, Unpack, Sane;
      more, package := false, [];
      if cacheDataSize < HEADER_SIZE {
        UnpackDone(Cached());
        return;
      }
      var dataSize := FrontSize();
      if cacheDataSize < HEADER_SIZE + dataSize {
        UnpackDone(Cached());
        return;
      }
      UnpackStep(Cached());
      var onePackage := TakePackage(dataSize);
      if hasCallback {
        delivered := delivered + [onePackage];
      }
      more, package := true, onePackage;
    }

    /** Takes in one chunk: afterwards every whole frame has been delivered and the cache holds exactly the
        bytes left over. The source checks no bound, so the chunk has to fit behind what is cached. */
    method HandleData(data: array<byte>, len: nat)
      requires Valid() && data != bufferCache && len <= data.Length
      requires cacheDataSize + len <= CACHE_SIZE
      requires Sane(Cached() + data[..len])
      modifies `cacheDataSize, `delivered, bufferCache
      ensures Valid()
      ensures Cached() == Unpack(old(Cached()) + data[..len]).rest
      ensures delivered == old(delivered)
        + (if hasCallback then Unpack(old(Cached()) + data[..len]).messages else [])
    {
      hide Unpack, Sane;
      ghost var input := Cached() + data[..len];
      Memory.Copy(bufferCache, cacheDataSize, data, 0, len);
      cacheDataSize := cacheDataSize + len;
      assert Cached() == input;
      ghost var out: seq<Message> := [];
      var more := true;
      while more
        invariant Valid() && Sane(Cached())
        invariant delivered == old(delivered) + (if hasCallback then out else [])
        invariant Unpack(input) == Unpacked(out + Unpack(Cached()).messages, Unpack(Cached()).rest)
        invariant !more ==> Unpack(Cached()) == Unpacked([], Cached())
        decreases cacheDataSize, more
      {
        ghost var package;
        more, package := HandleFront();
        if more {
          assert out + ([package] + Unpack(Cached()).messages) == out + [package] + Unpack(Cached()).messages;
          out := out + [package];
        }
      }
      assert out + [] == out;
    }

    /** The loop of `ReadPipeThread`. Each element of `results` is what one `ReadFile` call returned; nothing
        read means the pipe is closed. If the frames and the read buffer fit the cache together, the loop
        meets every precondition of `HandleData`, and what was read comes out as messages. */
    method ReadPipeThread(bufferRead: array<byte>, results: seq<seq<byte>>, ghost ms: seq<Message>, ghost maxFrame: nat)
      requires Valid() && Cached() == [] && delivered == []
      requires bufferRead != bufferCache && forall chunk <- results :: |chunk| <= bufferRead.Length
      requires AllSendable(ms) && FramesFit(ms, maxFrame) && maxFrame >= 1
      requires maxFrame - 1 + bufferRead.Length <= CACHE_SIZE
      requires Concat(Received(results)) <= Stream(ms)
      modifies `cacheDataSize, `delivered, bufferCache, bufferRead
      ensures Valid()
      ensures Cached() == FeedAll(START, Received(results)).rest && |Cached()| < maxFrame
      ensures hasCallback ==> delivered == FeedAll(START, Received(results)).messages && delivered <= ms
      ensures !hasCallback ==> delivered == []
      ensures Concat(Received(results)) == Stream(ms) ==> Cached() == [] && (hasCallback ==> delivered == ms)
    {
      hide Unpack, Sane, Stream, FeedAll, Concat, AllSendable, FramesFit, ClosedAt;
      var i := 0;
      assert results[..0] == [];
      FedNothing();
      while i < |results|
        invariant Valid() && i <= ClosedAt(results)
        invariant Cached() == FeedAll(START, results[..i]).rest
        invariant delivered == if hasCallback then FeedAll(START, results[..i]).messages else []
      {
        Memory.Fill(bufferRead, 0);
        var dwLenRead := |results[i]|;
        if dwLenRead == 0 {
          break;
        }
        ReadFile(bufferRead, results[i]);
        NextReadIsSafe(ms, results, i, maxFrame, bufferRead.Length);
        assert bufferRead[..dwLenRead] == results[i];
        HandleData(bufferRead, dwLenRead);
        i := i + 1;
      }
      assert Received(results) == results[..i];
      ResidueBound(ms, results[..i], maxFrame);
      Reassembled(ms, results[..i]);
    }
  }
}
