/** What the pipe's two ends achieve together: however the writer's byte stream is cut into chunks, the
    reader delivers the written messages, and its fixed cache is never overrun. */
module Reassembly {
  import opened ChannelUtils
  import opened Framing

  /** One `HandleData` call, as a function of what was delivered and cached before it. */
  function Feed(u: Unpacked, chunk: seq<byte>): Unpacked {
    var v := Unpack(u.rest + chunk);
    Unpacked(u.messages + v.messages, v.rest)
  }

  function FeedAll(u: Unpacked, chunks: seq<seq<byte>>): Unpacked
    decreases |chunks|
  {
    if chunks == [] then u else Feed(FeedAll(u, chunks[..|chunks| - 1]), chunks[|chunks| - 1])
  }

  const START: Unpacked := Unpacked([], [])

  lemma {:induction false} ConcatAppend(a: seq<seq<byte>>, b: seq<seq<byte>>)
    ensures Concat(a + b) == Concat(a) + Concat(b)
  {
    if a == [] {
      assert a + b == b;
    } else {
      ConcatAppend(a[1..], b);
      assert (a + b)[0] == a[0] && (a + b)[1..] == a[1..] + b;
      Associative(a[0], Concat(a[1..]), Concat(b));
    }
  }

  lemma Associative(a: seq<byte>, b: seq<byte>, c: seq<byte>)
    ensures a + (b + c) == (a + b) + c
  {
  }

  lemma ConcatSnoc(chunks: seq<seq<byte>>, last: seq<byte>)
    ensures Concat(chunks + [last]) == Concat(chunks) + last
  {
    ConcatAppend(chunks, [last]);
    assert Concat([last]) == last + Concat([]) == last;
  }

  /** The outcome depends on the bytes that arrived, not on how they were cut. */
  lemma {:induction false} ChunkingIsIrrelevant(chunks: seq<seq<byte>>)
    requires Sane(Concat(chunks))
    ensures FeedAll(START, chunks) == Unpack(Concat(chunks))
    ensures chunks != [] ==> Sane(FeedAll(START, chunks[..|chunks| - 1]).rest + chunks[|chunks| - 1])
    decreases |chunks|
  {
    hide Unpack, Sane;
    if chunks == [] {
      UnpackNothing();
    } else {
      var init, last := chunks[..|chunks| - 1], chunks[|chunks| - 1];
      assert chunks == init + [last];
      ConcatSnoc(init, last);
      SaneAppend(Concat(init), last);
      ChunkingIsIrrelevant(init);
      UnpackAppend(Concat(init), last);
    }
  }

  predicate FramesFit(ms: seq<Message>, maxFrame: nat) {
    forall m <- ms :: HEADER_SIZE + |m| <= maxFrame
  }

  /** The main theorem, at any moment of any run: the chunks that arrived so far are some prefix of the
      writer's stream. Delivered are exactly the messages whose frames are complete, in order, and the cache
      holds exactly the bytes that follow them. */
  lemma Reassembled(ms: seq<Message>, chunks: seq<seq<byte>>)
    requires AllSendable(ms) && Concat(chunks) <= Stream(ms)
    ensures var u := FeedAll(START, chunks);
      && u.messages <= ms
      && Stream(u.messages) + u.rest == Concat(chunks)
      && (forall j: nat | j <= |ms| :: j <= |u.messages| <==> |Stream(ms[..j])| <= |Concat(chunks)|)
      && (Concat(chunks) == Stream(ms) ==> u == Unpacked(ms, []))
  {
    hide Unpack, Sane, Frame;
    var n := |Concat(chunks)|;
    assert Concat(chunks) == Stream(ms)[..n];
    UnpackStreamPrefix(ms, n);
    ChunkingIsIrrelevant(chunks);
    forall j: nat | j <= |ms|
      ensures j <= |FeedAll(START, chunks).messages| <==> |Stream(ms[..j])| <= n
    {
      ExactlyTheCompleteFrames(ms, n, j);
    }
    if n == |Stream(ms)| {
      assert ms[..|ms|] == ms;
      ExactlyTheCompleteFrames(ms, n, |ms|);
    }
  }

  /** If no frame is longer than `maxFrame` and no chunk longer than `maxChunk`, less than one frame stays
      cached between calls, and the next chunk always fits behind it. */
  lemma CacheNeverOverrun(ms: seq<Message>, chunks: seq<seq<byte>>, maxFrame: nat, maxChunk: nat, cacheSize: nat)
    requires AllSendable(ms) && FramesFit(ms, maxFrame) && maxFrame >= 1
    requires chunks != [] && Concat(chunks) <= Stream(ms)
    requires |chunks[|chunks| - 1]| <= maxChunk
    requires maxFrame - 1 + maxChunk <= cacheSize
    ensures var cached := FeedAll(START, chunks[..|chunks| - 1]).rest;
      && |cached| <= maxFrame - 1
      && |cached + chunks[|chunks| - 1]| <= cacheSize
      && Sane(cached + chunks[|chunks| - 1])
  {
    hide Unpack, Sane, Frame;
    var init, last := chunks[..|chunks| - 1], chunks[|chunks| - 1];
    assert chunks == init + [last];
    ConcatSnoc(init, last);
    ResidueBound(ms, init, maxFrame);
    UnpackStreamPrefix(ms, |Concat(chunks)|);
    assert Concat(chunks) == Stream(ms)[..|Concat(chunks)|];
    ChunkingIsIrrelevant(chunks);
  }

  lemma ResidueBound(ms: seq<Message>, chunks: seq<seq<byte>>, maxFrame: nat)
    requires AllSendable(ms) && FramesFit(ms, maxFrame) && maxFrame >= 1
    requires Concat(chunks) <= Stream(ms)
    ensures |FeedAll(START, chunks).rest| <= maxFrame - 1
  {
    hide Unpack, Sane, Frame;
    var n := |Concat(chunks)|;
    assert Concat(chunks) == Stream(ms)[..n];
    UnpackStreamPrefix(ms, n);
    ChunkingIsIrrelevant(chunks);
    var u := FeedAll(START, chunks);
    if u.messages != ms {
      var m := ms[|u.messages|];
      FrameDecodes(m, []);
    }
  }

  // ---- The bound is exact ----

  function Singles(s: seq<byte>): seq<seq<byte>> {
    if s == [] then [] else [[s[0]]] + Singles(s[1..])
  }

  lemma {:induction false} SinglesConcat(s: seq<byte>)
    ensures Concat(Singles(s)) == s
    ensures forall chunk <- Singles(s) :: |chunk| == 1
  {
    if s != [] {
      SinglesConcat(s[1..]);
      assert s == [s[0]] + s[1..];
    }
  }

  function Repeat(m: Message, k: nat): (ms: seq<Message>)
    requires Sendable(m)
    ensures AllSendable(ms) && |ms| == k && forall x <- ms :: x == m
  {
    if k == 0 then [] else [m] + Repeat(m, k - 1)
  }

  lemma {:induction false} RepeatStream(m: Message, k: nat)
    requires Sendable(m)
    ensures |Stream(Repeat(m, k))| >= k
  {
    hide Frame;
    if k > 0 {
      RepeatStream(m, k - 1);
      FrameDecodes(m, []);
    }
  }

  lemma LongStream(m: Message, k: nat)
    requires Sendable(m)
    ensures var ms := [m] + Repeat(m, k);
      && AllSendable(ms) && FramesFit(ms, HEADER_SIZE + |m|)
      && Frame(m) <= Stream(ms) && |Stream(ms)| >= HEADER_SIZE + |m| + k
  {
    hide Frame;
    var ms := [m] + Repeat(m, k);
    RepeatStream(m, k);
    FrameDecodes(m, []);
    assert ms[1..] == Repeat(m, k);
  }

  lemma ByteByByteThenChunk(stream: seq<byte>, n: nat, k: nat)
    requires n + k <= |stream|
    ensures Concat(Singles(stream[..n])) == stream[..n]
    ensures Concat(Singles(stream[..n]) + [stream[n..n + k]]) == stream[..n + k]
  {
    SinglesConcat(stream[..n]);
    ConcatSnoc(Singles(stream[..n]), stream[n..n + k]);
    assert stream[..n] + stream[n..n + k] == stream[..n + k];
  }

  /** With frames and chunks any larger, some run overruns the cache: all bytes of a longest frame but the
      last arrive one by one, and then a longest chunk. */
  lemma CacheBoundIsExact(maxFrame: nat, maxChunk: nat, cacheSize: nat)
      returns (ms: seq<Message>, chunks: seq<seq<byte>>, last: seq<byte>)
    requires HEADER_SIZE <= maxFrame <= MAX_INT && maxChunk >= 1
    requires maxFrame - 1 + maxChunk > cacheSize
    ensures AllSendable(ms) && FramesFit(ms, maxFrame) && Concat(chunks + [last]) <= Stream(ms)
    ensures |last| == maxChunk && forall chunk <- chunks :: |chunk| <= maxChunk
    ensures |FeedAll(START, chunks).rest + last| > cacheSize
  {
    hide Unpack, Sane, Frame, Stream, Concat, Singles, FeedAll, Repeat;
    var m: Message := seq(maxFrame - HEADER_SIZE, _ => 0);
    ms := [m] + Repeat(m, maxChunk);
    LongStream(m, maxChunk);
    FrameDecodes(m, []);
    var n, stream := maxFrame - 1, Stream(ms);
    chunks, last := Singles(stream[..n]), stream[n..n + maxChunk];
    ByteByByteThenChunk(stream, n, maxChunk);
    SinglesConcat(stream[..n]);
    assert stream[..n] == Frame(m)[..n];
    CutInsideFrame(m, n);
    ChunkingIsIrrelevant(chunks);
  }
}
