/** Length-prefixed messages on a byte stream, as values: what the writer of Pipe/PipeClient/WritePipe.cpp
    puts on the pipe and what the reader of Pipe/PipeClient/ReadPipe.cpp takes off it. */
module Framing {
  import opened ChannelUtils

  const HEADER_SIZE: nat := 4

  type Message = seq<byte>

  /** A message whose frame length is still an `int`. */
  predicate Sendable(m: Message) {
    HEADER_SIZE + |m| <= MAX_INT
  }

  predicate AllSendable(ms: seq<Message>) {
    forall m <- ms :: Sendable(m)
  }

  function Frame(m: Message): seq<byte>
    requires Sendable(m)
  {
    Header(Bits(|m|)) + m
  }

  function Stream(ms: seq<Message>): seq<byte>
    requires AllSendable(ms)
  {
    if ms == [] then [] else Frame(ms[0]) + Stream(ms[1..])
  }

  function Concat(chunks: seq<seq<byte>>): seq<byte> {
    if chunks == [] then [] else chunks[0] + Concat(chunks[1..])
  }

  function PayloadSize(s: seq<byte>): int
    requires |s| >= HEADER_SIZE
  {
    Signed(BytesToInt(s, 0))
  }

  /** Every header that unpacking `s` looks at announces a length the C++ `int` arithmetic can handle. */
  predicate Sane(s: seq<byte>) {
    |s| < HEADER_SIZE ||
    (0 <= PayloadSize(s) <= MAX_INT - HEADER_SIZE &&
     (|s| < HEADER_SIZE + PayloadSize(s) || Sane(s[HEADER_SIZE + PayloadSize(s)..])))
  }

  /** Whether `s` starts with a whole frame. */
  predicate StartsWithFrame(s: seq<byte>) {
    |s| >= HEADER_SIZE && PayloadSize(s) >= 0 && |s| >= HEADER_SIZE + PayloadSize(s)
  }

  datatype Unpacked = Unpacked(messages: seq<Message>, rest: seq<byte>)

  /** All whole frames at the start of `s`, and the bytes left over. */
  function Unpack(s: seq<byte>): Unpacked {
    if !StartsWithFrame(s) then Unpacked([], s)
    else
      var n := HEADER_SIZE + PayloadSize(s);
      var more := Unpack(s[n..]);
      Unpacked([s[HEADER_SIZE..n]] + more.messages, more.rest)
  }

  // ---- The parser inverts the printer ----

  lemma FrameDecodes(m: Message, tail: seq<byte>)
    requires Sendable(m)
    ensures |Frame(m)| == HEADER_SIZE + |m|
    ensures PayloadSize(Frame(m) + tail) == |m|
    ensures Frame(m)[HEADER_SIZE..] == m
  {
    hide Header, Bits, BytesToInt;
    assert Frame(m) + tail == Header(Bits(|m|)) + (m + tail);
    DecodeHeader(Bits(|m|), m + tail);
  }

  lemma CutInsideFrame(m: Message, n: nat)
    requires Sendable(m) && n < |Frame(m)|
    ensures var p := Frame(m)[..n]; Sane(p) && Unpack(p) == Unpacked([], p)
  {
    hide Header, BytesToInt;
    FrameDecodes(m, []);
    assert Frame(m) + [] == Frame(m);
    if n >= HEADER_SIZE {
      assert Frame(m)[..n][..HEADER_SIZE] == Frame(m)[..HEADER_SIZE];
      HeaderOnly(Frame(m)[..n], Frame(m));
    }
  }

  /** A whole frame in front is one message; what follows is unpacked on its own. */
  lemma WholeFrameFirst(m: Message, tail: seq<byte>)
    requires Sendable(m)
    ensures Sane(Frame(m) + tail) <==> Sane(tail)
    ensures Unpack(Frame(m) + tail) == Unpacked([m] + Unpack(tail).messages, Unpack(tail).rest)
  {
    hide Header, BytesToInt;
    FrameDecodes(m, tail);
    var s := Frame(m) + tail;
    assert s[|Frame(m)|..] == tail;
    assert s[HEADER_SIZE..|Frame(m)|] == Frame(m)[HEADER_SIZE..];
  }

  /** Cut anywhere, the byte stream of `ms` unpacks to a prefix of `ms`; the bytes left over are a strict
      prefix of the next frame, and there are none once the last message is through. */
  lemma {:induction false} UnpackStreamPrefix(ms: seq<Message>, n: nat)
    requires AllSendable(ms) && n <= |Stream(ms)|
    ensures var p := Stream(ms)[..n]; var u := Unpack(p);
      && Sane(p)
      && u.messages <= ms
      && p == Stream(u.messages) + u.rest
      && (u.messages == ms ==> u.rest == [])
      && (u.messages != ms ==> u.rest < Frame(ms[|u.messages|]))
  {
    hide Header, BytesToInt, Frame, Unpack, Sane;
    var p := Stream(ms)[..n];
    if ms == [] {
      assert p == [];
      UnpackNothing();
    } else {
      var frame, tail := Frame(ms[0]), Stream(ms[1..]);
      if n < |frame| {
        assert p == frame[..n];
        CutInsideFrame(ms[0], n);
      } else {
        var rest := tail[..n - |frame|];
        assert p == frame + rest;
        WholeFrameFirst(ms[0], rest);
        UnpackStreamPrefix(ms[1..], n - |frame|);
        var u := Unpack(rest);
        assert ([ms[0]] + u.messages)[1..] == u.messages;
        assert ms == [ms[0]] + ms[1..];
      }
    }
  }

  lemma UnpackNothing()
    ensures Sane([]) && Unpack([]) == Unpacked([], [])
  {
  }

  lemma HeaderOnly(s: seq<byte>, t: seq<byte>)
    requires |s| >= HEADER_SIZE && |t| >= HEADER_SIZE && s[..HEADER_SIZE] == t[..HEADER_SIZE]
    ensures PayloadSize(s) == PayloadSize(t)
  {
    forall k | 0 <= k < HEADER_SIZE ensures s[k] == t[k] {
      assert s[..HEADER_SIZE][k] == t[..HEADER_SIZE][k];
    }
  }

  /** The unpacked prefix holds exactly the messages whose whole frame lies before the cut. */
  lemma ExactlyTheCompleteFrames(ms: seq<Message>, n: nat, j: nat)
    requires AllSendable(ms) && n <= |Stream(ms)| && j <= |ms|
    ensures j <= |Unpack(Stream(ms)[..n]).messages| <==> |Stream(ms[..j])| <= n
  {
    UnpackStreamPrefix(ms, n);
    var u := Unpack(Stream(ms)[..n]);
    var done := |u.messages|;
    assert ms[..done] == u.messages;
    if j <= done {
      StreamMonotone(ms, j, done);
    } else {
      StreamMonotone(ms, done + 1, j);
      StreamSnoc(ms, done);
    }
  }

  lemma {:induction false} StreamConcat(a: seq<Message>, b: seq<Message>)
    requires AllSendable(a) && AllSendable(b)
    ensures AllSendable(a + b) && Stream(a + b) == Stream(a) + Stream(b)
  {
    hide Frame;
    if a == [] {
      assert a + b == b;
    } else {
      StreamConcat(a[1..], b);
      assert (a + b)[1..] == a[1..] + b;
    }
  }

  lemma StreamSnoc(ms: seq<Message>, k: nat)
    requires AllSendable(ms) && k < |ms|
    ensures Stream(ms[..k + 1]) == Stream(ms[..k]) + Frame(ms[k])
  {
    assert ms[..k + 1] == ms[..k] + [ms[k]];
    StreamConcat(ms[..k], [ms[k]]);
    assert Stream([ms[k]]) == Frame(ms[k]) + [];
  }

  lemma StreamMonotone(ms: seq<Message>, i: nat, j: nat)
    requires AllSendable(ms) && i <= j <= |ms|
    ensures |Stream(ms[..i])| <= |Stream(ms[..j])|
  {
    assert ms[..j] == ms[..i] + ms[i..j];
    StreamConcat(ms[..i], ms[i..j]);
  }

  // ---- The unpacking loop, one turn at a time ----

  lemma UnpackFirst(s: seq<byte>)
    requires StartsWithFrame(s)
    ensures var n := HEADER_SIZE + PayloadSize(s);
      Unpack(s) == Unpacked([s[HEADER_SIZE..n]] + Unpack(s[n..]).messages, Unpack(s[n..]).rest)
  {
    hide PayloadSize;
  }

  lemma UnpackStep(s: seq<byte>)
    requires Sane(s) && StartsWithFrame(s)
    ensures var n := HEADER_SIZE + PayloadSize(s);
      Sane(s[n..]) && Unpack(s) == Unpacked([s[HEADER_SIZE..n]] + Unpack(s[n..]).messages, Unpack(s[n..]).rest)
  {
    hide PayloadSize;
  }

  lemma UnpackDone(s: seq<byte>)
    requires !StartsWithFrame(s)
    ensures Unpack(s) == Unpacked([], s)
  {
    hide PayloadSize;
  }

  lemma SaneHeader(s: seq<byte>)
    requires Sane(s) && |s| >= HEADER_SIZE
    ensures 0 <= PayloadSize(s) <= MAX_INT - HEADER_SIZE
  {
    hide PayloadSize;
  }

  // ---- Unpacking does not depend on how the stream was cut ----

  /** Unpacking what arrived so far, keeping the rest, and unpacking again when `b` arrives gives what one
      pass over the whole gives. */
  lemma {:induction false} UnpackAppend(a: seq<byte>, b: seq<byte>)
    requires Sane(a)
    ensures Unpack(a + b) == var u := Unpack(a); var v := Unpack(u.rest + b);
                             Unpacked(u.messages + v.messages, v.rest)
  {
    hide PayloadSize, Unpack;
    if StartsWithFrame(a) {
      var n := HEADER_SIZE + PayloadSize(a);
      FirstFrame(a, b);
      UnpackAppend(a[n..], b);
      var u := Unpack(a[n..]);
      var v := Unpack(u.rest + b);
      assert ([a[HEADER_SIZE..n]] + u.messages) + v.messages == [a[HEADER_SIZE..n]] + (u.messages + v.messages);
    } else {
      UnpackDone(a);
      assert [] + Unpack(a + b).messages == Unpack(a + b).messages;
    }
  }

  /** The first frame of `a` is the first frame of `a + b`. */
  lemma FirstFrame(a: seq<byte>, b: seq<byte>)
    requires StartsWithFrame(a)
    ensures var n := HEADER_SIZE + PayloadSize(a);
      && Unpack(a) == Unpacked([a[HEADER_SIZE..n]] + Unpack(a[n..]).messages, Unpack(a[n..]).rest)
      && Unpack(a + b) == Unpacked([a[HEADER_SIZE..n]] + Unpack(a[n..] + b).messages, Unpack(a[n..] + b).rest)
  {
    HeaderOnly(a, a + b) by {
      assert (a + b)[..HEADER_SIZE] == a[..HEADER_SIZE];
    }
    UnpackFirst(a);
    UnpackFirst(a + b);
    hide PayloadSize, Unpack;
    SlicesOfFront(a, b, HEADER_SIZE, HEADER_SIZE + PayloadSize(a));
  }

  lemma SlicesOfFront(a: seq<byte>, b: seq<byte>, k: nat, n: nat)
    requires k <= n <= |a|
    ensures (a + b)[n..] == a[n..] + b && (a + b)[k..n] == a[k..n]
  {
  }

  lemma {:induction false} SaneAppend(a: seq<byte>, b: seq<byte>)
    requires Sane(a + b)
    ensures Sane(a) && Sane(Unpack(a).rest + b)
  {
    hide Header, BytesToInt;
    if |a| >= HEADER_SIZE {
      HeaderOnly(a, a + b);
      if StartsWithFrame(a) {
        var n := HEADER_SIZE + PayloadSize(a);
        assert (a + b)[n..] == a[n..] + b;
        SaneAppend(a[n..], b);
      }
    }
  }

  /** No message is left to unpack in the leftover bytes. */
  lemma {:induction false} RestHoldsNoFrame(s: seq<byte>)
    ensures !StartsWithFrame(Unpack(s).rest)
  {
    if StartsWithFrame(s) {
      RestHoldsNoFrame(s[HEADER_SIZE + PayloadSize(s)..]);
    }
  }
}
