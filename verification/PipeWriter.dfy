/** The frame-building branch of `CWritePipe::WritePipeThread`, Pipe/PipeClient/WritePipe.cpp. */
module PipeWriter {
  import opened ChannelUtils
  import opened Framing
  import Memory

  class WritePipe {
    const bufferWrite: array<byte>
    var written: seq<byte>  // every byte handed to `WriteFile` so far

    ghost predicate Valid()
      reads this
    {
      bufferWrite.Length >= HEADER_SIZE
    }

    constructor (bufferMaxLen: nat)
      requires bufferMaxLen >= HEADER_SIZE
      ensures Valid() && fresh(bufferWrite) && bufferWrite.Length == bufferMaxLen && written == []
    {
      bufferWrite := new byte[bufferMaxLen](_ => 0);
      written := [];
    }

    /** The two copies of lines 83 and 84: header and data end up side by side. */
    method FillBuffer(bytes: array<byte>, data: array<byte>)
      requires bytes != bufferWrite && data != bufferWrite
      requires bytes.Length == HEADER_SIZE && HEADER_SIZE + data.Length <= bufferWrite.Length
      modifies bufferWrite
      ensures bufferWrite[..HEADER_SIZE + data.Length] == bytes[..] + data[..]
    {
      Memory.Copy(bufferWrite, 0, bytes, 0, HEADER_SIZE);
      assert bufferWrite[..HEADER_SIZE] == bytes[..];
      Memory.Copy(bufferWrite, HEADER_SIZE, data, 0, data.Length);
      assert bufferWrite[..HEADER_SIZE] == bytes[..];
    }

    /** Sends one message. The source copies it into `bufferWrite` unchecked, so it has to fit. */
    method Send(data: array<byte>)
      requires Valid() && data != bufferWrite
      requires HEADER_SIZE + data.Length <= bufferWrite.Length && Sendable(data[..])
      modifies `written, bufferWrite
      ensures Valid()
      ensures written == old(written) + Frame(data[..])
    {
      hide Header, Bits;
      var bytes := new byte[HEADER_SIZE](_ => 0);
      IntToBytes(Bits(data.Length), bytes);
      assert bytes[..] == bytes[..4];
      FillBuffer(bytes, data);
      written := written + bufferWrite[..HEADER_SIZE + data.Length];
    }
  }
}
