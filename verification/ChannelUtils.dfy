/** The byte codec of Pipe/PipeClient/ChannelUtils.cpp: an `int` is written as four bytes, least
    significant first, with masks and shifts on its 32-bit pattern. */
module ChannelUtils {
  type byte = bv8

  const MAX_INT: int := 0x7FFF_FFFF

  /** The value of a 32-bit pattern read as an unsigned number. */
  function Unsigned(word: bv32): (n: nat)
    ensures n <= 0xFFFF_FFFF
  {
    word as int
  }

  /** The value of a 32-bit pattern read as a two's complement `int`. */
  function Signed(word: bv32): (n: int)
    ensures -0x8000_0000 <= n <= MAX_INT
  {
    hide Unsigned;
    if Unsigned(word) <= MAX_INT then Unsigned(word) else Unsigned(word) - 0x1_0000_0000
  }

  function ByteAt(word: bv32, shift: bv6): byte
    requires shift <= 24
  {
    ((word >> shift) & 0xFF) as byte
  }

  /** The four bytes that stand for `word` on the wire. */
  function Header(word: bv32): (bytes: seq<byte>)
    ensures |bytes| == 4
  {
    [ByteAt(word, 0), ByteAt(word, 8), ByteAt(word, 16), ByteAt(word, 24)]
  }

  /** Masks first and shifts afterwards, as the source does. */
  method IntToBytes(value: bv32, ary: array<byte>)
    requires ary.Length >= 4
    modifies ary
    ensures ary[..4] == Header(value)
    ensures ary[4..] == old(ary[4..])
  {
    ary[3] := ((value & 0xFF00_0000) >> 24) as byte;
    ary[2] := ((value & 0x00FF_0000) >> 16) as byte;
    ary[1] := ((value & 0x0000_FF00) >> 8) as byte;
    ary[0] := (value & 0x0000_00FF) as byte;
    MaskThenShift(value);
  }

  lemma MaskThenShift(value: bv32)
    ensures ((value & 0xFF00_0000) >> 24) as byte == ByteAt(value, 24)
    ensures ((value & 0x00FF_0000) >> 16) as byte == ByteAt(value, 16)
    ensures ((value & 0x0000_FF00) >> 8) as byte == ByteAt(value, 8)
    ensures (value & 0x0000_00FF) as byte == ByteAt(value, 0)
  {
  }

  function BytesToInt(ary: seq<byte>, offset: nat): bv32
    requires offset + 4 <= |ary|
  {
    ((ary[offset] as bv32) & 0xFF)
    | (((ary[offset + 1] as bv32) << 8) & 0xFF00)
    | (((ary[offset + 2] as bv32) << 16) & 0xFF_0000)
    | (((ary[offset + 3] as bv32) << 24) & 0xFF00_0000)
  }

  /** Decoding undoes encoding for every 32-bit pattern, and looks at nothing but the four bytes. */
  lemma DecodeHeader(word: bv32, tail: seq<byte>)
    ensures BytesToInt(Header(word) + tail, 0) == word
  {
    var s := Header(word) + tail;
    assert s[0] == ByteAt(word, 0) && s[1] == ByteAt(word, 8) && s[2] == ByteAt(word, 16) && s[3] == ByteAt(word, 24);
    AssembleSplit(word);
  }

  lemma AssembleSplit(word: bv32)
    ensures BytesToInt([ByteAt(word, 0), ByteAt(word, 8), ByteAt(word, 16), ByteAt(word, 24)], 0) == word
  {
  }

  /** Encoding undoes decoding: every four bytes are the header of exactly one `int`. */
  lemma EncodeDecoded(a: byte, b: byte, c: byte, d: byte)
    ensures Header(BytesToInt([a, b, c, d], 0)) == [a, b, c, d]
  {
    MaskedIsPlain(a, b, c, d);
    SplitPlain(a, b, c, d);
  }

  function Plain(a: byte, b: byte, c: byte, d: byte): bv32 {
    (a as bv32) | ((b as bv32) << 8) | ((c as bv32) << 16) | ((d as bv32) << 24)
  }

  lemma SplitPlain(a: byte, b: byte, c: byte, d: byte)
    ensures ByteAt(Plain(a, b, c, d), 0) == a && ByteAt(Plain(a, b, c, d), 8) == b
    ensures ByteAt(Plain(a, b, c, d), 16) == c && ByteAt(Plain(a, b, c, d), 24) == d
  {
  }

  lemma MaskedIsPlain(a: byte, b: byte, c: byte, d: byte)
    ensures BytesToInt([a, b, c, d], 0) == Plain(a, b, c, d)
  {
  }

  /** The decoder's shifts and masks compute the little-endian positional value. */
  lemma PositionalValue(a: byte, b: byte, c: byte, d: byte)
    ensures Unsigned(BytesToInt([a, b, c, d], 0))
         == a as int + 0x100 * (b as int) + 0x1_0000 * (c as int) + 0x100_0000 * (d as int)
  {
    hide BytesToInt, Plain;
    MaskedIsPlain(a, b, c, d);
    PlainValue(a, b, c, d);
  }

  lemma PlainValue(a: byte, b: byte, c: byte, d: byte)
    ensures Unsigned(Plain(a, b, c, d))
         == a as int + 0x100 * (b as int) + 0x1_0000 * (c as int) + 0x100_0000 * (d as int)
  {
  }

  function AppendBit(word: bv32, bit: bool): (longer: bv32)
    requires Unsigned(word) <= MAX_INT
    ensures Unsigned(longer) == 2 * Unsigned(word) + (if bit then 1 else 0)
  {
    Doubles(word);
    hide Unsigned;
    if bit then (word << 1) | 1 else word << 1
  }

  lemma Doubles(word: bv32)
    requires Unsigned(word) <= MAX_INT
    ensures Unsigned(word << 1) == 2 * Unsigned(word)
    ensures Unsigned((word << 1) | 1) == 2 * Unsigned(word) + 1
  {
  }

  /** The 32-bit pattern of a non-negative `int`, binary digit by binary digit. */
  function Bits(n: nat): (word: bv32)
    requires n <= MAX_INT
    ensures Unsigned(word) == n
  {
    hide Unsigned, AppendBit;
    if n == 0 then Zero() else AppendBit(Bits(n / 2), n % 2 == 1)
  }

  function Zero(): (word: bv32)
    ensures Unsigned(word) == 0
  {
    0
  }
}
