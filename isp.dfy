/**
 * The ATmega serial-programming (ISP) instruction frames that the flash
 * writer puts on the SPI bus: fixed 3- and 4-byte frames, some carrying a
 * 16-bit word address packed big-endian.
 */
module Isp {
  import opened Wrappers

  /** One byte on the wire. */
  type byte = x: int | 0 <= x < 0x100

  /**
   * `struct.pack(">H", a & 0xFFFF)`: the low 16 bits of `a`, high byte first.
   * Python's `&` keeps the two's-complement bits of a negative `a`, which is
   * what Dafny's Euclidean `%` gives as well.
   */
  function Be16(a: int): seq<byte>
  {
    var w := a % 0x1_0000;
    [w / 0x100, w % 0x100]
  }

  /** The 16-bit value that two big-endian bytes stand for. */
  function Word16(hi: byte, lo: byte): int
  {
    hi * 0x100 + lo
  }

  /** The packed bytes read back as the address modulo 2^16, and nothing else. */
  lemma Be16Inverse(a: int)
    ensures |Be16(a)| == 2 && Word16(Be16(a)[0], Be16(a)[1]) == a % 0x1_0000
  {
  }

  /** The instructions of the ISP command set that the flash writer uses. */
  datatype Command =
    | EnableMemoryAccess
    | ChipErase
    | PollReady
    | LoadLowByte(index: byte, value: byte)
    | LoadHighByte(index: byte, value: byte)
    | LoadExtendedAddress(ext: byte)
    | WritePage(wordAddr: int)
    | ReadLowByte(wordAddr: int)
    | ReadHighByte(wordAddr: int)

  /** The frame that carries a command. Word addresses are cut to 16 bits. */
  function Encode(c: Command): seq<byte>
  {
    match c
    case EnableMemoryAccess => [0xAC, 0x53, 0x00, 0x00]
    case ChipErase => [0xAC, 0x80, 0x00, 0x00]
    case PollReady => [0xF0, 0x00, 0x00, 0x00]
    case LoadLowByte(i, b) => [0x40, 0x00, i, b]
    case LoadHighByte(i, b) => [0x48, 0x00, i, b]
    case LoadExtendedAddress(e) => [0x4D, 0x00, e, 0x00]
    case WritePage(a) => [0x4C] + Be16(a) + [0x00]
    case ReadLowByte(a) => [0x20] + Be16(a)
    case ReadHighByte(a) => [0x28] + Be16(a)
  }

  /** A command whose word address, if it has one, fits the 16 bits of its frame. */
  predicate InRange(c: Command)
  {
    match c
    case WritePage(a) => 0 <= a < 0x1_0000
    case ReadLowByte(a) => 0 <= a < 0x1_0000
    case ReadHighByte(a) => 0 <= a < 0x1_0000
    case _ => true
  }

  /** Which command, if any, a frame carries. */
  function Decode(f: seq<byte>): Option<Command>
  {
    if |f| == 4 then
      if f[0] == 0xAC && f[1] == 0x53 && f[2] == 0 && f[3] == 0 then Some(EnableMemoryAccess)
      else if f[0] == 0xAC && f[1] == 0x80 && f[2] == 0 && f[3] == 0 then Some(ChipErase)
      else if f[0] == 0xF0 && f[1] == 0 && f[2] == 0 && f[3] == 0 then Some(PollReady)
      else if f[0] == 0x40 && f[1] == 0 then Some(LoadLowByte(f[2], f[3]))
      else if f[0] == 0x48 && f[1] == 0 then Some(LoadHighByte(f[2], f[3]))
      else if f[0] == 0x4D && f[1] == 0 && f[3] == 0 then Some(LoadExtendedAddress(f[2]))
      else if f[0] == 0x4C && f[3] == 0 then Some(WritePage(Word16(f[1], f[2])))
      else None
    else if |f| == 3 then
      if f[0] == 0x20 then Some(ReadLowByte(Word16(f[1], f[2])))
      else if f[0] == 0x28 then Some(ReadHighByte(Word16(f[1], f[2])))
      else None
    else None
  }

  /** Every in-range command is recovered from its frame. */
  lemma DecodeEncode(c: Command)
    requires InRange(c)
    ensures Decode(Encode(c)) == Some(c)
  {
    match c
    case WritePage(a) => DecodeWritePage(a);
    case ReadLowByte(a) => DecodeRead(a);
    case ReadHighByte(a) => DecodeRead(a);
    case _ =>
  }

  /** The commit frame `4C hi lo 00` of an in-range word address decodes to that commit. */
  lemma DecodeWritePage(a: int)
    requires 0 <= a < 0x1_0000
    ensures Decode(Encode(WritePage(a))) == Some(WritePage(a))
  {
    Be16Inverse(a);
    var b := Be16(a);
    assert Encode(WritePage(a)) == [0x4C, b[0], b[1], 0x00];
  }

  /** The read frames `20 hi lo` and `28 hi lo` of an in-range word address decode to those reads. */
  lemma DecodeRead(a: int)
    requires 0 <= a < 0x1_0000
    ensures Decode(Encode(ReadLowByte(a))) == Some(ReadLowByte(a))
    ensures Decode(Encode(ReadHighByte(a))) == Some(ReadHighByte(a))
  {
    Be16Inverse(a);
    var b := Be16(a);
    assert Encode(ReadLowByte(a)) == [0x20, b[0], b[1]];
    assert Encode(ReadHighByte(a)) == [0x28, b[0], b[1]];
  }

  /** A frame that decodes is exactly the encoding of what it decodes to. */
  lemma EncodeDecode(f: seq<byte>)
    requires Decode(f).Some?
    ensures InRange(Decode(f).value) && Encode(Decode(f).value) == f
  {
    if |f| == 4 && f[0] == 0x4C {
      assert Be16(Word16(f[1], f[2])) == f[1..3];
    } else if |f| == 3 {
      assert Be16(Word16(f[1], f[2])) == f[1..3];
    }
  }

  /** Two in-range commands share a frame only if they are the same command. */
  lemma EncodeInjective(c: Command, d: Command)
    requires InRange(c) && InRange(d) && Encode(c) == Encode(d)
    ensures c == d
  {
    DecodeEncode(c);
    DecodeEncode(d);
  }
}
