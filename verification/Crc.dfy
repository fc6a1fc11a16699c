/** The CRC of the XMODEM packets and of the u-boot header: polynomial
    x^16 + x^12 + x^5 + 1, initial value 0. */
module Crc {
  import opened Bytes

  /** s times x, modulo the polynomial: the bit t that leaves the register is
      x^16, which is x^12 + x^5 + 1. */
  function TimesX(s: bv16): bv16 {
    var t := s >> 15;
    (s << 1) ^ (t << 12) ^ (t << 5) ^ t
  }

  function TimesX8(s: bv16): bv16 {
    TimesX(TimesX(TimesX(TimesX(TimesX(TimesX(TimesX(TimesX(s))))))))
  }

  /** s times x^n, modulo the polynomial. */
  function TimesXN(s: bv16, n: nat): bv16 {
    if n == 0 then s else TimesX(TimesXN(s, n - 1))
  }

  /** The remainder of a bit string, most significant bit first, read as a
      polynomial over the field of two elements. */
  function Remainder(bits: seq<bool>): bv16 {
    if bits == [] then 0
    else Plus(TimesX(Remainder(bits[..|bits| - 1])), Bit(bits[|bits| - 1]))
  }

  function Bit(b: bool): bv16 {
    if b then 1 else 0
  }

  /** The bits of a byte, most significant first. */
  function ByteBits(v: bv8): seq<bool> {
    [v & 0x80 != 0, v & 0x40 != 0, v & 0x20 != 0, v & 0x10 != 0,
     v & 0x08 != 0, v & 0x04 != 0, v & 0x02 != 0, v & 0x01 != 0]
  }

  function Message(vs: seq<bv8>): seq<bool> {
    if vs == [] then [] else Message(vs[..|vs| - 1]) + ByteBits(vs[|vs| - 1])
  }

  // The table, one function for each sixteen entries. An entry is the index,
  // eight places up, times x^8.

  function Row0(i: bv8): (e: bv16)
    requires i >> 4 == 0
    ensures e == TimesX8((i as bv16) << 8)
  {
    if i & 15 == 0 then 0x0000 else if i & 15 == 1 then 0x1021 else if i & 15 == 2 then 0x2042 else
    if i & 15 == 3 then 0x3063 else if i & 15 == 4 then 0x4084 else if i & 15 == 5 then 0x50a5 else
    if i & 15 == 6 then 0x60c6 else if i & 15 == 7 then 0x70e7 else if i & 15 == 8 then 0x8108 else
    if i & 15 == 9 then 0x9129 else if i & 15 == 10 then 0xa14a else if i & 15 == 11 then 0xb16b else
    if i & 15 == 12 then 0xc18c else if i & 15 == 13 then 0xd1ad else if i & 15 == 14 then 0xe1ce else 0xf1ef
  }

  function Row1(i: bv8): (e: bv16)
    requires i >> 4 == 1
    ensures e == TimesX8((i as bv16) << 8)
  {
    if i & 15 == 0 then 0x1231 else if i & 15 == 1 then 0x0210 else if i & 15 == 2 then 0x3273 else
    if i & 15 == 3 then 0x2252 else if i & 15 == 4 then 0x52b5 else if i & 15 == 5 then 0x4294 else
    if i & 15 == 6 then 0x72f7 else if i & 15 == 7 then 0x62d6 else if i & 15 == 8 then 0x9339 else
    if i & 15 == 9 then 0x8318 else if i & 15 == 10 then 0xb37b else if i & 15 == 11 then 0xa35a else
    if i & 15 == 12 then 0xd3bd else if i & 15 == 13 then 0xc39c else if i & 15 == 14 then 0xf3ff else 0xe3de
  }

  function Row2(i: bv8): (e: bv16)
    requires i >> 4 == 2
    ensures e == TimesX8((i as bv16) << 8)
  {
    if i & 15 == 0 then 0x2462 else if i & 15 == 1 then 0x3443 else if i & 15 == 2 then 0x0420 else
    if i & 15 == 3 then 0x1401 else if i & 15 == 4 then 0x64e6 else if i & 15 == 5 then 0x74c7 else
    if i & 15 == 6 then 0x44a4 else if i & 15 == 7 then 0x5485 else if i & 15 == 8 then 0xa56a else
    if i & 15 == 9 then 0xb54b else if i & 15 == 10 then 0x8528 else if i & 15 == 11 then 0x9509 else
    if i & 15 == 12 then 0xe5ee else if i & 15 == 13 then 0xf5cf else if i & 15 == 14 then 0xc5ac else 0xd58d
  }

  function Row3(i: bv8): (e: bv16)
    requires i >> 4 == 3
    ensures e == TimesX8((i as bv16) << 8)
  {
    if i & 15 == 0 then 0x3653 else if i & 15 == 1 then 0x2672 else if i & 15 == 2 then 0x1611 else
    if i & 15 == 3 then 0x0630 else if i & 15 == 4 then 0x76d7 else if i & 15 == 5 then 0x66f6 else
    if i & 15 == 6 then 0x5695 else if i & 15 == 7 then 0x46b4 else if i & 15 == 8 then 0xb75b else
    if i & 15 == 9 then 0xa77a else if i & 15 == 10 then 0x9719 else if i & 15 == 11 then 0x8738 else
    if i & 15 == 12 then 0xf7df else if i & 15 == 13 then 0xe7fe else if i & 15 == 14 then 0xd79d else 0xc7bc
  }

  function Row4(i: bv8): (e: bv16)
    requires i >> 4 == 4
    ensures e == TimesX8((i as bv16) << 8)
  {
    if i & 15 == 0 then 0x48c4 else if i & 15 == 1 then 0x58e5 else if i & 15 == 2 then 0x6886 else
    if i & 15 == 3 then 0x78a7 else if i & 15 == 4 then 0x0840 else if i & 15 == 5 then 0x1861 else
    if i & 15 == 6 then 0x2802 else if i & 15 == 7 then 0x3823 else if i & 15 == 8 then 0xc9cc else
    if i & 15 == 9 then 0xd9ed else if i & 15 == 10 then 0xe98e else if i & 15 == 11 then 0xf9af else
    if i & 15 == 12 then 0x8948 else if i & 15 == 13 then 0x9969 else if i & 15 == 14 then 0xa90a else 0xb92b
  }

  function Row5(i: bv8): (e: bv16)
    requires i >> 4 == 5
    ensures e == TimesX8((i as bv16) << 8)
  {
    if i & 15 == 0 then 0x5af5 else if i & 15 == 1 then 0x4ad4 else if i & 15 == 2 then 0x7ab7 else
    if i & 15 == 3 then 0x6a96 else if i & 15 == 4 then 0x1a71 else if i & 15 == 5 then 0x0a50 else
    if i & 15 == 6 then 0x3a33 else if i & 15 == 7 then 0x2a12 else if i & 15 == 8 then 0xdbfd else
    if i & 15 == 9 then 0xcbdc else if i & 15 == 10 then 0xfbbf else if i & 15 == 11 then 0xeb9e else
    if i & 15 == 12 then 0x9b79 else if i & 15 == 13 then 0x8b58 else if i & 15 == 14 then 0xbb3b else 0xab1a
  }

  function Row6(i: bv8): (e: bv16)
    requires i >> 4 == 6
    ensures e == TimesX8((i as bv16) << 8)
  {
    if i & 15 == 0 then 0x6ca6 else if i & 15 == 1 then 0x7c87 else if i & 15 == 2 then 0x4ce4 else
    if i & 15 == 3 then 0x5cc5 else if i & 15 == 4 then 0x2c22 else if i & 15 == 5 then 0x3c03 else
    if i & 15 == 6 then 0x0c60 else if i & 15 == 7 then 0x1c41 else if i & 15 == 8 then 0xedae else
    if i & 15 == 9 then 0xfd8f else if i & 15 == 10 then 0xcdec else if i & 15 == 11 then 0xddcd else
    if i & 15 == 12 then 0xad2a else if i & 15 == 13 then 0xbd0b else if i & 15 == 14 then 0x8d68 else 0x9d49
  }

  function Row7(i: bv8): (e: bv16)
    requires i >> 4 == 7
    ensures e == TimesX8((i as bv16) << 8)
  {
    if i & 15 == 0 then 0x7e97 else if i & 15 == 1 then 0x6eb6 else if i & 15 == 2 then 0x5ed5 else
    if i & 15 == 3 then 0x4ef4 else if i & 15 == 4 then 0x3e13 else if i & 15 == 5 then 0x2e32 else
    if i & 15 == 6 then 0x1e51 else if i & 15 == 7 then 0x0e70 else if i & 15 == 8 then 0xff9f else
    if i & 15 == 9 then 0xefbe else if i & 15 == 10 then 0xdfdd else if i & 15 == 11 then 0xcffc else
    if i & 15 == 12 then 0xbf1b else if i & 15 == 13 then 0xaf3a else if i & 15 == 14 then 0x9f59 else 0x8f78
  }

  function Row8(i: bv8): (e: bv16)
    requires i >> 4 == 8
    ensures e == TimesX8((i as bv16) << 8)
  {
    if i & 15 == 0 then 0x9188 else if i & 15 == 1 then 0x81a9 else if i & 15 == 2 then 0xb1ca else
    if i & 15 == 3 then 0xa1eb else if i & 15 == 4 then 0xd10c else if i & 15 == 5 then 0xc12d else
    if i & 15 == 6 then 0xf14e else if i & 15 == 7 then 0xe16f else if i & 15 == 8 then 0x1080 else
    if i & 15 == 9 then 0x00a1 else if i & 15 == 10 then 0x30c2 else if i & 15 == 11 then 0x20e3 else
    if i & 15 == 12 then 0x5004 else if i & 15 == 13 then 0x4025 else if i & 15 == 14 then 0x7046 else 0x6067
  }

  function Row9(i: bv8): (e: bv16)
    requires i >> 4 == 9
    ensures e == TimesX8((i as bv16) << 8)
  {
    if i & 15 == 0 then 0x83b9 else if i & 15 == 1 then 0x9398 else if i & 15 == 2 then 0xa3fb else
    if i & 15 == 3 then 0xb3da else if i & 15 == 4 then 0xc33d else if i & 15 == 5 then 0xd31c else
    if i & 15 == 6 then 0xe37f else if i & 15 == 7 then 0xf35e else if i & 15 == 8 then 0x02b1 else
    if i & 15 == 9 then 0x1290 else if i & 15 == 10 then 0x22f3 else if i & 15 == 11 then 0x32d2 else
    if i & 15 == 12 then 0x4235 else if i & 15 == 13 then 0x5214 else if i & 15 == 14 then 0x6277 else 0x7256
  }

  function Row10(i: bv8): (e: bv16)
    requires i >> 4 == 10
    ensures e == TimesX8((i as bv16) << 8)
  {
    if i & 15 == 0 then 0xb5ea else if i & 15 == 1 then 0xa5cb else if i & 15 == 2 then 0x95a8 else
    if i & 15 == 3 then 0x8589 else if i & 15 == 4 then 0xf56e else if i & 15 == 5 then 0xe54f else
    if i & 15 == 6 then 0xd52c else if i & 15 == 7 then 0xc50d else if i & 15 == 8 then 0x34e2 else
    if i & 15 == 9 then 0x24c3 else if i & 15 == 10 then 0x14a0 else if i & 15 == 11 then 0x0481 else
    if i & 15 == 12 then 0x7466 else if i & 15 == 13 then 0x6447 else if i & 15 == 14 then 0x5424 else 0x4405
  }

  function Row11(i: bv8): (e: bv16)
    requires i >> 4 == 11
    ensures e == TimesX8((i as bv16) << 8)
  {
    if i & 15 == 0 then 0xa7db else if i & 15 == 1 then 0xb7fa else if i & 15 == 2 then 0x8799 else
    if i & 15 == 3 then 0x97b8 else if i & 15 == 4 then 0xe75f else if i & 15 == 5 then 0xf77e else
    if i & 15 == 6 then 0xc71d else if i & 15 == 7 then 0xd73c else if i & 15 == 8 then 0x26d3 else
    if i & 15 == 9 then 0x36f2 else if i & 15 == 10 then 0x0691 else if i & 15 == 11 then 0x16b0 else
    if i & 15 == 12 then 0x6657 else if i & 15 == 13 then 0x7676 else if i & 15 == 14 then 0x4615 else 0x5634
  }

  function Row12(i: bv8): (e: bv16)
    requires i >> 4 == 12
    ensures e == TimesX8((i as bv16) << 8)
  {
    if i & 15 == 0 then 0xd94c else if i & 15 == 1 then 0xc96d else if i & 15 == 2 then 0xf90e else
    if i & 15 == 3 then 0xe92f else if i & 15 == 4 then 0x99c8 else if i & 15 == 5 then 0x89e9 else
    if i & 15 == 6 then 0xb98a else if i & 15 == 7 then 0xa9ab else if i & 15 == 8 then 0x5844 else
    if i & 15 == 9 then 0x4865 else if i & 15 == 10 then 0x7806 else if i & 15 == 11 then 0x6827 else
    if i & 15 == 12 then 0x18c0 else if i & 15 == 13 then 0x08e1 else if i & 15 == 14 then 0x3882 else 0x28a3
  }

  function Row13(i: bv8): (e: bv16)
    requires i >> 4 == 13
    ensures e == TimesX8((i as bv16) << 8)
  {
    if i & 15 == 0 then 0xcb7d else if i & 15 == 1 then 0xdb5c else if i & 15 == 2 then 0xeb3f else
    if i & 15 == 3 then 0xfb1e else if i & 15 == 4 then 0x8bf9 else if i & 15 == 5 then 0x9bd8 else
    if i & 15 == 6 then 0xabbb else if i & 15 == 7 then 0xbb9a else if i & 15 == 8 then 0x4a75 else
    if i & 15 == 9 then 0x5a54 else if i & 15 == 10 then 0x6a37 else if i & 15 == 11 then 0x7a16 else
    if i & 15 == 12 then 0x0af1 else if i & 15 == 13 then 0x1ad0 else if i & 15 == 14 then 0x2ab3 else 0x3a92
  }

  function Row14(i: bv8): (e: bv16)
    requires i >> 4 == 14
    ensures e == TimesX8((i as bv16) << 8)
  {
    if i & 15 == 0 then 0xfd2e else if i & 15 == 1 then 0xed0f else if i & 15 == 2 then 0xdd6c else
    if i & 15 == 3 then 0xcd4d else if i & 15 == 4 then 0xbdaa else if i & 15 == 5 then 0xad8b else
    if i & 15 == 6 then 0x9de8 else if i & 15 == 7 then 0x8dc9 else if i & 15 == 8 then 0x7c26 else
    if i & 15 == 9 then 0x6c07 else if i & 15 == 10 then 0x5c64 else if i & 15 == 11 then 0x4c45 else
    if i & 15 == 12 then 0x3ca2 else if i & 15 == 13 then 0x2c83 else if i & 15 == 14 then 0x1ce0 else 0x0cc1
  }

  function Row15(i: bv8): (e: bv16)
    requires i >> 4 == 15
    ensures e == TimesX8((i as bv16) << 8)
  {
    if i & 15 == 0 then 0xef1f else if i & 15 == 1 then 0xff3e else if i & 15 == 2 then 0xcf5d else
    if i & 15 == 3 then 0xdf7c else if i & 15 == 4 then 0xaf9b else if i & 15 == 5 then 0xbfba else
    if i & 15 == 6 then 0x8fd9 else if i & 15 == 7 then 0x9ff8 else if i & 15 == 8 then 0x6e17 else
    if i & 15 == 9 then 0x7e36 else if i & 15 == 10 then 0x4e55 else if i & 15 == 11 then 0x5e74 else
    if i & 15 == 12 then 0x2e93 else if i & 15 == 13 then 0x3eb2 else if i & 15 == 14 then 0x0ed1 else 0x1ef0
  }

  /** crc16tab. */
  function Table(i: bv8): (e: bv16)
    ensures e == TimesX8((i as bv16) << 8)
  {
    if i >> 4 == 0 then Row0(i) else
    if i >> 4 == 1 then Row1(i) else
    if i >> 4 == 2 then Row2(i) else
    if i >> 4 == 3 then Row3(i) else
    if i >> 4 == 4 then Row4(i) else
    if i >> 4 == 5 then Row5(i) else
    if i >> 4 == 6 then Row6(i) else
    if i >> 4 == 7 then Row7(i) else
    if i >> 4 == 8 then Row8(i) else
    if i >> 4 == 9 then Row9(i) else
    if i >> 4 == 10 then Row10(i) else
    if i >> 4 == 11 then Row11(i) else
    if i >> 4 == 12 then Row12(i) else
    if i >> 4 == 13 then Row13(i) else
    if i >> 4 == 14 then Row14(i) else
    Row15(i)
  }

  /** The sum of two polynomials. */
  function Plus(a: bv16, b: bv16): bv16 {
    a ^ b
  }

  function Up(crc: bv16): bv16 {
    crc << 8
  }

  /** The table index used for the byte v. */
  function Index(crc: bv16, v: bv8): bv8 {
    (((crc >> 8) ^ (v as bv16)) & 0x00FF) as bv8
  }

  /** One round of the loop over the buffer: the low half of the register moves
      up, and the table entry for its high half and the byte is added. */
  function Step(crc: bv16, v: bv8): bv16 {
    Plus(Up(crc), Table(Index(crc, v)))
  }

  function CrcFrom(crc: bv16, vs: seq<bv8>): bv16 {
    if vs == [] then crc else Step(CrcFrom(crc, vs[..|vs| - 1]), vs[|vs| - 1])
  }

  function BitsOf(s: seq<byte>): (vs: seq<bv8>)
    ensures |vs| == |s|
  {
    seq(|s|, i requires 0 <= i < |s| => Bits(s[i]))
  }

  function Crc16(s: seq<byte>): bv16 {
    CrcFrom(0, BitsOf(s))
  }

  /** The CRC that two received bytes stand for. */
  function Received(high: byte, low: byte): bv16 {
    ((Bits(high) as bv16) << 8) + (Bits(low) as bv16)
  }

  /** The check of a packet body: data, and behind it the two CRC bytes. */
  predicate Checks(body: seq<byte>)
    requires 2 <= |body|
  {
    Crc16(body[..|body| - 2]) == Received(body[|body| - 2], body[|body| - 1])
  }

  /** The two bytes a sender appends. */
  function CrcBytes(crc: bv16): (s: seq<byte>)
    ensures |s| == 2
  {
    [OfBits((crc >> 8) as bv8), OfBits((crc & 0x00FF) as bv8)]
  }
}
