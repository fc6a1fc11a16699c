/** The CRC as the program computes it. */
module CrcLoop {
  import opened Bytes
  import opened Crc
  import opened CrcTheory

  /** crc16_ccitt: the result is the remainder of the bits of the buffer, first bit
      of the first byte first, and 16 zeros. */
  method Crc16Ccitt(buf: seq<byte>) returns (crc: bv16)
    ensures crc == Crc16(buf) && crc == Remainder(Message(BitsOf(buf)) + Zeros(16))
  {
    hide Step, Remainder, Message, Zeros;
    crc := 0;
    for counter := 0 to |buf|
      invariant crc == CrcFrom(0, BitsOf(buf)[..counter])
    {
      ghost var vs := BitsOf(buf)[..counter + 1];
      assert vs[..counter] == BitsOf(buf)[..counter];
      crc := Step(crc, Bits(buf[counter]));
    }
    assert BitsOf(buf)[..|buf|] == BitsOf(buf);
    CrcIsRemainder(BitsOf(buf));
  }

  /** The CRC that the checks compare is that remainder, too. */
  lemma Crc16IsRemainder(s: seq<byte>)
    ensures Crc16(s) == Remainder(Message(BitsOf(s)) + Zeros(16))
  {
    hide Remainder, Message, Zeros;
    CrcIsRemainder(BitsOf(s));
  }
}
