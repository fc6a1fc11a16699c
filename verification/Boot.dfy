/** The layout of the flash, the u-boot record in it, and when the boot loader
    accepts that record. */
module Boot {
  import opened Arith
  import opened Bytes
  import opened Crc
  import CrcTheory
  import CrcErrors
  import CrcOrder
  import CrcFewBits
  import Image

  const MAX_PAGESIZE := 264
  const LOADER_BASE := 0
  const UBOOT_BASE := 43 * MAX_PAGESIZE
  const ENV_BASE := 510 * MAX_PAGESIZE
  const ENV_END := 512 * MAX_PAGESIZE
  const LOADER_LEN := UBOOT_BASE - LOADER_BASE
  const UBOOT_LEN := ENV_BASE - UBOOT_BASE
  const TOTAL_LEN := ENV_END - LOADER_BASE
  const UBOOT_MINLEN := 8192
  const MIN_IMAGE_SIZE := 256
  const UBOOT_HDR_SIZE := 8
  const UBOOT_HDR_MAGIC := 0xB0FF
  const UBOOT_MAX_SIZE := 0x10_0000

  /** The two CRC bytes, least significant first, as a word in memory has them. */
  function CrcLow(crc: bv16): (s: seq<byte>)
    ensures |s| == 2
  {
    [CrcBytes(crc)[1], CrcBytes(crc)[0]]
  }

  /** The second header word, as bytes: UBOOT_HDR_MAGIC << 16 | crc. */
  function CheckWord(crc: bv16): (s: seq<byte>)
    ensures |s| == 4
  {
    CrcLow(crc) + [UBOOT_HDR_MAGIC % 256, UBOOT_HDR_MAGIC / 256]
  }

  /** The header words for an image: its length, and magic and CRC. */
  function Header(image: seq<byte>): (s: seq<byte>)
    requires |image| < 0x1_0000_0000
    ensures |s| == UBOOT_HDR_SIZE
  {
    Word(|image|) + CheckWord(Crc16(image))
  }

  /** What upload_uboot puts in the flash. */
  function Record(image: seq<byte>): (s: seq<byte>)
    requires |image| < 0x1_0000_0000
    ensures |s| == UBOOT_HDR_SIZE + |image|
  {
    Header(image) + image
  }

  /** The outcome of boot_uboot once the region has been read. */
  datatype Outcome = BadHeader | BadLength | BadCrc | BadImage | Boots(image: seq<byte>)

  function HalfAt(s: seq<byte>, at: nat): nat
    requires at + 2 <= |s|
  {
    s[at] as int + 256 * s[at + 1] as int
  }

  /** The checks on the u-boot region, in their order. */
  function BootResult(region: seq<byte>): Outcome
    requires |region| == UBOOT_LEN
  {
    var l := Signed(WordAt(region, 0));
    if HalfAt(region, 6) != UBOOT_HDR_MAGIC then BadHeader
    else if l < UBOOT_MINLEN || l > UBOOT_LEN - UBOOT_HDR_SIZE then BadLength
    else if Crc16(region[UBOOT_HDR_SIZE..UBOOT_HDR_SIZE + l]) != Received(region[5], region[4]) then BadCrc
    else Unpacked(region[UBOOT_HDR_SIZE..UBOOT_HDR_SIZE + l])
  }

  function Unpacked(image: seq<byte>): Outcome {
    var r := Image.Run(image, [], UBOOT_MAX_SIZE);
    if r.Some? && r.value != [] then Boots(r.value) else BadImage
  }

  lemma WordOfPrefix(s: seq<byte>, n: nat)
    requires n < 0x1_0000_0000 && 4 <= |s| && s[..4] == Word(n)
    ensures WordAt(s, 0) == n
  {
    var w := Word(n);
    assert s[0] == s[..4][0] && s[1] == s[..4][1] && s[2] == s[..4][2] && s[3] == s[..4][3];
  }

  lemma CrcLowIsReceived(crc: bv16)
    ensures Received(CrcLow(crc)[1], CrcLow(crc)[0]) == crc
  {
    hide Received, Bits, OfBits;
    CrcErrors.SenderCrc(crc);
  }

  /** A header, and behind it bytes that need not be those it was made for:
      its length decides, and the CRC, and then the bytes. */
  lemma BootOfHeader(image: seq<byte>, got: seq<byte>, rest: seq<byte>)
    requires |got| == |image| && UBOOT_HDR_SIZE + |image| + |rest| == UBOOT_LEN
    ensures BootResult(Header(image) + got + rest) ==
            if |image| < UBOOT_MINLEN then BadLength
            else if Crc16(got) != Crc16(image) then BadCrc
            else Unpacked(got)
  {
    hide Crc16, Received, CrcLow, Word, Image.Run, Unpacked;
    var region, crc := Header(image) + got + rest, Crc16(image);
    assert region[..4] == Word(|image|);
    WordOfPrefix(region, |image|);
    assert region[4..6] == CrcLow(crc);
    assert region[4] == region[4..6][0] && region[5] == region[4..6][1];
    CrcLowIsReceived(crc);
    assert region[UBOOT_HDR_SIZE..UBOOT_HDR_SIZE + |image|] == got;
    assert HalfAt(region, 6) == UBOOT_HDR_MAGIC;
  }

  /** Whatever lies behind it in the region, a record passes the magic and CRC
      checks; whether it boots is decided by its length and its content. */
  lemma BootOfRecord(image: seq<byte>, rest: seq<byte>)
    requires UBOOT_HDR_SIZE + |image| + |rest| == UBOOT_LEN
    ensures BootResult(Record(image) + rest) ==
            if |image| < UBOOT_MINLEN then BadLength else Unpacked(image)
  {
    hide Header, BootResult, Unpacked, Crc16;
    BootOfHeader(image, image, rest);
  }

  /** When an image that is stored in the flash boots, and with which
      content. */
  ghost predicate Bootable(image: seq<byte>, data: seq<byte>) {
    |image| >= 8192 && Image.Means(image, data) && 1 <= |data| <= 0x10_0000
  }

  /** A record boots exactly when its image is bootable. */
  lemma RecordBoots(image: seq<byte>, rest: seq<byte>, data: seq<byte>)
    requires UBOOT_HDR_SIZE + |image| + |rest| == UBOOT_LEN
    ensures BootResult(Record(image) + rest) == Boots(data) <==> Bootable(image, data)
  {
    hide Record, BootResult, Image.Run, Image.Means;
    BootOfRecord(image, rest);
    Image.RunDecides(image, data, UBOOT_MAX_SIZE);
  }

  // Nothing but records of bootable images boots.

  lemma WordOfDigits(s: seq<byte>)
    requires |s| >= 4
    ensures Word(WordAt(s, 0)) == s[..4]
  {
    var h3: nat := s[3];
    var h2: nat := h3 * 256 + s[2];
    var h1: nat := h2 * 256 + s[1];
    DivModUnique(h1 * 256 + s[0], 256, h1, s[0]);
    DivModUnique(h1, 256, h2, s[1]);
    DivModUnique(h2, 256, h3, s[2]);
    assert WordAt(s, 0) == h1 * 256 + s[0];
  }

  lemma CheckWordOfReceived(s: seq<byte>, crc: bv16)
    requires |s| >= UBOOT_HDR_SIZE && HalfAt(s, 6) == UBOOT_HDR_MAGIC && crc == Received(s[5], s[4])
    ensures s[4..UBOOT_HDR_SIZE] == CheckWord(crc)
  {
    hide Received, CrcBytes;
    CrcErrors.AcceptedCrcBytes(crc, s[5], s[4]);
  }

  /** The region starts with the record of an image. */
  ghost predicate StartsWith(region: seq<byte>, image: seq<byte>, rest: seq<byte>) {
    |image| < 0x1_0000_0000 && region == Record(image) + rest
  }

  /** A region that boots starts with a record. */
  lemma BootsIsRecord(region: seq<byte>) returns (image: seq<byte>, rest: seq<byte>)
    requires |region| == UBOOT_LEN && BootResult(region).Boots?
    ensures StartsWith(region, image, rest)
  {
    hide Crc16, Received, CheckWord, Word, WordAt, HalfAt, Unpacked;
    var l := Signed(WordAt(region, 0));
    image, rest := region[UBOOT_HDR_SIZE..UBOOT_HDR_SIZE + l], region[UBOOT_HDR_SIZE + l..];
    WordOfDigits(region);
    CheckWordOfReceived(region, Crc16(image));
    assert region == region[..4] + region[4..UBOOT_HDR_SIZE] + image + rest;
  }

  /** The region starts with the record of an image that is bootable. */
  ghost predicate HoldsBootable(region: seq<byte>, data: seq<byte>) {
    exists image, rest :: StartsWith(region, image, rest) && Bootable(image, data)
  }

  /** Whatever is in the region, it boots with given bytes exactly when it starts
      with the record of an image that is bootable with them. */
  lemma BootsDecides(region: seq<byte>, data: seq<byte>)
    requires |region| == UBOOT_LEN
    ensures BootResult(region) == Boots(data) <==> HoldsBootable(region, data)
  {
    hide BootResult, Record, Bootable;
    if BootResult(region) == Boots(data) {
      var image, rest := BootsIsRecord(region);
      RecordBoots(image, rest, data);
      assert StartsWith(region, image, rest);
    }
    if image, rest :| StartsWith(region, image, rest) && Bootable(image, data) {
      RecordBoots(image, rest, data);
    }
  }

  /** A record whose image was damaged in the flash: it is refused for its CRC,
      if the wrong bits are a burst, or an odd number, or two that are not a
      multiple of 32767 bits apart. */
  lemma DamagedIsRefused(image: seq<byte>, got: seq<byte>, rest: seq<byte>)
    requires |got| == |image| >= UBOOT_MINLEN && UBOOT_HDR_SIZE + |image| + |rest| == UBOOT_LEN
    ensures var e, o := CrcErrors.Difference(image, got), BootResult(Header(image) + got + rest);
            (CrcErrors.Burst(e) || CrcErrors.Odd(e) ==> o == BadCrc)
            && (forall d: nat :: CrcFewBits.TwoApart(e, d) ==> (o == BadCrc <==> d % CrcOrder.ORDER != 0))
  {
    hide BootResult, Header, Unpacked, Crc16, CrcFrom, BitsOf, Message, CrcTheory.Xor, CrcErrors.Burst, CrcErrors.Odd;
    hide CrcFewBits.TwoApart;
    BootOfHeader(image, got, rest);
    CrcErrors.SameCrcIffDifference(image, got);
    var v := CrcTheory.Xor(BitsOf(image), BitsOf(got));
    if CrcErrors.Burst(Message(v)) {
      CrcErrors.BurstIsNonzero(v);
    }
    if CrcErrors.Odd(Message(v)) {
      CrcErrors.OddIsNonzero(v);
    }
    forall d: nat | CrcFewBits.TwoApart(Message(v), d)
      ensures CrcFrom(0, v) == 0 <==> d % CrcOrder.ORDER == 0
    {
      CrcFewBits.CrcOfTwo(v, d);
    }
    UnpackedIsChecked(got);
  }

  lemma UnpackedIsChecked(image: seq<byte>)
    ensures Unpacked(image) != BadCrc
  {
  }

  /** The header as bytes: the length, the CRC and the magic, all with the lowest
      byte first. */
  lemma RecordLayout(image: seq<byte>)
    requires |image| < 0x1_0000_0000
    ensures var s := Record(image);
            WordAt(s, 0) == |image| && Received(s[5], s[4]) == Crc16(image) && s[6] == 0xFF && s[7] == 0xB0
            && s[8..] == image
  {
    hide Crc16, Received, CrcLow, Word;
    var s, crc := Record(image), Crc16(image);
    assert s[..4] == Word(|image|);
    WordOfPrefix(s, |image|);
    assert s[4..6] == CrcLow(crc);
    assert s[4] == s[4..6][0] && s[5] == s[4..6][1];
    CrcLowIsReceived(crc);
  }
}
