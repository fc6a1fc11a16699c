/** Which lines an upload takes an image from, and what it stores. */
module Uploads {
  import opened Bytes
  import opened Boot
  import opened Board
  import opened Xmodem
  import opened XmodemLayout
  import opened Menu
  import Image

  /** What upload_uboot accepts may start with a block. */
  lemma AcceptedUboot(image: seq<byte>)
    ensures UbootImageOk(image) <==> 256 < |image| <= 123280 && Image.StartsBlock(image)
  {
  }

  ghost predicate CarriesImage(line: seq<byte>, image: seq<byte>) {
    exists rest :: CarriesAt(line, image, rest)
  }

  /** The loader that is taken from a line. */
  lemma LoaderFromDecides(line: seq<byte>, image: seq<byte>)
    ensures LoaderFrom(line) == Some(image) <==>
      CarriesImage(line, image) && 256 < |image| < 11352 && VectorsOk(image)
  {
    hide Receive, CarriesAt, VectorsOk;
    TakenFromLine(line, image, LOADER_LEN);
  }

  /** The u-boot image that is taken from a line. */
  lemma UbootFromDecides(line: seq<byte>, image: seq<byte>)
    ensures UbootFrom(line) == Some(image) <==>
      CarriesImage(line, image) && 256 < |image| <= 123280 && Image.StartsBlock(image)
  {
    hide Receive, CarriesAt, UbootImageOk;
    AcceptedUboot(image);
    TakenFromLine(line, image, UBOOT_LEN - UBOOT_HDR_SIZE);
  }

  lemma TakenFromLine(line: seq<byte>, image: seq<byte>, room: nat)
    ensures (Receive(line, 1, room).Complete? && Receive(line, 1, room).data == image) <==>
      (CarriesImage(line, image) && |image| <= room)
  {
    hide Receive, CarriesAt;
    var r := Receive(line, 1, room);
    if r.Complete? {
      ReceiveIsLayout(line, r.data, r.rest, room);
    }
    if rest :| CarriesAt(line, image, rest) {
      ReceiveIsLayout(line, image, rest, room);
    }
  }

  /** The loader that is stored is the one that was sent, but for the geometry in
      the slot of vector 6. */
  lemma LoaderRecordLayout(image: seq<byte>)
    requires |image| >= 0x18
    ensures var s := LoaderRecord(image);
            |s| == |image| && s[0x14] == 0x18 && s[0x15] == 0x80 && s[0x16] == 0x21 && s[0x17] == 0x04
            && forall i :: 0 <= i < |s| && !(0x14 <= i < 0x18) ==> s[i] == image[i]
  {
    assert GEOMETRY == 0x421_8018;
  }
}
