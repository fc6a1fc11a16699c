/** The chips of the family, apart from what the driver takes them for. */
module Parts {
  import opened Arith
  import opened Bytes
  import opened Geometry

  /** A chip of so many megabits, in pages of 256, 512 or 1024 bytes and one
      spare byte for each 32 of them. */
  datatype Part = Part(megabits: nat, page: PageSize)

  datatype PageSize = Bytes256 | Bytes512 | Bytes1024

  /** The chip whose status register has this density code in bits 5 to 2. */
  function PartOf(code: byte): Option<Part> {
    match code
    case 0x0C => Some(Part(1, Bytes256))
    case 0x1C => Some(Part(4, Bytes256))
    case 0x2C => Some(Part(16, Bytes512))
    case 0x34 => Some(Part(32, Bytes512))
    case 0x3C => Some(Part(64, Bytes1024))
    case 0x10 => Some(Part(128, Bytes1024))
    case _ => None
  }

  /** The geometry of a chip. A byte address has one bit more than it needs for a
      page without its spare bytes; the mask is that of its bits above the low
      byte. */
  function GeometryOf(p: Part): Device {
    match p.page
    case Bytes256 => Device(512 * p.megabits, 264, 9, 0x100)
    case Bytes512 => Device(256 * p.megabits, 528, 10, 0x300)
    case Bytes1024 => Device(128 * p.megabits, 1056, 11, 0x700)
  }

  /** The driver's table has exactly these chips, with their geometry: so many
      megabits and the spare bytes, in pages whose addresses have the bits that
      they need. It takes five command bytes exactly for those whose addresses
      need more than 24 bits. */
  lemma TableIsRight(code: byte)
    ensures DeviceOf(code).Some? <==> PartOf(code).Some?
    ensures DeviceOf(code).Some? ==>
      var p, d := PartOf(code).value, DeviceOf(code).value;
      d == GeometryOf(p) && Total(d) == p.megabits * 0x2_1000 && 64 * d.size == 33 * Pow2(d.offset)
      && (d.pages >= LARGE <==> d.pages * Pow2(d.offset) > 0x100_0000)
  {
    assert Pow2(3) == 8;
    assert Pow2(6) == 64;
    assert Pow2(9) == 512;
    assert Pow2(11) == 2048;
  }
}
