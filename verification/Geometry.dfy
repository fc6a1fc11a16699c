/** The supported DataFlash devices, and how a flash address is put into a
    command. */
module Geometry {
  import opened Arith
  import opened Bytes

  /** pages_number, pages_size, page_offset and byte_mask of a device. */
  datatype Device = Device(pages: nat, size: nat, offset: nat, mask: nat)

  const AT45DB011: byte := 0x0C
  const AT45DB041: byte := 0x1C
  const AT45DB161: byte := 0x2C
  const AT45DB321: byte := 0x34
  const AT45DB642: byte := 0x3C
  const AT45DB128: byte := 0x10

  // The commands that the driver sends.
  const DB_STATUS: byte := 0xD7
  const DB_CONTINUOUS_ARRAY_READ: byte := 0xE8
  const DB_BUF1_WRITE: byte := 0x84
  const DB_PAGE_2_BUF1_TRF: byte := 0x53
  const DB_PAGE_ERASE: byte := 0x81
  const DB_BUF1_PAGE_ERASE_PGM: byte := 0x83
  const DB_BUF1_PAGE_PGM: byte := 0x88

  /** Devices with as many pages take five command bytes. */
  const LARGE := 16384

  /** The device table; None is an unknown device. */
  function DeviceOf(dfcode: byte): Option<Device> {
    if dfcode == AT45DB011 then Some(Device(512, 264, 9, 0x100))
    else if dfcode == AT45DB041 then Some(Device(2048, 264, 9, 0x100))
    else if dfcode == AT45DB161 then Some(Device(4096, 528, 10, 0x300))
    else if dfcode == AT45DB321 then Some(Device(8192, 528, 10, 0x300))
    else if dfcode == AT45DB642 then Some(Device(8192, 1056, 11, 0x700))
    else if dfcode == AT45DB128 then Some(Device(16384, 1056, 11, 0x700))
    else None
  }

  /** The bits that two numbers have in common. */
  function And(x: nat, y: nat): nat {
    if x == 0 || y == 0 then 0 else 2 * And(x / 2, y / 2) + (if x % 2 == 1 && y % 2 == 1 then 1 else 0)
  }

  /** The number of bytes of a device. */
  function Total(d: Device): nat {
    d.pages * d.size
  }

  /** The number of addresses that a command can hold. */
  function Limit(d: Device): nat {
    if d.pages >= LARGE then 0x1000_0000 else 0x100_0000
  }

  /** The number of pages that a command can name. */
  function Reach(d: Device): (r: nat)
    requires d.offset <= 24
    ensures r >= 1
  {
    Pow2((if d.pages >= LARGE then 28 else 24) - d.offset)
  }

  /** What the command format needs of a device: a page fits in its address
      field, all pages fit in the command, and the byte mask holds the bits of
      the address field above the low byte. */
  predicate Addressable(d: Device) {
    1 <= d.size <= Pow2(d.offset) && 8 <= d.offset <= 24 && 1 <= d.pages &&
    d.pages * Pow2(d.offset) <= Limit(d) &&
    d.mask == 256 * (Pow2(d.offset - 8) - 1)
  }

  /** Every device of the table meets these conditions, and holds all regions
      of the boot loader. */
  lemma TableIsAddressable(dfcode: byte)
    requires DeviceOf(dfcode).Some?
    ensures var d := DeviceOf(dfcode).value;
            Addressable(d) && 512 * 264 <= Total(d) <= 16384 * 1056 && d.size <= 1056
  {
    assert Pow2(1) == 2 && Pow2(2) == 4 && Pow2(3) == 8;
    assert Pow2(6) == 64;
    assert Pow2(9) == 512 && Pow2(10) == 1024 && Pow2(11) == 2048;
  }

  /** The address in the form the device expects: the page above page_offset
      bits for the byte. */
  function PageAddress(d: Device, a: nat): nat
    requires d.size > 0
  {
    hide Pow2;
    DivMod(a, d.size);
    var page: nat := a / d.size;
    page * Pow2(d.offset) + a % d.size
  }

  /** The address bytes of a command. */
  function AddressBytes(d: Device, a: nat): seq<byte>
    requires d.size > 0
  {
    var adr := PageAddress(d, a);
    if d.pages >= LARGE then [adr / 0x100_0000 % 16, adr / 0x1_0000 % 256, adr / 256 % 256, adr % 256]
    else [adr / 0x1_0000 % 256, adr / 256 % 256, adr % 256]
  }

  /** The address bytes of a buffer command. */
  function BufferBytes(d: Device, a: nat): seq<byte>
    requires d.mask < 0x1_0000 && a < 0x1_0000
  {
    AndBound(a, d.mask);
    var low: seq<byte> := [And(a, d.mask) / 256, a % 256];
    if d.pages >= LARGE then [0, 0] + low else [0] + low
  }

  lemma AndBound(x: nat, y: nat)
    ensures And(x, y) <= y
  {
  }

  /** How a device reads address bytes. */
  function Value(bytes: seq<byte>): nat {
    if bytes == [] then 0 else Value(bytes[..|bytes| - 1]) * 256 + bytes[|bytes| - 1] as int
  }

  function PageOf(d: Device, bytes: seq<byte>): nat {
    DivMod(Value(bytes), Pow2(d.offset));
    Value(bytes) / Pow2(d.offset)
  }

  function ByteOf(d: Device, bytes: seq<byte>): nat {
    Value(bytes) % Pow2(d.offset)
  }

  lemma ValueOfThree(a: byte, b: byte, c: byte)
    ensures Value([a, b, c]) == (a as int * 256 + b as int) * 256 + c as int
  {
    var s := [a, b, c];
    assert s[..2] == [a, b] && s[..2][..1] == [a] && s[..1][..0] == [];
    assert Value(s[..1]) == a as int;
    assert Value(s[..2]) == a as int * 256 + b as int;
  }

  lemma ValueOfFour(a: byte, b: byte, c: byte, d: byte)
    ensures Value([a, b, c, d]) == ((a as int * 256 + b as int) * 256 + c as int) * 256 + d as int
  {
    hide Value;
    ValueOfThree(a, b, c);
    ValueOfMore([a, b, c], d);
    assert [a, b, c] + [d] == [a, b, c, d];
  }

  lemma ValueOfMore(s: seq<byte>, b: byte)
    ensures Value(s + [b]) == Value(s) * 256 + b as int
  {
    assert (s + [b])[..|s|] == s;
  }

  /** Three bytes hold a number modulo 2^24, four modulo 2^28. */
  lemma ThreeBytes(n: nat)
    ensures Value([n / 0x1_0000 % 256, n / 256 % 256, n % 256]) == n % 0x100_0000
  {
    hide Value;
    ValueOfThree(n / 0x1_0000 % 256, n / 256 % 256, n % 256);
    Digits(n);
    Digits(n / 256);
    LowDigits(n / 0x1_0000, n / 256, n, 256);
  }

  lemma FourBytes(n: nat)
    ensures Value([n / 0x100_0000 % 16, n / 0x1_0000 % 256, n / 256 % 256, n % 256]) == n % 0x1000_0000
  {
    hide Value;
    ValueOfFour(n / 0x100_0000 % 16, n / 0x1_0000 % 256, n / 256 % 256, n % 256);
    Digits(n);
    LowDigits(n / 0x1_0000, n / 256, n, 16);
  }

  lemma Digits(n: nat)
    ensures n / 0x1_0000 == n / 256 / 256 && n / 0x100_0000 == n / 256 / 256 / 256
  {
  }

  /** A number modulo 2^16 times m, from its digits. */
  lemma LowDigits(n2: nat, n1: nat, n0: nat, m: nat)
    requires n1 == n0 / 256 && n2 == n1 / 256 && (m == 256 || m == 16)
    ensures m == 256 ==> (n2 % 256 * 256 + n1 % 256) * 256 + n0 % 256 == n0 % 0x100_0000
    ensures m == 16 ==>
      ((n2 / 256 % 16 * 256 + n2 % 256) * 256 + n1 % 256) * 256 + n0 % 256 == n0 % 0x1000_0000
  {
    var n3 := n2 / 256;
    LastDigit(n3, n2 % 256, n2);
    LastDigit(n2, n1 % 256, n1);
    LastDigit(n1, n0 % 256, n0);
    var low := (n2 % 256 * 256 + n1 % 256) * 256 + n0 % 256;
    DivModUnique(n0, 0x100_0000, n3, low);
    var h, l := n3 / 16, n3 % 16;
    assert n3 == h * 16 + l;
    DivModUnique(n0, 0x1000_0000, h, l * 0x100_0000 + low);
  }

  lemma LastDigit(q: nat, r: nat, n: nat)
    requires q == n / 256 && r == n % 256
    ensures n == q * 256 + r && r < 256
  {
  }

  lemma OneByte()
    ensures Pow2(8) == 256 && Pow2(4) == 16
  {
    assert Pow2(4) == 16;
  }

  lemma LimitsArePowers()
    ensures Pow2(24) == 0x100_0000 && Pow2(28) == 0x1000_0000
  {
    OneByte();
    Pow2Split(8, 8);
    Pow2Split(16, 8);
    Pow2Split(24, 4);
  }

  lemma LimitSplits(d: Device)
    requires d.offset <= 24
    ensures Limit(d) == Reach(d) * Pow2(d.offset)
  {
    hide Pow2;
    LimitsArePowers();
    Pow2Split((if d.pages >= LARGE then 28 else 24) - d.offset, d.offset);
  }

  /** The address bytes hold the page address, as far as they reach. */
  lemma AddressValue(d: Device, a: nat)
    requires d.size > 0
    ensures Value(AddressBytes(d, a)) == PageAddress(d, a) % Limit(d)
  {
    hide Value, PageAddress;
    var adr := PageAddress(d, a);
    if d.pages >= LARGE {
      FourBytes(adr);
    } else {
      ThreeBytes(adr);
    }
  }

  /** What any address is read back as: the byte in the page, and the page as
      far as the command reaches. */
  lemma AddressInCommand(d: Device, a: nat)
    requires Addressable(d)
    ensures PageOf(d, AddressBytes(d, a)) == a / d.size % Reach(d) && ByteOf(d, AddressBytes(d, a)) == a % d.size
    ensures 0 <= a / d.size
  {
    hide Pow2, Value, Limit, Reach, AddressBytes;
    var p, r, adr := Pow2(d.offset), Reach(d), PageAddress(d, a);
    DivMod(a, d.size);
    var q: nat := a / d.size;
    DivMod(q, r);
    LimitSplits(d);
    AddressValue(d, a);
    Scale(q % r, a % d.size, p, r);
    Regroup(q, r, p, a % d.size);
    DivModUnique(adr, r * p, q / r, q % r * p + a % d.size);
    DivModUnique(q % r * p + a % d.size, p, q % r, a % d.size);
  }

  lemma Regroup(q: nat, r: nat, p: nat, b: nat)
    requires r >= 1
    ensures 0 <= q / r && q * p + b == q / r * (r * p) + (q % r * p + b)
  {
    DivMod(q, r);
    var h, l := q / r, q % r;
    assert q * p == (h * r + l) * p;
    assert (h * r + l) * p == h * r * p + l * p;
    assert h * r * p == h * (r * p);
  }

  /** The page of an address in the device is one that a command reaches. */
  lemma PagesAreReached(d: Device, q: nat)
    requires Addressable(d) && q < d.pages
    ensures q < Reach(d) && q % Reach(d) == q
  {
    hide Pow2, Limit, Reach;
    LimitSplits(d);
    assert (q + 1) * Pow2(d.offset) == q * Pow2(d.offset) + Pow2(d.offset);
    Monotone(q + 1, d.pages, Pow2(d.offset));
    if q >= Reach(d) {
      Monotone(Reach(d), q, Pow2(d.offset));
      assert false;
    }
    DivModUnique(q, Reach(d), 0, q);
  }

  /** The address in a command is read back as the page and the byte in it, if
      and only if the command reaches the page; it reaches all of the device. */
  lemma AddressIsLossless(d: Device, a: nat)
    requires Addressable(d)
    ensures PageOf(d, AddressBytes(d, a)) == a / d.size && ByteOf(d, AddressBytes(d, a)) == a % d.size
      <==> a / d.size < Reach(d)
    ensures a < Total(d) ==> 0 <= a / d.size < d.pages <= Reach(d)
  {
    hide Pow2, Value, Limit, Reach, AddressBytes;
    AddressInCommand(d, a);
    DivMod(a / d.size, Reach(d));
    if a / d.size < Reach(d) {
      DivModUnique(a / d.size, Reach(d), 0, a / d.size);
    }
    PagesAreReached(d, d.pages - 1);
    if a < Total(d) {
      DivBelow(a, d.size, d.pages);
    }
  }

  /** Masking with 2^k - 1 keeps the lowest k bits. */
  lemma {:induction false} AndLow(x: nat, k: nat)
    requires x < Pow2(k)
    ensures And(x, Pow2(k) - 1) == x
  {
    if x > 0 {
      AndLow(x / 2, k - 1);
    }
  }

  lemma AndTwice(x: nat, m: nat)
    ensures And(x, 2 * m) == 2 * And(x / 2, m)
  {
    assert 2 * m / 2 == m && 2 * m % 2 == 0;
  }

  lemma AndTwoBits(x: nat, m: nat)
    ensures And(x, 4 * m) == 4 * And(x / 4, m)
  {
    hide And;
    HalfTwice(x);
    AndTwice(x, 2 * m);
    AndTwice(x / 2, m);
    assert 2 * (2 * m) == 4 * m;
  }

  lemma HalfTwice(x: nat)
    ensures x / 2 / 2 == x / 4
  {
  }

  lemma AndNibble(x: nat, m: nat)
    ensures And(x, 16 * m) == 16 * And(x / 16, m)
  {
    hide And;
    AndTwoBits(x, 4 * m);
    AndTwoBits(x / 4, m);
  }

  /** A mask whose low byte is clear only sees the bits above it. */
  lemma AndAboveByte(x: nat, m: nat)
    ensures And(x, 256 * m) == 256 * And(x / 256, m)
  {
    hide And;
    AndNibble(x, 16 * m);
    AndNibble(x / 16, m);
  }

  /** The address of a buffer command is read back, too: the byte mask keeps
      all the bits it has above the low byte. */
  lemma BufferAddressIsLossless(d: Device, a: nat)
    requires Addressable(d) && d.size <= 0x1_0000 && d.mask < 0x1_0000 && a < d.size
    ensures ByteOf(d, BufferBytes(d, a)) == a
  {
    hide And, Pow2, Value;
    var k := d.offset - 8;
    OneByte();
    Pow2Split(k, 8);
    AndAboveByte(a, Pow2(k) - 1);
    DivBelow(a, 256, Pow2(k));
    AndLow(a / 256, k);
    BufferValue(d, a);
    DivModUnique(a, Pow2(d.offset), 0, a);
  }

  lemma {:induction false} Pow2Split(j: nat, k: nat)
    ensures Pow2(j + k) == Pow2(j) * Pow2(k)
  {
    if j > 0 {
      Pow2Split(j - 1, k);
    }
  }

  lemma BufferValue(d: Device, a: nat)
    requires d.mask < 0x1_0000 && a < 0x1_0000 && And(a, d.mask) / 256 == a / 256
    ensures Value(BufferBytes(d, a)) == a
  {
    hide And;
    var s := BufferBytes(d, a);
    var n := |s|;
    assert s[..n - 1][..n - 2] == s[..n - 2];
    assert Value(s[..n - 2]) == 0 by {
      assert Value([]) == 0;
      if n == 4 {
        assert s[..2][..1] == [0] && s[..1][..0] == [];
      }
    }
    assert Value(s[..n - 1]) == s[n - 2] as int;
  }
}
