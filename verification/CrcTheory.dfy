/** What the CRC computes and which errors it finds. Relations between
    registers are named, so that each lemma is one question about bits. */
module CrcTheory {
  import opened Crc

  function Plus8(v: bv8, w: bv8): bv8 {
    v ^ w
  }

  /** A table index in its place at the top of the register. */
  function High(i: bv8): bv16 {
    (i as bv16) << 8
  }

  function Low(crc: bv16): bv16 {
    crc & 0x00FF
  }

  /** The register with the byte v added at the top. */
  function Load(crc: bv16, v: bv8): bv16 {
    Plus(crc, High(v))
  }

  // Questions about bits.

  lemma PlusCommutes(a: bv16, b: bv16)
    ensures Plus(a, b) == Plus(b, a)
  {
  }

  lemma PlusAssociates(a: bv16, b: bv16, c: bv16)
    ensures Plus(Plus(a, b), c) == Plus(a, Plus(b, c))
  {
  }

  lemma HighLinear(v: bv8, w: bv8)
    ensures High(Plus8(v, w)) == Plus(High(v), High(w))
  {
  }

  lemma TimesXBits(a: bv16, b: bv16, c: bv16)
    requires c == a ^ b
    ensures TimesX(c) == TimesX(a) ^ TimesX(b)
  {
  }

  lemma TimesXLinear(a: bv16, b: bv16)
    ensures TimesX(Plus(a, b)) == Plus(TimesX(a), TimesX(b))
  {
    hide TimesX;
    TimesXBits(a, b, Plus(a, b));
  }

  lemma TimesX8Low(crc: bv16)
    ensures TimesX8(Low(crc)) == Up(crc)
  {
  }

  lemma HalvesBits(crc: bv16)
    ensures crc == Plus(crc & 0xFF00, Low(crc))
  {
  }

  lemma IndexBits(crc: bv16, v: bv8)
    ensures High(Index(crc, v)) == Plus(crc & 0xFF00, High(v))
  {
  }

  lemma LoadSplits(crc: bv16, v: bv8)
    ensures Load(crc, v) == Plus(High(Index(crc, v)), Low(crc))
  {
    hide Plus, High, Index, Low;
    var top, low := crc & 0xFF00, Low(crc);
    HalvesBits(crc);
    IndexBits(crc, v);
    PlusAssociates(top, low, High(v));
    PlusCommutes(low, High(v));
    PlusAssociates(top, High(v), low);
  }

  lemma TableEntry(i: bv8)
    ensures Table(i) == TimesX8(High(i))
  {
    hide Table, TimesX8;
  }

  // Steps are divisions, and linear.

  lemma Regroup(a: bv16, b: bv16, c: bv16, d: bv16)
    ensures Plus(Plus(a, b), Plus(c, d)) == Plus(Plus(a, c), Plus(b, d))
  {
    hide *;
    PlusAssociates(a, b, Plus(c, d));
    PlusAssociates(b, c, d);
    PlusCommutes(b, c);
    PlusAssociates(c, b, d);
    PlusAssociates(a, c, Plus(b, d));
  }

  lemma TimesX8Linear(a: bv16, b: bv16)
    ensures TimesX8(Plus(a, b)) == Plus(TimesX8(a), TimesX8(b))
  {
    hide TimesX, Plus;
    var a2, b2 := TimesX(TimesX(a)), TimesX(TimesX(b));
    var a4, b4 := TimesX(TimesX(a2)), TimesX(TimesX(b2));
    var a6, b6 := TimesX(TimesX(a4)), TimesX(TimesX(b4));
    TimesXLinear(a, b);
    TimesXLinear(TimesX(a), TimesX(b));
    TimesXLinear(a2, b2);
    TimesXLinear(TimesX(a2), TimesX(b2));
    TimesXLinear(a4, b4);
    TimesXLinear(TimesX(a4), TimesX(b4));
    TimesXLinear(a6, b6);
    TimesXLinear(TimesX(a6), TimesX(b6));
  }

  /** A step of the table-driven loop multiplies the loaded register by x^8. */
  lemma StepIsDivision(crc: bv16, v: bv8)
    ensures Step(crc, v) == TimesX8(Load(crc, v))
  {
    hide Plus, Up, Index, Table, TimesX8, Load, High, Low;
    var i := Index(crc, v);
    LoadSplits(crc, v);
    TimesX8Linear(High(i), Low(crc));
    TimesX8Low(crc);
    TableEntry(i);
    PlusCommutes(Up(crc), Table(i));
  }

  lemma LoadLinear(a: bv16, b: bv16, v: bv8, w: bv8)
    ensures Load(Plus(a, b), Plus8(v, w)) == Plus(Load(a, v), Load(b, w))
  {
    hide Plus, Plus8, High;
    HighLinear(v, w);
    Regroup(a, b, High(v), High(w));
  }

  lemma StepLinear(a: bv16, b: bv16, v: bv8, w: bv8)
    ensures Step(Plus(a, b), Plus8(v, w)) == Plus(Step(a, v), Step(b, w))
  {
    hide *;
    StepIsDivision(a, v);
    StepIsDivision(b, w);
    StepIsDivision(Plus(a, b), Plus8(v, w));
    LoadLinear(a, b, v, w);
    TimesX8Linear(Load(a, v), Load(b, w));
  }

  function Xor(a: seq<bv8>, b: seq<bv8>): (r: seq<bv8>)
    requires |a| == |b|
    ensures |r| == |a|
  {
    seq(|a|, i requires 0 <= i < |a| => Plus8(a[i], b[i]))
  }

  /** The CRC is linear over buffers of equal length. */
  lemma {:induction false} CrcLinear(x: bv16, y: bv16, a: seq<bv8>, b: seq<bv8>)
    requires |a| == |b|
    ensures CrcFrom(Plus(x, y), Xor(a, b)) == Plus(CrcFrom(x, a), CrcFrom(y, b))
    decreases |a|
  {
    hide Step, Plus, Plus8;
    if a != [] {
      var n := |a| - 1;
      assert Xor(a, b)[..n] == Xor(a[..n], b[..n]);
      CrcLinear(x, y, a[..n], b[..n]);
      StepLinear(CrcFrom(x, a[..n]), CrcFrom(y, b[..n]), a[n], b[n]);
    }
  }

  // The loop computes the remainder of the message times x^16.

  function Zeros(n: nat): (s: seq<bool>)
    ensures |s| == n
  {
    if n == 0 then [] else Zeros(n - 1) + [false]
  }

  /** A byte as a polynomial. */
  function Wide(v: bv8): bv16 {
    v as bv16
  }

  lemma PlusZero(a: bv16)
    ensures Plus(a, 0) == a && Plus(0, a) == a
  {
  }

  lemma WideIsHigh(v: bv8)
    ensures TimesX8(Wide(v)) == High(v)
  {
  }

  lemma RemainderOfOne(m: seq<bool>, b: bool)
    ensures Remainder(m + [b]) == Plus(TimesX(Remainder(m)), Bit(b))
  {
    hide TimesX, Plus, Bit;
    assert (m + [b])[..|m|] == m;
  }

  /** Appending zeros multiplies the remainder by a power of x. */
  lemma {:induction false} RemainderOfZeros(m: seq<bool>, n: nat)
    ensures Remainder(m + Zeros(n)) == TimesXN(Remainder(m), n)
  {
    hide Remainder, TimesX, Plus;
    if n == 0 {
      assert m + Zeros(0) == m;
    } else {
      RemainderOfZeros(m, n - 1);
      assert m + Zeros(n) == (m + Zeros(n - 1)) + [false];
      RemainderOfOne(m + Zeros(n - 1), false);
      PlusZero(TimesX(TimesXN(Remainder(m), n - 1)));
    }
  }

  /** The bits of v above the lowest n. */
  function Above(v: bv8, n: bv8): bv16
    requires n <= 8
  {
    (v >> n) as bv16
  }

  lemma ShiftIn(v: bv8)
    ensures Plus(TimesX(0), Bit(v & 0x80 != 0)) == Above(v, 7)
    ensures Plus(TimesX(Above(v, 7)), Bit(v & 0x40 != 0)) == Above(v, 6)
    ensures Plus(TimesX(Above(v, 6)), Bit(v & 0x20 != 0)) == Above(v, 5)
    ensures Plus(TimesX(Above(v, 5)), Bit(v & 0x10 != 0)) == Above(v, 4)
    ensures Plus(TimesX(Above(v, 4)), Bit(v & 0x08 != 0)) == Above(v, 3)
    ensures Plus(TimesX(Above(v, 3)), Bit(v & 0x04 != 0)) == Above(v, 2)
    ensures Plus(TimesX(Above(v, 2)), Bit(v & 0x02 != 0)) == Above(v, 1)
    ensures Plus(TimesX(Above(v, 1)), Bit(v & 0x01 != 0)) == Wide(v)
  {
  }

  /** One more bit of c, when the remainder so far is a sum. */
  lemma AppendBit(m: seq<bool>, c: seq<bool>, k: nat, r: bv16, t: bv16, t': bv16)
    requires k < |c| && Remainder(m + c[..k]) == Plus(r, t) && t' == Plus(TimesX(t), Bit(c[k]))
    ensures Remainder(m + c[..k + 1]) == Plus(TimesX(r), t')
  {
    hide *;
    OneMoreBit(m, c, k);
    RemainderOfOne(m + c[..k], c[k]);
    TimesXLinear(r, t);
    PlusAssociates(TimesX(r), TimesX(t), Bit(c[k]));
  }

  lemma OneMoreBit(m: seq<bool>, c: seq<bool>, k: nat)
    requires k < |c|
    ensures m + c[..k + 1] == (m + c[..k]) + [c[k]]
  {
  }

  lemma AllBits(m: seq<bool>, c: seq<bool>)
    ensures m + c[..0] == m && m + c[..|c|] == m + c
  {
  }

  lemma AppendByte(m: seq<bool>, v: bv8)
    ensures Remainder(m + ByteBits(v)) == Plus(TimesX8(Remainder(m)), Wide(v))
  {
    hide Remainder, TimesX, Plus, Bit, Above, Wide;
    ShiftIn(v);
    var r := Remainder(m);
    var r2 := TimesX(TimesX(r));
    var r4 := TimesX(TimesX(r2));
    var r6 := TimesX(TimesX(r4));
    var c := ByteBits(v);
    AllBits(m, c);
    PlusZero(r);
    AppendBit(m, c, 0, r, 0, Above(v, 7));
    AppendBit(m, c, 1, TimesX(r), Above(v, 7), Above(v, 6));
    AppendBit(m, c, 2, r2, Above(v, 6), Above(v, 5));
    AppendBit(m, c, 3, TimesX(r2), Above(v, 5), Above(v, 4));
    AppendBit(m, c, 4, r4, Above(v, 4), Above(v, 3));
    AppendBit(m, c, 5, TimesX(r4), Above(v, 3), Above(v, 2));
    AppendBit(m, c, 6, r6, Above(v, 2), Above(v, 1));
    AppendBit(m, c, 7, TimesX(r6), Above(v, 1), Wide(v));
  }

  /** s times x^16, modulo the polynomial. */
  function TimesX16(s: bv16): bv16 {
    TimesX8(TimesX8(s))
  }

  lemma TimesX16Linear(a: bv16, b: bv16)
    ensures TimesX16(Plus(a, b)) == Plus(TimesX16(a), TimesX16(b))
  {
    hide Plus, TimesX8;
    TimesX8Linear(a, b);
    TimesX8Linear(TimesX8(a), TimesX8(b));
  }

  lemma {:induction false} CrcIsScaled(vs: seq<bv8>)
    ensures CrcFrom(0, vs) == TimesX16(Remainder(Message(vs)))
    decreases |vs|
  {
    hide Remainder, TimesX8, Plus, Step, Load, Wide, High, ByteBits;
    if vs == [] {
      EmptyIsZero();
    } else {
      var n, v := |vs| - 1, vs[|vs| - 1];
      CrcIsScaled(vs[..n]);
      var crc, r := CrcFrom(0, vs[..n]), Remainder(Message(vs[..n]));
      StepIsDivision(crc, v);
      LoadIs(crc, v);
      AppendByte(Message(vs[..n]), v);
      WideIsHigh(v);
      TimesX8Linear(crc, High(v));
      TimesX16Linear(TimesX8(r), Wide(v));
    }
  }

  lemma LoadIs(crc: bv16, v: bv8)
    ensures Load(crc, v) == Plus(crc, High(v))
  {
  }

  lemma EmptyIsZero()
    ensures Remainder([]) == 0 && TimesX16(0) == 0
  {
  }

  lemma TimesX16IsN(s: bv16)
    ensures TimesX16(s) == TimesXN(s, 16)
  {
    hide TimesX;
    TimesXNNext(s, 0); TimesXNNext(s, 1); TimesXNNext(s, 2); TimesXNNext(s, 3);
    TimesXNNext(s, 4); TimesXNNext(s, 5); TimesXNNext(s, 6); TimesXNNext(s, 7);
    TimesXNNext(s, 8); TimesXNNext(s, 9); TimesXNNext(s, 10); TimesXNNext(s, 11);
    TimesXNNext(s, 12); TimesXNNext(s, 13); TimesXNNext(s, 14); TimesXNNext(s, 15);
  }

  lemma TimesXNNext(s: bv16, n: nat)
    ensures TimesXN(s, n + 1) == TimesX(TimesXN(s, n))
  {
    hide TimesX;
  }

  /** The table-driven loop computes the remainder of polynomial division: the
      message times x^16, by x^16 + x^12 + x^5 + 1. */
  lemma CrcIsRemainder(vs: seq<bv8>)
    ensures CrcFrom(0, vs) == Remainder(Message(vs) + Zeros(16))
  {
    hide *;
    CrcIsScaled(vs);
    TimesX16IsN(Remainder(Message(vs)));
    RemainderOfZeros(Message(vs), 16);
  }
}
