/** The transmission errors that the CRC finds. */
module CrcErrors {
  import opened Bytes
  import opened Crc
  import opened CrcTheory

  // Bursts.

  lemma TimesXZero(s: bv16)
    ensures TimesX(s) == 0 <==> s == 0
  {
  }

  lemma {:induction false} TimesXNZero(s: bv16, n: nat)
    ensures TimesXN(s, n) == 0 <==> s == 0
  {
    hide TimesX;
    if n > 0 {
      TimesXNZero(s, n - 1);
      TimesXZero(TimesXN(s, n - 1));
    }
  }

  /** Leading zeros do not matter. */
  lemma {:induction false} RemainderAfterZeros(i: nat, p: seq<bool>)
    ensures Remainder(Zeros(i) + p) == Remainder(p)
    decreases |p|
  {
    hide TimesX, Plus, Bit, Remainder;
    if p == [] {
      assert Zeros(i) + p == [] + Zeros(i);
      RemainderOfZeros([], i);
      EmptyIsZero();
      TimesXNZero(0, i);
    } else {
      var n := |p| - 1;
      RemainderAfterZeros(i, p[..n]);
      RemainderOfOne(p[..n], p[n]);
      RemainderOfOne(Zeros(i) + p[..n], p[n]);
      assert p[..n] + [p[n]] == p;
      assert Zeros(i) + p[..n] + [p[n]] == Zeros(i) + p;
    }
  }

  /** Eight bits make a byte. */
  function ByteOf(p: seq<bool>): bv8
    requires |p| == 8
  {
    Pack(p[7], p[6], p[5], p[4], p[3], p[2], p[1], p[0])
  }

  lemma ByteBitsOf(p: seq<bool>)
    requires |p| == 8
    ensures ByteBits(ByteOf(p)) == p
  {
  }

  lemma TwoBytesBits(x: bv8, y: bv8, s: bv16)
    requires s == Plus(High(x), Wide(y))
    ensures s == 0 <==> x == 0 && y == 0
  {
  }

  lemma ZeroByte(v: bv8)
    ensures v == 0 <==> true !in ByteBits(v)
  {
  }

  /** Sixteen bits are their own remainder. */
  lemma RemainderOfTwoBytes(p: seq<bool>)
    requires |p| == 16
    ensures Remainder(p) == Plus(High(ByteOf(p[..8])), Wide(ByteOf(p[8..])))
  {
    hide Remainder, TimesX8, Plus, High, Wide, ByteBits, ByteOf;
    var x, y := ByteOf(p[..8]), ByteOf(p[8..]);
    ByteBitsOf(p[..8]);
    ByteBitsOf(p[8..]);
    assert p == ([] + ByteBits(x)) + ByteBits(y);
    AppendByte([], x);
    AppendByte([] + ByteBits(x), y);
    EmptyIsZero();
    ZeroTimesX8();
    PlusZero(Wide(x));
    WideIsHigh(x);
  }

  lemma ZeroTimesX8()
    ensures TimesX8(0) == 0
  {
  }

  /** A string of at most 16 bits, not all zero, is not divisible. */
  lemma ShortIsNonzero(p: seq<bool>)
    requires |p| <= 16 && true in p
    ensures Remainder(p) != 0
  {
    hide Remainder, Plus, High, Wide, ByteBits, ByteOf;
    var q := Zeros(16 - |p|) + p;
    RemainderAfterZeros(16 - |p|, p);
    RemainderOfTwoBytes(q);
    var x, y := ByteOf(q[..8]), ByteOf(q[8..]);
    TwoBytesBits(x, y, Remainder(q));
    ZeroByte(x);
    ZeroByte(y);
    ByteBitsOf(q[..8]);
    ByteBitsOf(q[8..]);
    assert q == q[..8] + q[8..];
    assert true in q;
  }

  /** The bits that are set lie within 16 places of each other. */
  ghost predicate Burst(bits: seq<bool>) {
    exists i: nat, p: seq<bool>, k: nat :: BurstAt(bits, i, p, k)
  }

  ghost predicate BurstAt(bits: seq<bool>, i: nat, p: seq<bool>, k: nat) {
    |p| <= 16 && true in p && bits == Zeros(i) + p + Zeros(k)
  }

  lemma ZerosJoin(m: seq<bool>, k: nat, n: nat)
    ensures (m + Zeros(k)) + Zeros(n) == m + Zeros(k + n)
  {
    if n > 0 {
      ZerosJoin(m, k, n - 1);
      assert (m + Zeros(k)) + Zeros(n) == ((m + Zeros(k)) + Zeros(n - 1)) + [false];
      assert m + Zeros(k + n) == (m + Zeros(k + n - 1)) + [false];
    } else {
      assert m + Zeros(k) + Zeros(0) == m + Zeros(k);
    }
  }

  /** The CRC of a burst is not zero. */
  lemma BurstIsNonzero(e: seq<bv8>)
    requires Burst(Message(e))
    ensures CrcFrom(0, e) != 0
  {
    hide Message, Remainder, CrcFrom, TimesXN, Zeros;
    var i: nat, p, k: nat :| BurstAt(Message(e), i, p, k);
    CrcIsRemainder(e);
    ZerosJoin(Zeros(i) + p, k, 16);
    RemainderOfZeros(Zeros(i) + p, k + 16);
    RemainderAfterZeros(i, p);
    ShortIsNonzero(p);
    TimesXNZero(Remainder(p), k + 16);
  }

  // The residue.

  lemma ReceivedBits(high: byte, low: byte)
    ensures Received(high, low) == Plus(High(Bits(high)), Wide(Bits(low)))
  {
    hide Bits;
  }

  lemma PlusSelf(a: bv16)
    ensures Plus(a, a) == 0
  {
  }

  lemma ZeroMeansEqual(a: bv16, b: bv16)
    ensures Plus(a, b) == 0 ==> a == b
  {
  }

  lemma EqualIffZero(a: bv16, b: bv16)
    ensures Plus(a, b) == 0 <==> a == b
  {
    hide Plus;
    PlusSelf(a);
    ZeroMeansEqual(a, b);
  }

  lemma TimesX8Zero(s: bv16)
    ensures TimesX8(s) == 0 <==> s == 0
  {
    hide TimesX, TimesXN;
    TimesX8IsN(s);
    TimesXNZero(s, 8);
  }

  lemma TimesX8IsN(s: bv16)
    ensures TimesX8(s) == TimesXN(s, 8)
  {
    hide TimesX;
    TimesXNNext(s, 0); TimesXNNext(s, 1); TimesXNNext(s, 2); TimesXNNext(s, 3);
    TimesXNNext(s, 4); TimesXNNext(s, 5); TimesXNNext(s, 6); TimesXNNext(s, 7);
  }

  /** Two steps over the CRC bytes reach zero exactly from the register they
      stand for. */
  lemma TwoStepsToZero(c: bv16, high: byte, low: byte)
    ensures Step(Step(c, Bits(high)), Bits(low)) == 0 <==> c == Received(high, low)
  {
    hide Step, TimesX8, Plus, High, Wide, Bits, Received, Load;
    var h, l := Bits(high), Bits(low);
    StepIsDivision(c, h);
    StepIsDivision(Step(c, h), l);
    LoadIs(c, h);
    LoadIs(Step(c, h), l);
    WideIsHigh(l);
    TimesX8Linear(Load(c, h), Wide(l));
    TimesX8Zero(TimesX8(Plus(Load(c, h), Wide(l))));
    TimesX8Zero(Plus(Load(c, h), Wide(l)));
    PlusAssociates(c, High(h), Wide(l));
    EqualIffZero(c, Plus(High(h), Wide(l)));
    ReceivedBits(high, low);
  }

  /** A packet body checks exactly when the CRC over all of it is zero. */
  lemma ChecksIffZero(body: seq<byte>)
    requires 2 <= |body|
    ensures Checks(body) <==> Crc16(body) == 0
  {
    hide Step, Bits, Received;
    var n, vs := |body| - 2, BitsOf(body);
    assert vs[..n] == BitsOf(body[..n]);
    assert vs[..n + 1][..n] == vs[..n];
    assert CrcFrom(0, vs[..n + 1]) == Step(CrcFrom(0, vs[..n]), Bits(body[n]));
    assert CrcFrom(0, vs) == Step(CrcFrom(0, vs[..n + 1]), Bits(body[n + 1]));
    TwoStepsToZero(Crc16(body[..n]), body[n], body[n + 1]);
  }

  lemma SenderBits(crc: bv16)
    ensures Plus(High((crc >> 8) as bv8), Wide((crc & 0x00FF) as bv8)) == crc
  {
  }

  /** The CRC bytes stand for the CRC. */
  lemma SenderCrc(crc: bv16)
    ensures Received(CrcBytes(crc)[0], CrcBytes(crc)[1]) == crc
  {
    hide Plus, High, Wide, Bits, OfBits, Received;
    var h, l := (crc >> 8) as bv8, (crc & 0x00FF) as bv8;
    BitsOfBits(h);
    BitsOfBits(l);
    ReceivedBits(OfBits(h), OfBits(l));
    SenderBits(crc);
  }

  /** What a sender appends, a receiver accepts. */
  lemma SentChecks(data: seq<byte>)
    ensures Checks(data + CrcBytes(Crc16(data)))
  {
    hide Crc16, CrcBytes, Received;
    var crc := Crc16(data);
    SenderCrc(crc);
    assert (data + CrcBytes(crc))[..|data|] == data;
  }

  lemma TopBits(h: bv8, l: bv8, c: bv16)
    requires c == Plus(High(h), Wide(l))
    ensures (c >> 8) as bv8 == h && (c & 0x00FF) as bv8 == l
  {
  }

  /** What a receiver accepts, a sender appends. */
  lemma AcceptedCrcBytes(crc: bv16, high: byte, low: byte)
    requires crc == Received(high, low)
    ensures CrcBytes(crc) == [high, low]
  {
    hide Plus, High, Wide, Bits, OfBits, Received;
    ReceivedBits(high, low);
    TopBits(Bits(high), Bits(low), crc);
    OfBitsBits(high);
    OfBitsBits(low);
  }

  // Which errors are found.

  /** The bits in which two buffers differ. */
  ghost function Difference(a: seq<byte>, b: seq<byte>): seq<bool>
    requires |a| == |b|
  {
    Message(Xor(BitsOf(a), BitsOf(b)))
  }

  lemma ZeroPlusZero()
    ensures Plus(0, 0) == 0
  {
  }

  /** Two buffers have the same CRC exactly when that of their difference is
      zero. */
  lemma SameCrcIffDifference(a: seq<byte>, b: seq<byte>)
    requires |a| == |b|
    ensures Crc16(a) == Crc16(b) <==> CrcFrom(0, Xor(BitsOf(a), BitsOf(b))) == 0
  {
    hide BitsOf, CrcFrom, Xor, Plus;
    ZeroPlusZero();
    CrcLinear(0, 0, BitsOf(a), BitsOf(b));
    EqualIffZero(Crc16(a), Crc16(b));
  }

  /** Against a body that checks, another one checks exactly when the CRC of
      their difference is zero. */
  lemma ChecksIffDifference(sent: seq<byte>, got: seq<byte>)
    requires |sent| == |got| && 2 <= |sent| && Checks(sent)
    ensures Checks(got) <==> CrcFrom(0, Xor(BitsOf(sent), BitsOf(got))) == 0
  {
    hide Checks, BitsOf, CrcFrom, Xor;
    ChecksIffZero(sent);
    ChecksIffZero(got);
    SameCrcIffDifference(sent, got);
  }

  /** Every burst of at most 16 bits is found, wherever it falls. */
  lemma BurstIsFound(sent: seq<byte>, got: seq<byte>)
    requires |sent| == |got| && 2 <= |sent| && Checks(sent) && Burst(Difference(sent, got))
    ensures !Checks(got)
  {
    hide Checks, BitsOf, CrcFrom, Xor, Message, Burst;
    ChecksIffDifference(sent, got);
    BurstIsNonzero(Xor(BitsOf(sent), BitsOf(got)));
  }

  /** Any error confined to two adjacent bytes is a burst. */
  lemma AdjacentIsBurst(a: seq<byte>, b: seq<byte>, i: nat)
    requires |a| == |b| && i + 2 <= |a| && a[i..i + 2] != b[i..i + 2]
    requires a[..i] == b[..i] && a[i + 2..] == b[i + 2..]
    ensures Burst(Difference(a, b))
  {
    hide Bits, ByteBits, Message, Plus8;
    var e := Xor(BitsOf(a), BitsOf(b));
    forall j | 0 <= j < |a| && !(i <= j < i + 2)
      ensures e[j] == 0
    {
      assert a[j] == b[j] by { SameOutside(a, b, i, j); }
      Plus8Self(Bits(a[j]));
    }
    assert e[i] != 0 || e[i + 1] != 0 by {
      assert a[i] != b[i] || a[i + 1] != b[i + 1];
      Plus8Differ(a[i], b[i]);
      Plus8Differ(a[i + 1], b[i + 1]);
    }
    MessageOfWindow(e, i);
    WindowIsBurst(e, i);
  }

  lemma SameOutside(a: seq<byte>, b: seq<byte>, i: nat, j: nat)
    requires |a| == |b| && i + 2 <= |a| && j < |a| && !(i <= j < i + 2)
    requires a[..i] == b[..i] && a[i + 2..] == b[i + 2..]
    ensures a[j] == b[j]
  {
    if j < i {
      assert a[..i][j] == b[..i][j];
    } else {
      assert a[i + 2..][j - (i + 2)] == b[i + 2..][j - (i + 2)];
    }
  }

  lemma Plus8Self(v: bv8)
    ensures Plus8(v, v) == 0
  {
  }

  lemma Plus8Zero(v: bv8, w: bv8)
    ensures Plus8(v, w) == 0 ==> v == w
  {
  }

  lemma Plus8Differ(x: byte, y: byte)
    ensures Plus8(Bits(x), Bits(y)) == 0 ==> x == y
  {
    hide Bits, OfBits, Plus8;
    Plus8Zero(Bits(x), Bits(y));
    OfBitsBits(x);
    OfBitsBits(y);
  }

  /** The bits of a buffer that is zero except at two places. */
  ghost predicate Window(e: seq<bv8>, i: nat) {
    i + 2 <= |e| && forall j :: 0 <= j < |e| && !(i <= j < i + 2) ==> e[j] == 0
  }

  lemma {:induction false} MessageOfZeros(e: seq<bv8>)
    requires forall j :: 0 <= j < |e| ==> e[j] == 0
    ensures Message(e) == Zeros(8 * |e|)
    decreases |e|
  {
    if e != [] {
      var n := |e| - 1;
      MessageOfZeros(e[..n]);
      EightZeros();
      ZerosJoin([], 8 * n, 8);
      assert [] + Zeros(8 * n) == Zeros(8 * n);
      assert [] + Zeros(8 * n + 8) == Zeros(8 * n + 8);
    }
  }

  lemma EightZeros()
    ensures ByteBits(0) == Zeros(8)
  {
    assert Zeros(4) == [false, false, false, false];
    assert Zeros(8) == Zeros(4) + [false, false, false, false];
  }

  lemma MessageLast(e: seq<bv8>)
    requires e != []
    ensures Message(e) == Message(e[..|e| - 1]) + ByteBits(e[|e| - 1])
  {
    hide ByteBits;
  }

  lemma NoZeros(m: seq<bool>)
    ensures m + Zeros(0) == m
  {
  }

  lemma ZerosInFront(e: seq<bv8>, i: nat)
    requires Window(e, i)
    ensures Message(e[..i]) == Zeros(8 * i)
  {
    hide Message, Zeros;
    var z := e[..i];
    forall j | 0 <= j < |z|
      ensures z[j] == 0
    {
      assert z[j] == e[j];
    }
    MessageOfZeros(z);
  }

  lemma WindowEnds(e: seq<bv8>, i: nat)
    requires Window(e, i) && |e| == i + 2
    ensures Message(e) == Zeros(8 * i) + (ByteBits(e[i]) + ByteBits(e[i + 1]))
  {
    hide Message, Zeros, ByteBits, Window;
    MessageLast(e);
    MessageLast(e[..i + 1]);
    assert e[..i + 1][..i] == e[..i];
    ZerosInFront(e, i);
    Associates(Zeros(8 * i), ByteBits(e[i]), ByteBits(e[i + 1]));
  }

  lemma Associates(a: seq<bool>, b: seq<bool>, c: seq<bool>)
    ensures (a + b) + c == a + (b + c)
  {
  }

  lemma WindowShorter(e: seq<bv8>, i: nat)
    requires Window(e, i) && |e| > i + 2
    ensures Window(e[..|e| - 1], i) && e[|e| - 1] == 0
    ensures e[..|e| - 1][i] == e[i] && e[..|e| - 1][i + 1] == e[i + 1]
  {
  }

  lemma {:induction false} MessageOfWindow(e: seq<bv8>, i: nat)
    requires Window(e, i)
    ensures Message(e) == Zeros(8 * i) + (ByteBits(e[i]) + ByteBits(e[i + 1])) + Zeros(8 * (|e| - i - 2))
    decreases |e|
  {
    hide Message, Zeros, ByteBits, Window;
    WindowFits(e, i);
    var m := Zeros(8 * i) + (ByteBits(e[i]) + ByteBits(e[i + 1]));
    if |e| == i + 2 {
      WindowEnds(e, i);
      NoZeros(m);
    } else {
      var n := |e| - 1;
      WindowShorter(e, i);
      MessageOfWindow(e[..n], i);
      MessageLast(e);
      EightZeros();
      ZerosJoin(m, 8 * (n - i - 2), 8);
    }
  }

  lemma WindowFits(e: seq<bv8>, i: nat)
    requires Window(e, i)
    ensures i + 2 <= |e|
  {
  }

  lemma WindowIsBurst(e: seq<bv8>, i: nat)
    requires Window(e, i) && (e[i] != 0 || e[i + 1] != 0)
    requires Message(e) == Zeros(8 * i) + (ByteBits(e[i]) + ByteBits(e[i + 1])) + Zeros(8 * (|e| - i - 2))
    ensures Burst(Message(e))
  {
    hide Message, ByteBits, Zeros;
    var p := ByteBits(e[i]) + ByteBits(e[i + 1]);
    ZeroByte(e[i]);
    ZeroByte(e[i + 1]);
    ByteBitsLength(e[i]);
    ByteBitsLength(e[i + 1]);
    assert BurstAt(Message(e), 8 * i, p, 8 * (|e| - i - 2));
  }

  lemma ByteBitsLength(v: bv8)
    ensures |ByteBits(v)| == 8
  {
  }

  /** Any error confined to two adjacent bytes of a packet body is found. */
  lemma AdjacentBytesAreFound(sent: seq<byte>, got: seq<byte>, i: nat)
    requires |sent| == |got| && i + 2 <= |sent| && Checks(sent)
    requires got != sent && got[..i] == sent[..i] && got[i + 2..] == sent[i + 2..]
    ensures !Checks(got)
  {
    hide Checks, Difference, Burst;
    assert got == got[..i] + got[i..i + 2] + got[i + 2..];
    assert sent == sent[..i] + sent[i..i + 2] + sent[i + 2..];
    AdjacentIsBurst(sent, got, i);
    BurstIsFound(sent, got);
  }

  // Errors of an odd number of bits.

  /** Is the number of ones odd? */
  function Odd(bits: seq<bool>): bool {
    bits != [] && Odd(bits[..|bits| - 1]) != bits[|bits| - 1]
  }

  predicate On(s: bv16, mask: bv16) {
    s & mask != 0
  }

  /** The mask of bit k of a register. */
  function Mask(k: nat): bv16
    requires k < 16
  {
    if k == 0 then 0x0001 else if k == 1 then 0x0002 else if k == 2 then 0x0004 else if k == 3 then 0x0008 else
    if k == 4 then 0x0010 else if k == 5 then 0x0020 else if k == 6 then 0x0040 else if k == 7 then 0x0080 else
    if k == 8 then 0x0100 else if k == 9 then 0x0200 else if k == 10 then 0x0400 else if k == 11 then 0x0800 else
    if k == 12 then 0x1000 else if k == 13 then 0x2000 else if k == 14 then 0x4000 else 0x8000
  }

  /** The bits of a register, least significant first. */
  function Register(s: bv16): (r: seq<bool>)
    ensures |r| == 16
  {
    seq(16, k requires 0 <= k < 16 => On(s, Mask(k)))
  }

  function Parity(s: bv16): bool {
    Odd(Register(s))
  }

  function Differences(u: seq<bool>, v: seq<bool>): (r: seq<bool>)
    requires |u| == |v|
    ensures |r| == |u|
  {
    seq(|u|, i requires 0 <= i < |u| => u[i] != v[i])
  }

  lemma {:induction false} OddOfDifferences(u: seq<bool>, v: seq<bool>)
    requires |u| == |v|
    ensures Odd(Differences(u, v)) == (Odd(u) != Odd(v))
    decreases |u|
  {
    if u != [] {
      var n := |u| - 1;
      OddOfDifferences(u[..n], v[..n]);
      assert Differences(u, v)[..n] == Differences(u[..n], v[..n]);
    }
  }

  predicate OneBit(mask: bv16) {
    mask == 0x0001 || mask == 0x0002 || mask == 0x0004 || mask == 0x0008 ||
    mask == 0x0010 || mask == 0x0020 || mask == 0x0040 || mask == 0x0080 ||
    mask == 0x0100 || mask == 0x0200 || mask == 0x0400 || mask == 0x0800 ||
    mask == 0x1000 || mask == 0x2000 || mask == 0x4000 || mask == 0x8000
  }

  lemma BitOfPlus(a: bv16, b: bv16, mask: bv16)
    ensures OneBit(mask) ==> On(Plus(a, b), mask) == (On(a, mask) != On(b, mask))
  {
  }

  lemma MaskIsOneBit(k: nat)
    requires k < 16
    ensures OneBit(Mask(k))
  {
  }

  lemma RegisterOfPlus(a: bv16, b: bv16)
    ensures Register(Plus(a, b)) == Differences(Register(a), Register(b))
  {
    hide On, Plus, OneBit, Mask;
    forall k | 0 <= k < 16
      ensures On(Plus(a, b), Mask(k)) == (On(a, Mask(k)) != On(b, Mask(k)))
    {
      MaskIsOneBit(k);
      BitOfPlus(a, b, Mask(k));
    }
  }

  lemma ParityOfPlus(a: bv16, b: bv16)
    ensures Parity(Plus(a, b)) == (Parity(a) != Parity(b))
  {
    hide Plus, Register, Odd, Differences;
    RegisterOfPlus(a, b);
    OddOfDifferences(Register(a), Register(b));
  }

  lemma {:induction false} OddAfterZero(u: seq<bool>)
    ensures Odd([false] + u) == Odd(u)
    decreases |u|
  {
    if u == [] {
      assert [false] + u == [false] && [false][..0] == [];
    } else {
      var n := |u| - 1;
      OddAfterZero(u[..n]);
      assert ([false] + u)[..n + 1] == [false] + u[..n];
    }
  }

  function Doubled(s: bv16): bv16 {
    s << 1
  }

  lemma BitOfDoubled(s: bv16, mask: bv16)
    ensures OneBit(mask) && Doubled(mask) != 0 ==> On(Doubled(s), Doubled(mask)) == On(s, mask)
  {
  }

  lemma LowestOfDoubled(s: bv16)
    ensures !On(Doubled(s), 0x0001)
  {
  }

  lemma NextMask(k: nat)
    requires 0 < k < 16
    ensures OneBit(Mask(k - 1)) && Mask(k) == Doubled(Mask(k - 1)) && Mask(k) != 0
  {
  }

  lemma RegisterOfDoubled(s: bv16)
    ensures Register(Doubled(s)) == [false] + Register(s)[..15]
  {
    hide On, Doubled, OneBit;
    LowestOfDoubled(s);
    forall k | 0 < k < 16
      ensures On(Doubled(s), Mask(k)) == On(s, Mask(k - 1))
    {
      NextMask(k);
      BitOfDoubled(s, Mask(k - 1));
    }
  }

  lemma TimesXOver(s: bv16)
    ensures On(s, 0x8000) ==> TimesX(s) == Plus(Doubled(s), 0x1021)
  {
  }

  lemma TimesXUnder(s: bv16)
    ensures !On(s, 0x8000) ==> TimesX(s) == Doubled(s)
  {
  }

  lemma {:induction false} OddOfZeros(m: seq<bool>, n: nat)
    ensures Odd(m + Zeros(n)) == Odd(m)
  {
    if n == 0 {
      assert m + Zeros(0) == m;
    } else {
      OddOfZeros(m, n - 1);
      assert (m + Zeros(n))[..|m| + n - 1] == m + Zeros(n - 1);
    }
  }

  lemma OddOfMore(m: seq<bool>)
    ensures Odd(m + [true]) == !Odd(m)
  {
    assert (m + [true])[..|m|] == m;
  }

  /** A one, n zeros, and so on. */
  ghost function OneAfter(m: seq<bool>, n: nat): seq<bool> {
    (m + Zeros(n)) + [true]
  }

  lemma OddOneAfter(m: seq<bool>, n: nat)
    ensures Odd(OneAfter(m, n)) == !Odd(m)
  {
    hide Odd;
    OddOfZeros(m, n);
    OddOfMore(m + Zeros(n));
  }

  lemma RegisterOfPolynomial()
    ensures Register(0x1021) == OneAfter(OneAfter(OneAfter([], 0), 4), 6) + Zeros(3)
    ensures Register(1) == OneAfter([], 0) + Zeros(15) && Register(0) == [] + Zeros(16)
  {
    assert Zeros(3) == [false, false, false];
    assert Zeros(4) == Zeros(3) + [false];
    assert Zeros(6) == Zeros(4) + [false, false];
    assert Zeros(8) == Zeros(6) + [false, false];
    assert Zeros(11) == Zeros(8) + [false, false, false];
    assert Zeros(13) == Zeros(11) + [false, false];
    assert Zeros(15) == Zeros(13) + [false, false];
    assert Zeros(16) == Zeros(15) + [false];
  }

  lemma ParityOfConstants()
    ensures Parity(0x1021) && Parity(1) && !Parity(0)
  {
    hide Register, OneAfter, Zeros;
    RegisterOfPolynomial();
    var one := OneAfter([], 0);
    OddOneAfter([], 0);
    OddOneAfter(one, 4);
    OddOneAfter(OneAfter(one, 4), 6);
    OddOfZeros(OneAfter(OneAfter(one, 4), 6), 3);
    OddOfZeros(one, 15);
    OddOfZeros([], 16);
  }

  /** The polynomial has an even number of terms. */
  lemma ParityOfTimesX(s: bv16)
    ensures Parity(TimesX(s)) == Parity(s)
  {
    hide TimesX, Plus, Doubled, On;
    TimesXOver(s);
    TimesXUnder(s);
    RegisterOfDoubled(s);
    OddAfterZero(Register(s)[..15]);
    ParityOfConstants();
    ParityOfPlus(Doubled(s), 0x1021);
  }

  lemma ParityOfBit(b: bool)
    ensures Parity(Bit(b)) == b
  {
    hide Parity;
    ParityOfConstants();
  }

  lemma {:induction false} ParityOfRemainder(m: seq<bool>)
    ensures Parity(Remainder(m)) == Odd(m)
    decreases |m|
  {
    hide Parity, TimesX, Plus, Bit;
    if m == [] {
      ParityOfConstants();
    } else {
      var n := |m| - 1;
      ParityOfRemainder(m[..n]);
      ParityOfTimesX(Remainder(m[..n]));
      ParityOfBit(m[n]);
      ParityOfPlus(TimesX(Remainder(m[..n])), Bit(m[n]));
    }
  }

  lemma OddIsNonzero(e: seq<bv8>)
    requires Odd(Message(e))
    ensures CrcFrom(0, e) != 0
  {
    hide CrcFrom, Message, Remainder, Parity, Odd, Zeros;
    CrcIsRemainder(e);
    ParityOfRemainder(Message(e) + Zeros(16));
    OddOfZeros(Message(e), 16);
    ParityOfConstants();
  }

  /** Every error that hits an odd number of bits is found, wherever they
      are. */
  lemma OddErrorsAreFound(sent: seq<byte>, got: seq<byte>)
    requires |sent| == |got| && 2 <= |sent| && Checks(sent) && Odd(Difference(sent, got))
    ensures !Checks(got)
  {
    hide Checks, BitsOf, CrcFrom, Xor, Message, Odd;
    ChecksIffDifference(sent, got);
    OddIsNonzero(Xor(BitsOf(sent), BitsOf(got)));
  }
}
