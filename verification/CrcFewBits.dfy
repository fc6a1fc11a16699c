/** Errors of a few bits: one and three are odd, and two are found unless they
    are a multiple of 32767 bits apart. */
module CrcFewBits {
  import opened Bytes
  import opened Crc
  import opened CrcTheory
  import opened CrcErrors
  import opened CrcOrder

  /** The number of ones. */
  function Ones(bits: seq<bool>): nat {
    if bits == [] then 0 else Ones(bits[..|bits| - 1]) + (if bits[|bits| - 1] then 1 else 0)
  }

  lemma {:induction false} OddIsOnes(bits: seq<bool>)
    ensures Odd(bits) <==> Ones(bits) % 2 == 1
    decreases |bits|
  {
    if bits != [] {
      OddIsOnes(bits[..|bits| - 1]);
    }
  }

  lemma {:induction false} NoOnes(bits: seq<bool>)
    requires Ones(bits) == 0
    ensures bits == Zeros(|bits|)
    decreases |bits|
  {
    if bits != [] {
      NoOnes(bits[..|bits| - 1]);
    }
  }

  /** The last one, and the zeros behind it. */
  lemma {:induction false} LastOne(bits: seq<bool>) returns (front: seq<bool>, k: nat)
    requires Ones(bits) > 0
    ensures bits == (front + [true]) + Zeros(k) && Ones(front) + 1 == Ones(bits)
    decreases |bits|
  {
    var n := |bits| - 1;
    if bits[n] {
      front, k := bits[..n], 0;
      NoZeros(front + [true]);
    } else {
      front, k := LastOne(bits[..n]);
      k := k + 1;
      assert bits == ((front + [true]) + Zeros(k - 1)) + [false];
    }
  }

  /** Two ones, d places apart. */
  function Two(d: nat): seq<bool>
    requires d > 0
  {
    ([true] + Zeros(d - 1)) + [true]
  }

  ghost predicate TwoAt(bits: seq<bool>, i: nat, d: nat, k: nat) {
    d > 0 && bits == (Zeros(i) + Two(d)) + Zeros(k)
  }

  /** Exactly two bits are set, and they are d places apart. */
  ghost predicate TwoApart(bits: seq<bool>, d: nat) {
    exists i: nat, k: nat :: TwoAt(bits, i, d, k)
  }

  lemma TwoOnes(bits: seq<bool>) returns (d: nat)
    requires Ones(bits) == 2
    ensures 0 < d < |bits| && TwoApart(bits, d)
  {
    hide Zeros, Ones;
    var front, k := LastOne(bits);
    var first, n := LastOne(front);
    NoOnes(first);
    var i := |first|;
    d := n + 1;
    assert (((Zeros(i) + [true]) + Zeros(n)) + [true]) + Zeros(k) == (Zeros(i) + Two(d)) + Zeros(k);
    assert TwoAt(bits, i, d, k);
  }

  lemma RemainderOfTrue()
    ensures Remainder([true]) == 1 && Bit(true) == 1
  {
    assert Remainder([]) == 0;
    assert [true][..0] == [];
  }

  /** Two ones leave x^d + 1. */
  lemma RemainderOfTwo(d: nat)
    requires d > 0
    ensures Remainder(Two(d)) == Plus(X(d), 1)
  {
    hide Remainder, TimesX, Plus, Zeros, Bit;
    RemainderOfTrue();
    RemainderOfZeros([true], d - 1);
    RemainderOfOne([true] + Zeros(d - 1), true);
    NextPower(d - 1);
  }

  /** The CRC of two ones is zero when they are whole orders apart. */
  lemma CrcOfTwo(e: seq<bv8>, d: nat)
    requires TwoApart(Message(e), d)
    ensures CrcFrom(0, e) == 0 <==> d % ORDER == 0
  {
    hide Message, Remainder, CrcFrom, TimesXN, Zeros, Plus, Two, X;
    var i: nat, k: nat :| TwoAt(Message(e), i, d, k);
    CrcIsRemainder(e);
    ZerosJoin(Zeros(i) + Two(d), k, 16);
    RemainderOfZeros(Zeros(i) + Two(d), k + 16);
    RemainderAfterZeros(i, Two(d));
    RemainderOfTwo(d);
    TimesXNZero(Remainder(Two(d)), k + 16);
    EqualIffZero(X(d), 1);
    OrderOfX(d);
  }

  /** Two wrong bits are missed exactly when they are a multiple of 32767 bits
      apart. */
  lemma TwoErrorsChecks(sent: seq<byte>, got: seq<byte>, d: nat)
    requires |sent| == |got| && 2 <= |sent| && Checks(sent) && TwoApart(Difference(sent, got), d)
    ensures Checks(got) <==> d % ORDER == 0
  {
    hide Checks, BitsOf, CrcFrom, Xor, Message, TwoApart;
    ChecksIffDifference(sent, got);
    CrcOfTwo(Xor(BitsOf(sent), BitsOf(got)), d);
  }

  lemma {:induction false} MessageLength(e: seq<bv8>)
    ensures |Message(e)| == 8 * |e|
  {
    if e != [] {
      MessageLength(e[..|e| - 1]);
    }
  }

  /** One to three wrong bits are found in a body of up to 4095 bytes, wherever
      they are. */
  lemma FewErrorsAreFound(sent: seq<byte>, got: seq<byte>)
    requires 2 <= |sent| == |got| <= 4095 && Checks(sent) && 1 <= Ones(Difference(sent, got)) <= 3
    ensures !Checks(got)
  {
    hide Checks, BitsOf, Xor, Message, TwoApart, Ones, Odd;
    var bits := Difference(sent, got);
    OddIsOnes(bits);
    if Odd(bits) {
      OddErrorsAreFound(sent, got);
    } else {
      var d := TwoOnes(bits);
      MessageLength(Xor(BitsOf(sent), BitsOf(got)));
      TwoErrorsChecks(sent, got, d);
    }
  }
}
