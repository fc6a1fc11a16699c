/** Bytes, words and in-place updates of byte strings. */
module Bytes {
  type byte = x: int | 0 <= x < 256

  datatype Option<+T> = None | Some(value: T)

  /** Eight bits, least significant first, as a bit vector and as a number. */
  function Pack(c0: bool, c1: bool, c2: bool, c3: bool, c4: bool, c5: bool, c6: bool, c7: bool): bv8 {
    (if c0 then 0x01 else 0) | (if c1 then 0x02 else 0) | (if c2 then 0x04 else 0) | (if c3 then 0x08 else 0)
    | (if c4 then 0x10 else 0) | (if c5 then 0x20 else 0) | (if c6 then 0x40 else 0) | (if c7 then 0x80 else 0)
  }

  function Weigh(c0: bool, c1: bool, c2: bool, c3: bool, c4: bool, c5: bool, c6: bool, c7: bool): byte {
    Weight(c0, 1) + Weight(c1, 2) + Weight(c2, 4) + Weight(c3, 8)
    + Weight(c4, 16) + Weight(c5, 32) + Weight(c6, 64) + Weight(c7, 128)
  }

  function Weight(c: bool, w: nat): (r: nat)
    ensures r <= w
  {
    if c then w else 0
  }

  /** n without the bit of weight w. */
  function Below(n: nat, w: nat): nat {
    if n >= w then n - w else n
  }

  /** A byte as its eight bits; used where the program works on bits. */
  function Bits(b: byte): bv8 {
    var b7 := Below(b, 128); var b6 := Below(b7, 64); var b5 := Below(b6, 32); var b4 := Below(b5, 16);
    var b3 := Below(b4, 8); var b2 := Below(b3, 4); var b1 := Below(b2, 2);
    Pack(b1 >= 1, b2 >= 2, b3 >= 4, b4 >= 8, b5 >= 16, b6 >= 32, b7 >= 64, b >= 128)
  }

  /** The byte with the given bits. */
  function OfBits(v: bv8): byte {
    Weigh(v & 0x01 != 0, v & 0x02 != 0, v & 0x04 != 0, v & 0x08 != 0,
          v & 0x10 != 0, v & 0x20 != 0, v & 0x40 != 0, v & 0x80 != 0)
  }

  lemma PackBits(c0: bool, c1: bool, c2: bool, c3: bool, c4: bool, c5: bool, c6: bool, c7: bool)
    ensures OfBits(Pack(c0, c1, c2, c3, c4, c5, c6, c7)) == Weigh(c0, c1, c2, c3, c4, c5, c6, c7)
  {
    hide Weigh;
  }

  lemma TopBit(n: nat, c: bool, w: nat)
    requires n < w
    ensures n + Weight(c, w) >= w <==> c
    ensures Below(n + Weight(c, w), w) == n
  {
  }

  lemma WeighBits(c0: bool, c1: bool, c2: bool, c3: bool, c4: bool, c5: bool, c6: bool, c7: bool)
    ensures Bits(Weigh(c0, c1, c2, c3, c4, c5, c6, c7)) == Pack(c0, c1, c2, c3, c4, c5, c6, c7)
  {
    hide Pack, Below, Weight;
    var n1 := Weight(c0, 1);
    var n2 := n1 + Weight(c1, 2); var n3 := n2 + Weight(c2, 4); var n4 := n3 + Weight(c3, 8);
    var n5 := n4 + Weight(c4, 16); var n6 := n5 + Weight(c5, 32); var n7 := n6 + Weight(c6, 64);
    TopBit(0, c0, 1); TopBit(n1, c1, 2); TopBit(n2, c2, 4); TopBit(n3, c3, 8);
    TopBit(n4, c4, 16); TopBit(n5, c5, 32); TopBit(n6, c6, 64); TopBit(n7, c7, 128);
  }

  lemma BitsOfBits(v: bv8)
    ensures Bits(OfBits(v)) == v
  {
    hide Bits, Weigh;
    WeighBits(v & 0x01 != 0, v & 0x02 != 0, v & 0x04 != 0, v & 0x08 != 0,
              v & 0x10 != 0, v & 0x20 != 0, v & 0x40 != 0, v & 0x80 != 0);
  }

  lemma SplitBit(n: nat, w: nat)
    ensures n == Below(n, w) + Weight(n >= w, w) && (n < 2 * w ==> Below(n, w) < w)
  {
  }

  lemma OfBitsBits(b: byte)
    ensures OfBits(Bits(b)) == b
  {
    hide OfBits, Pack, Below, Weight;
    var b7 := Below(b, 128); var b6 := Below(b7, 64); var b5 := Below(b6, 32); var b4 := Below(b5, 16);
    var b3 := Below(b4, 8); var b2 := Below(b3, 4); var b1 := Below(b2, 2);
    SplitBit(b, 128); SplitBit(b7, 64); SplitBit(b6, 32); SplitBit(b5, 16);
    SplitBit(b4, 8); SplitBit(b3, 4); SplitBit(b2, 2); SplitBit(b1, 1);
    PackBits(b1 >= 1, b2 >= 2, b3 >= 4, b4 >= 8, b5 >= 16, b6 >= 32, b7 >= 64, b >= 128);
  }

  lemma NumberOfBits(v: bv8)
    ensures OfBits(v) as int == v as int
  {
  }

  /** The bits of a byte are those of the number. */
  lemma BitsAreNumber(b: byte)
    ensures Bits(b) as int == b
  {
    hide Bits, OfBits;
    NumberOfBits(Bits(b));
    OfBitsBits(b);
  }

  /** The bytes an array holds. */
  ghost predicate Memory(a: array<byte>, bytes: seq<byte>)
    reads a
  {
    a[..] == bytes
  }

  /** s with data stored at position at. */
  function Patch(s: seq<byte>, at: nat, data: seq<byte>): (r: seq<byte>)
    requires at + |data| <= |s|
    ensures |r| == |s|
  {
    s[..at] + data + s[at + |data|..]
  }

  lemma PatchNothing(s: seq<byte>, at: nat)
    requires at <= |s|
    ensures Patch(s, at, []) == s
  {
  }

  lemma PatchMore(s: seq<byte>, at: nat, r: seq<byte>, b: byte)
    requires at + |r| < |s|
    ensures Patch(s, at, r + [b]) == Patch(s, at, r)[at + |r| := b]
  {
    assert s[at + |r|..] == [s[at + |r|]] + s[at + |r| + 1..];
  }

  lemma SliceOfSlice(s: seq<byte>, base: nat, end: nat, i: nat, j: nat)
    requires base <= i <= j <= end <= |s|
    ensures s[base..end][i - base..j - base] == s[i..j]
  {
    var t := s[base..end];
    assert forall k :: 0 <= k < j - i ==> t[i - base..j - base][k] == s[i..j][k];
  }

  /** Two adjacent updates are one. */
  lemma PatchJoin(s: seq<byte>, at: nat, a: seq<byte>, b: seq<byte>)
    requires at + |a| + |b| <= |s|
    ensures Patch(Patch(s, at, a), at + |a|, b) == Patch(s, at, a + b)
  {
  }

  /** A 32-bit word as four bytes, least significant first. */
  function Word(n: nat): (s: seq<byte>)
    requires n < 0x1_0000_0000
    ensures |s| == 4 && WordAt(s, 0) == n
  {
    [n % 256, n / 256 % 256, n / 256 / 256 % 256, n / 256 / 256 / 256]
  }

  /** The 32-bit word stored at position at. */
  function WordAt(s: seq<byte>, at: nat): (n: nat)
    requires at + 4 <= |s|
    ensures n < 0x1_0000_0000
  {
    s[at] as int + 0x100 * s[at + 1] as int + 0x1_0000 * s[at + 2] as int + 0x100_0000 * s[at + 3] as int
  }

  /** A 32-bit word read as an int. */
  function Signed(w: nat): int
    requires w < 0x1_0000_0000
  {
    if w < 0x8000_0000 then w else w - 0x1_0000_0000
  }
}
