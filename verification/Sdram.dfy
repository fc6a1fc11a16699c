/** The memory tests, and which faults of the memory they find. */
module Sdram {
  import opened Arith
  import opened Bytes

  const WIDTH := 32
  const WORDS := 0x4000_0000

  /** A number as bits, least significant first. */
  function Binary(n: nat, width: nat): (s: seq<bool>)
    ensures |s| == width
  {
    if width == 0 then [] else [n % 2 == 1] + Binary(n / 2, width - 1)
  }

  function Complement(s: seq<bool>): (r: seq<bool>)
    ensures |r| == |s|
  {
    seq(|s|, b requires 0 <= b < |s| => !s[b])
  }

  /** Ones in the even places, or in the odd ones. */
  function Alternating(even: bool): (s: seq<bool>)
    ensures |s| == WIDTH
  {
    seq(WIDTH, b => (b % 2 == 0) == even)
  }

  function Pattern(i: nat, pass: nat): (s: seq<bool>)
    ensures |s| == WIDTH
  {
    if pass == 0 then Binary(i, WIDTH)
    else if pass == 1 then Complement(Binary(i, WIDTH))
    else Alternating(pass == 2)
  }

  lemma {:induction false} BinaryIsInjective(a: nat, b: nat, width: nat)
    requires a < Pow2(width) && b < Pow2(width) && Binary(a, width) == Binary(b, width)
    ensures a == b
  {
    if width > 0 {
      var x, y := Binary(a, width), Binary(b, width);
      assert x[0] == y[0] && x[1..] == y[1..];
      BinaryIsInjective(a / 2, b / 2, width - 1);
    }
  }

  lemma WordsAreNarrow()
    ensures WORDS <= Pow2(WIDTH)
  {
    assert Pow2(4) == 16 && Pow2(8) == 256;
    assert Pow2(12) == 0x1000 && Pow2(16) == 0x1_0000;
    assert Pow2(20) == 0x10_0000 && Pow2(24) == 0x100_0000;
    assert Pow2(28) == 0x1000_0000 && Pow2(32) == 0x1_0000_0000;
  }

  /** A number below 2^a has no bit from a on. */
  lemma {:induction false} HighBits(i: nat, width: nat, a: nat, b: nat)
    requires i < Pow2(a) && a <= b < width
    ensures !Binary(i, width)[b]
    decreases width
  {
    if b > 0 {
      HighBits(i / 2, width - 1, if a == 0 then 0 else a - 1, b - 1);
    }
  }

  lemma {:induction false} BitOfPower(width: nat, a: nat)
    requires a < width
    ensures Binary(Pow2(a), width)[a]
    decreases a
  {
    if a > 0 {
      BitOfPower(width - 1, a - 1);
    }
  }

  lemma PowerBelow(a: nat, b: nat)
    requires a < b
    ensures Pow2(a) < Pow2(b)
  {
  }

  /** Two bits are equal in all numbers below n. */
  ghost predicate EqualBits(n: nat, a: nat, b: nat)
    requires a < WIDTH && b < WIDTH
  {
    forall i :: 0 <= i < n ==> Binary(i, WIDTH)[a] == Binary(i, WIDTH)[b]
  }

  /** That is so only if neither is reached. */
  lemma EqualBitsAreHigh(n: nat, a: nat, b: nat)
    requires a < b < WIDTH
    ensures EqualBits(n, a, b) <==> n <= Pow2(a)
  {
    hide Pow2, Binary;
    if n <= Pow2(a) {
      forall i | 0 <= i < n
        ensures Binary(i, WIDTH)[a] == Binary(i, WIDTH)[b]
      {
        HighBits(i, WIDTH, a, a);
        HighBits(i, WIDTH, a, b);
      }
    } else {
      var i := Pow2(a);
      BitOfPower(WIDTH, a);
      PowerBelow(a, b);
      HighBits(i, WIDTH, b, b);
      assert Binary(i, WIDTH)[a] != Binary(i, WIDTH)[b];
    }
  }

  /** What can be wrong with a memory: the address lines lead word i to cell
      route(i); bit b of cell c may be stuck; data lines may be shorted, and
      then the dominant level wins. */
  datatype Faults = Faults(route: nat -> nat, stuck: (nat, nat) -> Option<bool>, short: (nat, nat) -> bool,
                           dominant: bool) {
    predicate Linked(a: nat, b: nat) {
      short(a, b) || short(b, a)
    }

    /** Line b is pulled to the dominant level by another line. */
    predicate Pulled(v: seq<bool>, b: nat) {
      exists a :: 0 <= a < |v| && Linked(a, b) && v[a] == dominant
    }

    function Carried(v: seq<bool>): (r: seq<bool>)
      ensures |r| == |v|
    {
      seq(|v|, b requires 0 <= b < |v| => if Pulled(v, b) then dominant else v[b])
    }

    function Held(c: nat, v: seq<bool>): (r: seq<bool>)
      ensures |r| == |v|
    {
      seq(|v|, b requires 0 <= b < |v| => match stuck(c, b) case None => v[b] case Some(level) => level)
    }

    /** What comes back from cell c when v was stored. */
    function Seen(c: nat, v: seq<bool>): (r: seq<bool>)
      ensures |r| == |v|
    {
      Held(c, Carried(v))
    }

    /** Different words are in different cells. */
    ghost predicate Distinct(n: nat) {
      forall i, j :: 0 <= i < j < n ==> route(i) != route(j)
    }

    ghost predicate Sound(c: nat) {
      forall b: nat :: b < WIDTH ==> stuck(c, b) == None
    }

    /** No word is in a cell with a stuck bit. */
    ghost predicate AllSound(n: nat) {
      forall i: nat :: i < n ==> Sound(route(i))
    }

    /** Every word's cell can give back the pattern of a pass. */
    ghost predicate Faithful(n: nat, pass: nat) {
      forall i: nat :: i < n ==> Seen(route(i), Pattern(i, pass)) == Pattern(i, pass)
    }

    /** Bit b of word i comes back as in the word's index: it is stuck at just
        that level, or else not pulled away from it by another line. */
    ghost predicate BitOfIndex(i: nat, b: nat)
      requires b < WIDTH
    {
      var v := Binary(i, WIDTH);
      match stuck(route(i), b)
      case Some(level) => level == v[b]
      case None => Pulled(v, b) ==> v[b] == dominant
    }

    ghost predicate WordOfIndex(i: nat) {
      forall b: nat :: b < WIDTH ==> BitOfIndex(i, b)
    }

    /** The stuck bits and the shorts that the index alone does not show. */
    ghost predicate IndexMisses(n: nat) {
      forall i: nat :: i < n ==> WordOfIndex(i)
    }

    lemma BitSeen(i: nat, b: nat)
      requires b < WIDTH
      ensures Seen(route(i), Binary(i, WIDTH))[b] == Binary(i, WIDTH)[b] <==> BitOfIndex(i, b)
    {
      hide Binary, Pulled;
    }

    lemma WordSeen(i: nat)
      ensures Seen(route(i), Binary(i, WIDTH)) == Binary(i, WIDTH) <==> WordOfIndex(i)
    {
      hide Seen, Binary, BitOfIndex;
      var v, r := Binary(i, WIDTH), Seen(route(i), Binary(i, WIDTH));
      forall b: nat | b < WIDTH
        ensures r[b] == v[b] <==> BitOfIndex(i, b)
      {
        BitSeen(i, b);
      }
    }

    /** Which faults pass the index pass. */
    lemma IndexDecides(n: nat)
      ensures Faithful(n, 0) <==> IndexMisses(n)
    {
      hide Seen, Binary, WordOfIndex;
      forall i: nat | i < n
        ensures Seen(route(i), Pattern(i, 0)) == Pattern(i, 0) <==> WordOfIndex(i)
      {
        WordSeen(i);
      }
    }

    /** Shorted lines carry the same level in v. */
    ghost predicate Agrees(v: seq<bool>) {
      forall a, b :: 0 <= a < |v| && 0 <= b < |v| && Linked(a, b) ==> v[a] == v[b]
    }

    /** The shorts that no pass can see: the lines have the same parity, and
        neither of them is used by the index of any word. */
    ghost predicate ShortsHidden(n: nat) {
      forall a, b :: 0 <= a < b < WIDTH && Linked(a, b) ==> a % 2 == b % 2 && n <= Pow2(a)
    }

    lemma CarriedIfAgrees(v: seq<bool>)
      ensures Carried(v) == v <==> Agrees(v)
    {
      if Carried(v) == v {
        forall a, b | 0 <= a < |v| && 0 <= b < |v| && Linked(a, b) && v[a] == dominant
          ensures v[b] == dominant
        {
          assert Pulled(v, b) && Carried(v)[b] == v[b];
        }
        assert forall a, b :: Linked(a, b) == Linked(b, a);
      }
    }

    lemma HeldIfSound(c: nat, v: seq<bool>)
      requires |v| == WIDTH && Sound(c)
      ensures Held(c, v) == v
    {
      assert forall b: nat :: b < WIDTH ==> stuck(c, b) == None;
    }

    lemma SeenIfSound(c: nat, v: seq<bool>)
      requires |v| == WIDTH && Sound(c)
      ensures Seen(c, v) == v <==> Agrees(v)
    {
      hide Carried, Held, Agrees, Sound;
      HeldIfSound(c, Carried(v));
      CarriedIfAgrees(v);
    }

    /** A word and its complement together show every stuck bit. */
    lemma ComplementsFindStuckBits(c: nat, v: seq<bool>)
      requires |v| == WIDTH && Seen(c, v) == v && Seen(c, Complement(v)) == Complement(v)
      ensures Sound(c)
    {
      hide Carried;
      forall b: nat | b < WIDTH
        ensures stuck(c, b) == None
      {
        assert Seen(c, v)[b] == v[b];
        assert Seen(c, Complement(v))[b] == Complement(v)[b];
      }
    }

    lemma TwoPassesFindStuckBits(n: nat)
      requires Faithful(n, 0) && Faithful(n, 1)
      ensures AllSound(n)
    {
      hide Seen, Sound, Binary;
      forall i: nat | i < n
        ensures Sound(route(i))
      {
        var v := Binary(i, WIDTH);
        assert Seen(route(i), Pattern(i, 0)) == Pattern(i, 0) && Seen(route(i), Pattern(i, 1)) == Pattern(i, 1);
        ComplementsFindStuckBits(route(i), v);
      }
    }

    /** Without stuck bits, what a pass needs of the shorts. */
    lemma FaithfulIfAgrees(n: nat, pass: nat)
      requires AllSound(n)
      ensures Faithful(n, pass) <==> forall i: nat :: i < n ==> Agrees(Pattern(i, pass))
    {
      hide Pattern, Seen, Sound, Agrees;
      forall i: nat | i < n
        ensures Seen(route(i), Pattern(i, pass)) == Pattern(i, pass) <==> Agrees(Pattern(i, pass))
      {
        SeenIfSound(route(i), Pattern(i, pass));
      }
    }

    lemma HiddenShortsAgree(n: nat, i: nat, pass: nat)
      requires ShortsHidden(n) && i < n
      ensures Agrees(Pattern(i, pass))
    {
      hide Binary, Pow2;
      var v := Pattern(i, pass);
      forall a, b | 0 <= a < b < WIDTH && Linked(a, b)
        ensures v[a] == v[b]
      {
        EqualBitsAreHigh(n, a, b);
        assert Binary(i, WIDTH)[a] == Binary(i, WIDTH)[b];
      }
      forall a, b | 0 <= a < |v| && 0 <= b < |v| && Linked(a, b)
        ensures v[a] == v[b]
      {
        assert Linked(b, a);
      }
    }

    lemma AgreeingShortsAreHidden(n: nat)
      requires n > 0 && forall i: nat :: i < n ==> Agrees(Pattern(i, 0))
      requires Agrees(Pattern(0, 2))
      ensures ShortsHidden(n)
    {
      hide Binary, Pow2;
      forall a, b | 0 <= a < b < WIDTH && Linked(a, b)
        ensures a % 2 == b % 2 && n <= Pow2(a)
      {
        assert Pattern(0, 2)[a] == Pattern(0, 2)[b];
        forall i | 0 <= i < n
          ensures Binary(i, WIDTH)[a] == Binary(i, WIDTH)[b]
        {
          assert Agrees(Pattern(i, 0));
        }
        EqualBitsAreHigh(n, a, b);
      }
    }

    /** All passes together: exactly the stuck bits and the shorts that are not
        hidden are seen. */
    lemma PassesDecide(n: nat)
      ensures Faithful(n, 0) && Faithful(n, 1) && Faithful(n, 2) && Faithful(n, 3)
        <==> AllSound(n) && (n == 0 || ShortsHidden(n))
    {
      hide Faithful, AllSound, ShortsHidden, Agrees, Pattern;
      if Faithful(n, 0) && Faithful(n, 1) {
        TwoPassesFindStuckBits(n);
      }
      if AllSound(n) {
        FaithfulIfAgrees(n, 0);
        FaithfulIfAgrees(n, 1);
        FaithfulIfAgrees(n, 2);
        FaithfulIfAgrees(n, 3);
        if n == 0 {
        } else if ShortsHidden(n) {
          forall i: nat, pass: nat | i < n
            ensures Agrees(Pattern(i, pass))
          {
            HiddenShortsAgree(n, i, pass);
          }
        } else if Faithful(n, 0) && Faithful(n, 2) {
          AgreeingShortsAreHidden(n);
        }
      }
    }
  }

  /** A fault that the index does not show, in a memory of any size: the lowest
      bit of word 0 is stuck at 0. */
  lemma MissedStuckBit(n: nat) returns (f: Faults)
    requires n > 0
    ensures f.Distinct(n) && f.IndexMisses(n) && !f.AllSound(n)
  {
    f := Faults(i => i, (c, b) => if c == 0 && b == 0 then Some(false) else None, (a, b) => false, false);
    assert Binary(0, WIDTH)[0] == false;
    assert !f.Sound(f.route(0)) by { assert f.stuck(0, 0) != None; }
  }

  class Sdram {
    const faults: Faults
    const cells: array<seq<bool>>

    constructor (faults: Faults, cells: array<seq<bool>>)
      ensures this.faults == faults && this.cells == cells
    {
      this.faults, this.cells := faults, cells;
    }

    /** The first n words are in the memory. */
    ghost predicate Reaches(n: nat) {
      forall i: nat :: i < n ==> faults.route(i) < cells.Length
    }

    function Word(i: nat): seq<bool>
      requires faults.route(i) < cells.Length
      reads cells
    {
      faults.Seen(faults.route(i), cells[faults.route(i)])
    }

    /** The two loops of a pass: write a pattern everywhere, then read it back. */
    method Pass(n: nat, pass: nat) returns (ok: bool)
      requires Reaches(n)
      modifies cells
      ensures faults.Distinct(n) && faults.Faithful(n, pass) ==> ok
      ensures ok ==> forall i: nat :: i < n ==> Word(i) == Pattern(i, pass)
      ensures ok && faults.Distinct(n) ==> faults.Faithful(n, pass)
    {
      hide Pattern, Faults.Seen;
      for i := 0 to n
        invariant faults.Distinct(n) ==> forall k: nat :: k < i ==> cells[faults.route(k)] == Pattern(k, pass)
      {
        cells[faults.route(i)] := Pattern(i, pass);
      }
      for i := 0 to n
        invariant faults.Distinct(n) ==> forall k: nat :: k < n ==> cells[faults.route(k)] == Pattern(k, pass)
        invariant forall k: nat :: k < i ==> Word(k) == Pattern(k, pass)
      {
        if Word(i) != Pattern(i, pass) {
          return false;
        }
      }
      ok := true;
    }

    /** Reading back its own index from every word is only possible when no two
        words share a cell, whatever the cells hold and whichever bits are
        stuck. */
    lemma IndexFindsAliases(n: nat)
      requires n <= WORDS && Reaches(n)
      requires forall i: nat :: i < n ==> Word(i) == Pattern(i, 0)
      ensures faults.Distinct(n)
    {
      hide Pow2, Faults.Seen, Word, Binary;
      WordsAreNarrow();
      forall i, j | 0 <= i < j < n
        ensures faults.route(i) != faults.route(j)
      {
        if faults.route(i) == faults.route(j) {
          SameCell(i, j);
          assert Word(i) == Pattern(i, 0) && Word(j) == Pattern(j, 0);
          BinaryIsInjective(i, j, WIDTH);
          assert false;
        }
      }
    }

    lemma SameCell(i: nat, j: nat)
      requires faults.route(i) == faults.route(j) < cells.Length
      ensures Word(i) == Word(j)
    {
    }

    /** memory_test over len bytes: one pass with the index. It finds every
        alias, but of the stuck bits and shorts only those that disagree with
        an index. */
    method MemoryTest(len: nat) returns (rc: int)
      requires len < 0x1_0000_0000 && Reaches(len / 4)
      modifies cells
      ensures rc == 0 <==> faults.Distinct(len / 4) && faults.IndexMisses(len / 4)
    {
      hide Pattern, Faults.Seen, Faults.Distinct, Faults.Faithful, Faults.IndexMisses, Word;
      faults.IndexDecides(len / 4);
      var ok := Pass(len / 4, 0);
      if !ok {
        return 1;
      }
      IndexFindsAliases(len / 4);
      rc := 0;
    }

    /** memory_test_full over len bytes: it succeeds exactly when no two words
        share a cell, no bit of any word is stuck, and data lines are at most
        shorted where no pattern can show it. */
    method MemoryTestFull(len: nat) returns (rc: int)
      requires len < 0x1_0000_0000 && Reaches(len / 4)
      modifies cells
      ensures rc == 0 <==>
        faults.Distinct(len / 4) && faults.AllSound(len / 4) && (len < 4 || faults.ShortsHidden(len / 4))
    {
      hide Pattern, Faults.Seen, Faults.Distinct, Faults.Faithful, Faults.AllSound, Faults.ShortsHidden, Word;
      var n: nat := len / 4;
      faults.PassesDecide(n);
      for pass := 0 to 4
        invariant pass >= 1 ==> faults.Distinct(n) && faults.Faithful(n, 0)
        invariant pass >= 2 ==> faults.Faithful(n, 1)
        invariant pass >= 3 ==> faults.Faithful(n, 2)
        invariant pass >= 4 ==> faults.Faithful(n, 3)
      {
        var ok := Pass(n, pass);
        if !ok {
          return 1;
        }
        if pass == 0 {
          IndexFindsAliases(n);
        }
      }
      rc := 0;
    }
  }
}
