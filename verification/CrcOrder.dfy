/** The powers of x modulo the polynomial, and how far apart two wrong bits
    must be for the CRC to miss them. */
module CrcOrder {
  import opened Arith
  import opened Crc
  import opened CrcTheory
  import opened CrcErrors

  const ORDER: nat := 32767

  /** x^n modulo the polynomial. */
  function X(n: nat): bv16 {
    TimesXN(1, n)
  }

  // Products.

  /** One more bit of h, in a product with s. */
  function Next(p: bv16, h: bv16, mask: bv16, s: bv16): bv16 {
    Plus(TimesX(p), if On(h, mask) then s else 0)
  }

  function Four(p: bv16, h: bv16, mask: bv16, s: bv16): bv16 {
    Next(Next(Next(Next(p, h, mask, s), h, mask >> 1, s), h, mask >> 2, s), h, mask >> 3, s)
  }

  /** The product of two polynomials, modulo the polynomial. */
  function Times(h: bv16, s: bv16): bv16 {
    Four(Four(Four(Four(0, h, 0x8000, s), h, 0x0800, s), h, 0x0080, s), h, 0x0008, s)
  }

  lemma {:induction false} TimesXNLinear(a: bv16, b: bv16, n: nat)
    ensures TimesXN(Plus(a, b), n) == Plus(TimesXN(a, n), TimesXN(b, n))
  {
    hide Plus, TimesX;
    if n > 0 {
      TimesXNLinear(a, b, n - 1);
      TimesXLinear(TimesXN(a, n - 1), TimesXN(b, n - 1));
    }
  }

  lemma {:induction false} TimesXNAdds(s: bv16, m: nat, n: nat)
    ensures TimesXN(TimesXN(s, m), n) == TimesXN(s, m + n)
  {
    hide TimesX;
    if n > 0 {
      TimesXNAdds(s, m, n - 1);
    }
  }

  lemma {:induction false} TimesXNOfTimesX(s: bv16, n: nat)
    ensures TimesXN(TimesX(s), n) == TimesX(TimesXN(s, n))
  {
    hide TimesX;
    if n > 0 {
      TimesXNOfTimesX(s, n - 1);
    }
  }

  lemma NextTimesXN(p: bv16, h: bv16, mask: bv16, s: bv16, n: nat)
    ensures TimesXN(Next(p, h, mask, s), n) == Next(TimesXN(p, n), h, mask, TimesXN(s, n))
  {
    hide Plus, TimesX, On, TimesXN;
    TimesXNLinear(TimesX(p), if On(h, mask) then s else 0, n);
    TimesXNOfTimesX(p, n);
    TimesXNZero(0, n);
  }

  lemma FourTimesXN(p: bv16, h: bv16, mask: bv16, s: bv16, n: nat)
    ensures TimesXN(Four(p, h, mask, s), n) == Four(TimesXN(p, n), h, mask, TimesXN(s, n))
  {
    hide Next, TimesXN;
    var p1 := Next(p, h, mask, s);
    var p2 := Next(p1, h, mask >> 1, s);
    NextTimesXN(p, h, mask, s, n);
    NextTimesXN(p1, h, mask >> 1, s, n);
    NextTimesXN(p2, h, mask >> 2, s, n);
    NextTimesXN(Next(p2, h, mask >> 2, s), h, mask >> 3, s, n);
  }

  lemma TimesOfTimesXN(h: bv16, s: bv16, n: nat)
    ensures TimesXN(Times(h, s), n) == Times(h, TimesXN(s, n))
  {
    hide Four, TimesXN;
    var p1 := Four(0, h, 0x8000, s);
    var p2 := Four(p1, h, 0x0800, s);
    TimesXNZero(0, n);
    FourTimesXN(0, h, 0x8000, s, n);
    FourTimesXN(p1, h, 0x0800, s, n);
    FourTimesXN(p2, h, 0x0080, s, n);
    FourTimesXN(Four(p2, h, 0x0080, s), h, 0x0008, s, n);
  }

  lemma UpperFour(h: bv16)
    ensures Four(0, h, 0x8000, 1) == h >> 12
  {
  }

  lemma UpperEight(h: bv16, p: bv16)
    requires p == h >> 12
    ensures Four(p, h, 0x0800, 1) == h >> 8
  {
  }

  lemma UpperTwelve(h: bv16, p: bv16)
    requires p == h >> 8
    ensures Four(p, h, 0x0080, 1) == h >> 4
  {
  }

  lemma AllSixteen(h: bv16, p: bv16)
    requires p == h >> 4
    ensures Four(p, h, 0x0008, 1) == h
  {
  }

  lemma TimesOne(h: bv16)
    ensures Times(h, 1) == h
  {
    hide Four;
    UpperFour(h);
    UpperEight(h, h >> 12);
    UpperTwelve(h, h >> 8);
    AllSixteen(h, h >> 4);
  }

  /** Powers are multiplied by adding exponents. */
  lemma PowersMultiply(m: nat, n: nat)
    ensures X(m + n) == Times(X(m), X(n))
  {
    hide Times, TimesXN;
    TimesXNAdds(1, m, n);
    TimesOne(X(m));
    TimesOfTimesXN(X(m), 1, n);
  }

  // The order.

  lemma SmallSquares()
    ensures Times(0x0002, 0x0002) == 0x0004 && Times(0x0004, 0x0004) == 0x0010 && Times(0x0010, 0x0010) == 0x0100
    ensures Times(0x0100, 0x0100) == 0x1021 && Times(0x1021, 0x1021) == 0x3730 && Times(0x3730, 0x3730) == 0xB861
    ensures Times(0xB861, 0xB861) == 0xAEFC
  {
  }

  lemma LargeSquares()
    ensures Times(0xAEFC, 0xAEFC) == 0x8E29 && Times(0x8E29, 0x8E29) == 0x13FC && Times(0x13FC, 0x13FC) == 0x36C4
    ensures Times(0x36C4, 0x36C4) == 0xFD50 && Times(0xFD50, 0xFD50) == 0xAA9E && Times(0xAA9E, 0xAA9E) == 0x881C
    ensures Times(0x881C, 0x881C) == 0x4458 && Times(0x4458, 0x4458) == 0x0002
  {
  }

  lemma SmallPowers()
    ensures X(0) == 1 && X(1) == 0x0002 && X(2) == 0x0004 && X(4) == 0x0010 && X(8) == 0x0100
    ensures X(16) == 0x1021 && X(32) == 0x3730 && X(64) == 0xB861 && X(128) == 0xAEFC
  {
    hide Times;
    SmallSquares();
    PowersMultiply(1, 1); PowersMultiply(2, 2); PowersMultiply(4, 4); PowersMultiply(8, 8);
    PowersMultiply(16, 16); PowersMultiply(32, 32); PowersMultiply(64, 64);
    assert X(0) == 1 && X(1) == TimesX(1);
  }

  lemma LargePowers()
    ensures X(256) == 0x8E29 && X(512) == 0x13FC && X(1024) == 0x36C4 && X(2048) == 0xFD50
    ensures X(4096) == 0xAA9E && X(8192) == 0x881C && X(16384) == 0x4458 && X(32768) == 0x0002
  {
    hide Times, X;
    LargeSquares();
    SmallPowers();
    PowersMultiply(128, 128); PowersMultiply(256, 256); PowersMultiply(512, 512); PowersMultiply(1024, 1024);
    PowersMultiply(2048, 2048); PowersMultiply(4096, 4096); PowersMultiply(8192, 8192); PowersMultiply(16384, 16384);
  }

  lemma Products()
    ensures Times(0xAEFC, 0xB861) == 0x650B && Times(0x650B, 0x1021) == 0x45B4 && Times(0x45B4, 0x0100) == 0xAC61
    ensures Times(0xAC61, 0x0002) == 0x48E3
    ensures Times(0x36C4, 0x3730) == 0xF147 && Times(0xF147, 0x0002) == 0xF2AF
    ensures Times(0xAA9E, 0x13FC) == 0x54A0 && Times(0x54A0, 0xB861) == 0x0106 && Times(0x0106, 0x0100) == 0x1621
    ensures Times(0x1621, 0x0002) == 0x2C42
  {
  }

  lemma OnlyOneBefore(s: bv16)
    ensures TimesX(s) == 0x0002 ==> s == 1
  {
  }

  /** The order is a number of which these are the largest proper divisors. */
  lemma PowersAtDivisors()
    ensures X(ORDER) == 1 && X(217) != 1 && X(1057) != 1 && X(4681) != 1
  {
    hide Times, TimesX, X;
    Products();
    SmallPowers();
    LargePowers();
    PowersMultiply(128, 64); PowersMultiply(192, 16); PowersMultiply(208, 8); PowersMultiply(216, 1);
    PowersMultiply(1024, 32); PowersMultiply(1056, 1);
    PowersMultiply(4096, 512); PowersMultiply(4608, 64); PowersMultiply(4672, 8); PowersMultiply(4680, 1);
    NextPower(ORDER);
    OnlyOneBefore(X(ORDER));
  }

  lemma NextPower(n: nat)
    ensures X(n + 1) == TimesX(X(n))
  {
    hide TimesX;
  }

  lemma {:induction false} PowersRepeat(k: nat, m: nat)
    requires m > 0 && X(m) == 1
    ensures X(k) == X(k % m)
  {
    hide X, Times;
    if k >= m {
      PowersRepeat(k - m, m);
      PowersMultiply(k - m, m);
      TimesOne(X(k - m));
      ModStep(k - m, m);
    } else {
      DivModUnique(k, m, 0, k);
    }
  }

  /** Exponents that give 1 have a common divisor that does. */
  lemma {:induction false} CommonDivisor(a: nat, b: nat) returns (g: nat, p: nat, q: nat)
    requires a > 0 && X(a) == 1 && X(b) == 1
    ensures g > 0 && a == p * g && b == q * g && X(g) == 1
    decreases b
  {
    hide X;
    if b == 0 {
      return a, 1, 0;
    }
    DivMod(a, b);
    PowersRepeat(a, b);
    var p', q';
    g, p', q' := CommonDivisor(b, a % b);
    p, q := a / b * p' + q', p';
    assert p * g == a / b * (p' * g) + q' * g;
  }

  /** A number that, if it divides the order, is 1 or a prime factor of it. */
  predicate Plain(n: nat)
    requires n > 0
  {
    ORDER % n != 0 || n == 1 || n == 7 || n == 31 || n == 151
  }

  predicate AllPlain(n: nat) {
    n == 0 || (Plain(n) && AllPlain(n - 1))
  }

  lemma {:induction false} PlainBelow(n: nat, g: nat)
    requires AllPlain(n) && 0 < g <= n
    ensures Plain(g)
  {
    if g < n {
      PlainBelow(n - 1, g);
    }
  }

  lemma NoneIsPlain()
    ensures AllPlain(0)
  {
  }

  lemma TenMore(n: nat)
    requires AllPlain(n)
    requires Plain(n + 1) && Plain(n + 2) && Plain(n + 3) && Plain(n + 4) && Plain(n + 5)
    requires Plain(n + 6) && Plain(n + 7) && Plain(n + 8) && Plain(n + 9) && Plain(n + 10)
    ensures AllPlain(n + 10)
  {
    hide Plain;
    assert AllPlain(n + 2);
    assert AllPlain(n + 4);
    assert AllPlain(n + 6);
    assert AllPlain(n + 8);
  }

  lemma PlainTo50()
    ensures AllPlain(50)
  {
    hide AllPlain;
    NoneIsPlain();
    TenMore(0); TenMore(10); TenMore(20); TenMore(30); TenMore(40);
  }

  lemma PlainTo100()
    ensures AllPlain(100)
  {
    hide AllPlain;
    PlainTo50();
    TenMore(50); TenMore(60); TenMore(70); TenMore(80); TenMore(90);
  }

  lemma PlainTo150()
    ensures AllPlain(150)
  {
    hide AllPlain;
    PlainTo100();
    TenMore(100); TenMore(110); TenMore(120); TenMore(130); TenMore(140);
  }

  lemma SmallOnesArePlain()
    ensures AllPlain(190)
  {
    hide AllPlain;
    PlainTo150();
    TenMore(150); TenMore(160); TenMore(170); TenMore(180);
  }

  lemma Divisors(p: nat, g: nat)
    requires p * g == ORDER && p >= 2
    ensures g > 0 && (217 % g == 0 || 1057 % g == 0 || 4681 % g == 0)
  {
    hide AllPlain;
    SmallOnesArePlain();
    assert g > 0;
    if p <= 190 {
      DivModUnique(ORDER, p, g, 0);
      PlainBelow(190, p);
    } else if g <= 190 {
      DivModUnique(ORDER, g, p, 0);
      PlainBelow(190, g);
    } else {
      Monotone(191, p, g);
      assert false;
    }
  }

  lemma PowerOfMultiple(m: nat, g: nat)
    requires g > 0 && X(g) == 1 && m % g == 0
    ensures X(m) == 1
  {
    PowersRepeat(m, g);
  }

  /** x has the order 32767. */
  lemma OrderOfX(k: nat)
    ensures X(k) == 1 <==> k % ORDER == 0
  {
    hide X;
    PowersAtDivisors();
    SmallPowers();
    PowersRepeat(k, ORDER);
    var r := k % ORDER;
    if r != 0 && X(r) == 1 {
      var g, p, q := CommonDivisor(ORDER, r);
      Divisors(p, g);
      if 217 % g == 0 {
        PowerOfMultiple(217, g);
      } else if 1057 % g == 0 {
        PowerOfMultiple(1057, g);
      } else {
        PowerOfMultiple(4681, g);
      }
      assert false;
    }
  }
}
