/** Division with a divisor that is not a constant, and powers of two. */
module Arith {
  /** 2 to the power n. */
  function Pow2(n: nat): (r: nat)
    ensures r >= 1
  {
    if n == 0 then 1 else 2 * Pow2(n - 1)
  }

  /** Quotient and remainder are determined by their defining equation. */
  lemma DivModUnique(x: int, d: nat, q: int, r: nat)
    requires r < d && x == q * d + r
    ensures x / d == q && x % d == r
  {
    var q' := x / d;
    assert x == q' * d + x % d;
    if q' > q {
      Monotone(q + 1, q', d);
      assert false;
    } else if q' < q {
      Monotone(q' + 1, q, d);
      assert false;
    }
  }

  lemma Monotone(a: int, b: int, d: nat)
    requires a <= b
    ensures a * d <= b * d
  {
    assert b * d == a * d + (b - a) * d;
  }

  lemma ModStep(i: int, d: nat)
    requires d >= 1
    ensures (i + d) % d == i % d && (i + d) / d == i / d + 1
  {
    assert (i / d + 1) * d == i / d * d + d;
    DivModUnique(i + d, d, i / d + 1, i % d);
  }

  lemma DivMod(x: nat, d: nat)
    requires d >= 1
    ensures 0 <= x / d <= x && 0 <= x % d < d && x == x / d * d + x % d
  {
    if x / d < 0 {
      Monotone(x / d, -1, d);
      assert false;
    }
    Monotone(1, d, x / d);
  }

  /** Pages below count lie below count pages. */
  lemma DivBelow(x: nat, d: nat, count: nat)
    requires d >= 1 && x < count * d
    ensures 0 <= x / d < count
  {
    DivMod(x, d);
    if x / d >= count {
      Monotone(count, x / d, d);
      assert false;
    }
  }

  /** The part of a number above its low digit. */
  lemma Scale(q: nat, r: nat, d: nat, count: nat)
    requires r < d && q < count
    ensures q * d + r < count * d
  {
    Monotone(q + 1, count, d);
  }
}
