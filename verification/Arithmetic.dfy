/** Powers of two over unbounded integers, the meaning of a C shift count, and small facts
    about products, quotients and remainders. */
module Arithmetic {

  const TWO32: int := 0x1_0000_0000
  const TWO64: int := 0x1_0000_0000_0000_0000
  const TWO128: int := 0x1_0000_0000_0000_0000_0000_0000_0000_0000

  function Pow2(n: nat): (p: nat)
    ensures p > 0
  {
    if n == 0 then 1 else 2 * Pow2(n - 1)
  }

  lemma {:induction false} Pow2Add(a: nat, b: nat)
    ensures Pow2(a + b) == Pow2(a) * Pow2(b)
    decreases a
  {
    if a == 0 {
    } else {
      Pow2Add(a - 1, b);
      assert a + b - 1 == (a - 1) + b;
    }
  }

  lemma {:induction false} Pow2Monotonic(a: nat, b: nat)
    requires a <= b
    ensures Pow2(a) <= Pow2(b)
    decreases b
  {
    if a < b {
      Pow2Monotonic(a, b - 1);
    }
  }

  /** The exponent is recovered from bounds on the power. */
  lemma Pow2Below(a: nat, b: nat)
    requires Pow2(a) < Pow2(b)
    ensures a < b
  {
    if b <= a {
      Pow2Monotonic(b, a);
    }
  }

  /** The widths of instruction fields. */
  lemma Pow2Fields()
    ensures Pow2(2) == 4 && Pow2(3) == 8 && Pow2(5) == 32 && Pow2(6) == 64 && Pow2(7) == 128 && Pow2(8) == 256
    ensures Pow2(11) == 2048 && Pow2(12) == 4096 && Pow2(19) == 0x8_0000 && Pow2(20) == 0x10_0000
    ensures Pow2(51) == 0x8_0000_0000_0000 && Pow2(52) == 0x10_0000_0000_0000
  {
    Pow2Add(26, 26);
  }

  /** The widths of machine words. */
  lemma Pow2Values()
    ensures Pow2(0) == 1 && Pow2(1) == 2 && Pow2(2) == 4 && Pow2(4) == 16 && Pow2(8) == 256
    ensures Pow2(16) == 0x1_0000 && Pow2(29) == 0x2000_0000 && Pow2(30) == 0x4000_0000
    ensures Pow2(31) == 0x8000_0000 && Pow2(32) == 0x1_0000_0000
    ensures Pow2(64) == 0x1_0000_0000_0000_0000
  {
    assert Pow2(4) == 16 && Pow2(8) == 256 by { Pow2Add(4, 4); }
    Pow2Add(8, 8);
    Pow2Add(16, 16);
    Pow2Add(32, 32);
    assert Pow2(32) == 2 * Pow2(31) && Pow2(31) == 2 * Pow2(30) && Pow2(30) == 2 * Pow2(29);
  }

  // ----- products, quotients and remainders

  function Times(a: nat, b: nat): nat {
    a * b
  }

  function Quotient(a: nat, d: nat): nat
    requires d > 0
  {
    a / d
  }

  /** A 64-bit word, after wrapping around. */
  function Wrap64(x: int): (w: nat)
    ensures w < TWO64
  {
    x % TWO64
  }

  lemma MulMonotonic(a: int, b: int, c: int)
    requires a <= b && 0 <= c
    ensures a * c <= b * c
  {
  }

  lemma Associate(a: int, b: int, c: int)
    ensures (a * b) * c == a * (b * c)
  {
  }

  lemma Distribute(a: int, b: int, c: int)
    ensures a * (b + c) == a * b + a * c
  {
  }

  lemma DivisionBounds(a: int, s: int)
    requires 0 < s
    ensures (a / s) * s <= a < (a / s + 1) * s
  {
  }

  lemma QuotientBelow(x: nat, c: nat, p: nat)
    requires c > 0 && x < c * p
    ensures Quotient(x, c) < p
  {
    DivisionBounds(x, c);
    if x / c >= p {
      MulMonotonic(p, x / c, c);
    }
  }

  lemma QuotientFromBounds(a: int, s: int, q: int)
    requires 0 < s && q * s <= a < (q + 1) * s
    ensures a / s == q
  {
    var p := a / s;
    assert p * s <= a < p * s + s;
    if p < q { MulMonotonic(p + 1, q, s); }
    if q < p { MulMonotonic(q + 1, p, s); }
  }

  lemma NestedDivision(a: nat, b: nat, c: nat)
    requires 0 < b && 0 < c
    ensures b * c > 0 && a / b / c == a / (b * c)
  {
    var q := a / b;
    var p := q / c;
    DivisionBounds(a, b);
    DivisionBounds(q, c);
    assert p * (b * c) == (p * c) * b;
    assert (p + 1) * (b * c) == ((p + 1) * c) * b;
    MulMonotonic(p * c, q, b);
    MulMonotonic(q + 1, (p + 1) * c, b);
    assert b * c > 0;
    QuotientFromBounds(a, b * c, p);
  }

  lemma RemainderUnique(n: int, d: int, q: int, r: int)
    requires 0 <= r < d && n == q * d + r
    ensures n % d == r && n / d == q
  {
    QuotientFromBounds(n, d, q);
  }

  lemma ExactQuotient(n: int, p: int, q: int)
    requires p > 0 && n == q * p
    ensures n / p == q && n % p == 0
  {
    RemainderUnique(n, p, q, 0);
  }

  lemma AddRemainder(a: int, b: int, m: int)
    requires m > 0
    ensures (a % m + b) % m == (a + b) % m
  {
    var q, k, r := a / m, (a + b) / m, (a + b) % m;
    assert a == q * m + a % m && a + b == k * m + r;
    assert (k - q) * m == k * m - q * m;
    RemainderUnique(a % m + b, m, k - q, r);
  }

  lemma Parity(k: nat, x: nat)
    ensures (2 * k + x) % 2 == x % 2
  {
  }

  lemma ModHalves(n: int, p: int)
    requires p > 0
    ensures n % (2 * p) == 2 * ((n / 2) % p) + n % 2
  {
    var h := n / 2;
    var q, r := h / p, h % p;
    assert h == q * p + r;
    assert n == q * (2 * p) + (2 * r + n % 2);
    RemainderUnique(n, 2 * p, q, 2 * r + n % 2);
  }
}
