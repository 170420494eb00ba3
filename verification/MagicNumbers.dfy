/** The arithmetic behind division by an invariant multiplier: when a truncated product of a
    32-bit numerator and a fixed multiplier is exactly the quotient. */
module MagicNumbers {
  import opened Arithmetic

  const MAX32: nat := 0xFFFF_FFFF

  /** The largest 32-bit multiple of `d`. */
  function LastMultiple(d: nat): nat
    requires d > 0
  {
    MAX32 - MAX32 % d
  }

  /** `m` over-approximates 2^(32+len) / d closely enough for every 32-bit numerator. */
  predicate RoundUp(d: nat, m: int, len: nat)
    requires d > 0
  {
    var e := m * d - Pow2(32 + len);
    0 < e && e * LastMultiple(d) <= Pow2(32 + len)
  }

  /** `m` under-approximates 2^(32+len) / d closely enough for every incremented numerator. */
  predicate RoundDown(d: nat, m: int, len: nat)
    requires d > 0
  {
    var r := Pow2(32 + len) - m * d;
    0 < r <= Pow2(len)
  }

  /** An odd divisor of a power of two is one. */
  lemma {:induction false} OddDividesPow2(d: nat, x: nat, k: nat)
    requires d % 2 == 1 && d * x == Pow2(k)
    ensures d == 1
    decreases k
  {
    if k == 0 {
      if d > 1 && x >= 1 { MulMonotonic(2, d, x); }
    } else {
      OddTimesEven(d, x);
      assert d * (x / 2) * 2 == d * x;
      OddDividesPow2(d, x / 2, k - 1);
    }
  }

  lemma OddTimesEven(d: int, x: int)
    requires d % 2 == 1 && (d * x) % 2 == 0
    ensures x % 2 == 0
  {
    var a := d / 2;
    assert d * x == 2 * (a * x) + x;
  }

  lemma ProductOfHalf(m: int, d: int)
    requires m % 2 == 0
    ensures m * d == 2 * ((m / 2) * d)
  {
  }

  /** The remainder of the largest 32-bit number is never d - 1 for an odd d > 1. */
  lemma LastMultipleFacts(d: nat)
    requires 1 < d < 0x8000_0000 && d % 2 == 1
    ensures MAX32 % d <= d - 2
    ensures 0x8000_0000 < LastMultiple(d) <= MAX32
    ensures LastMultiple(d) == (MAX32 / d) * d
  {
    if MAX32 % d == d - 1 {
      var x := MAX32 / d + 1;
      assert d * x == 0x1_0000_0000;
      Pow2Values();
      OddDividesPow2(d, x, 32);
    }
  }

  // ----- the two exactness theorems

  /** The critical inequality: the accumulated error stays below the next quotient. */
  lemma ErrorBelowNext(n: nat, d: nat, s: nat, e: nat)
    requires n <= MAX32 && 1 < d < 0x8000_0000 && d % 2 == 1
    requires 0 < e && e * LastMultiple(d) <= s
    ensures n * e < (d - n % d) * s
  {
    LastMultipleFacts(d);
    var r, top := n % d, LastMultiple(d);
    assert n * e + e == (n + 1) * e;
    if r == d - 1 {
      FullRemainderBelow(n, d);
      MulMonotonic(n + 1, top, e);
      assert d - r == 1;
    } else {
      MulMonotonic(n + 1, 2 * top, e);
      assert (2 * top) * e == 2 * (e * top);
      MulMonotonic(2, d - r, s);
    }
  }

  lemma FullRemainderBelow(n: nat, d: nat)
    requires n <= MAX32 && 1 < d < 0x8000_0000 && d % 2 == 1
    requires n % d == d - 1
    ensures n < LastMultiple(d)
  {
    LastMultipleFacts(d);
    var q, bigQ := n / d, MAX32 / d;
    assert n == q * d + (d - 1);
    if q >= bigQ {
      MulMonotonic(bigQ, q, d);
    } else {
      MulMonotonic(q + 1, bigQ, d);
    }
  }

  lemma RoundUpExact(n: nat, d: nat, m: nat, len: nat)
    requires n <= MAX32 && 1 < d < 0x8000_0000 && d % 2 == 1
    requires RoundUp(d, m, len)
    ensures (n * m) / Pow2(32 + len) == n / d
  {
    var s := Pow2(32 + len);
    var e := m * d - s;
    ErrorBelowNext(n, d, s, e);
    var q, r := n / d, n % d;
    ProductBoundsUp(n, d, m, s, e, q, r);
    QuotientFromBounds(n * m, s, q);
  }

  lemma ProductBoundsUp(n: nat, d: nat, m: nat, s: nat, e: nat, q: nat, r: nat)
    requires m * d == s + e && n == q * d + r && r < d
    requires n * e < (d - r) * s
    ensures q * s <= n * m < (q + 1) * s
  {
    assert (n * m) * d == n * s + n * e by {
      Associate(n, m, d);
      Distribute(n, s, e);
    }
    assert n * s == (q * d) * s + r * s by {
      Distribute(s, q * d, r);
    }
    assert (d - r) * s + r * s == d * s by {
      Distribute(s, d - r, r);
    }
    assert n * e >= 0 && r * s >= 0;
    CancelFactor(n * m, q, s, d);
  }

  lemma RoundDownExact(n: nat, d: nat, m: nat, len: nat)
    requires n <= MAX32 && 1 < d
    requires RoundDown(d, m, len)
    ensures ((n + 1) * m) / Pow2(32 + len) == n / d
  {
    var s, p := Pow2(32 + len), Pow2(len);
    var r := s - m * d;
    assert s == 0x1_0000_0000 * p by {
      Pow2Add(32, len);
      Pow2Values();
    }
    assert (n + 1) * r <= s by {
      MulMonotonic(n + 1, 0x1_0000_0000, r);
    }
    ProductBoundsDown(n, d, m, s, r, n / d, n % d);
    QuotientFromBounds((n + 1) * m, s, n / d);
  }

  lemma ProductBoundsDown(n: nat, d: nat, m: nat, s: nat, r: nat, q: nat, j: nat)
    requires m * d == s - r && 0 < r && n == q * d + j && j < d
    requires (n + 1) * r <= s
    ensures q * s <= (n + 1) * m < (q + 1) * s
  {
    var p := n + 1;
    assert (p * m) * d == p * s - p * r by {
      Associate(p, m, d);
      Distribute(p, s - r, r);
    }
    assert p * s == (q * d) * s + (j + 1) * s by {
      Distribute(s, q * d, j + 1);
    }
    assert p * r > 0;
    MulMonotonic(1, j + 1, s);
    MulMonotonic(j + 1, d, s);
    CancelFactor(p * m, q, s, d);
  }

  lemma CancelFactor(x: nat, q: nat, s: nat, d: nat)
    requires 0 < d && (q * d) * s <= x * d < (q * d) * s + d * s
    ensures q * s <= x < (q + 1) * s
  {
    assert (q * d) * s == (q * s) * d;
    assert (q + 1) * s == q * s + s;
    assert ((q + 1) * s) * d == (q * s) * d + d * s;
    if x < q * s {
      MulMonotonic(x + 1, q * s, d);
    } else if (q + 1) * s <= x {
      MulMonotonic((q + 1) * s, x, d);
    }
  }

  // ----- halving an even multiplier keeps its exactness and its length non-negative

  lemma HalveRoundUp(d: nat, m: nat, len: nat)
    requires 1 < d < 0x8000_0000 && d % 2 == 1
    requires RoundUp(d, m, len) && m % 2 == 0
    ensures 0 < len && RoundUp(d, m / 2, len - 1)
  {
    LastMultipleFacts(d);
    var s, half := Pow2(32 + len), Pow2(31 + len);
    assert s == 2 * half;
    ProductOfHalf(m, d);
    var h := (m / 2) * d - half;
    HalvedError(h, LastMultiple(d), half);
    assert len > 0 by { Pow2Values(); }
  }

  lemma HalvedError(h: int, top: int, half: int)
    requires 0 < 2 * h && (2 * h) * top <= 2 * half && 0x8000_0000 < top
    ensures 0 < h && h * top <= half && 0x8000_0000 < half
  {
    Associate(2, h, top);
    MulMonotonic(1, h, top);
  }

  lemma HalveRoundDown(d: nat, m: int, len: nat)
    requires 1 < d
    requires RoundDown(d, m, len) && m % 2 == 0
    ensures 0 < len && RoundDown(d, m / 2, len - 1)
  {
    ProductOfHalf(m, d);
    assert Pow2(32 + len) == 2 * Pow2(31 + len);
  }

  // ----- the search for the multiplier

  /** What the shrinking loop keeps about (mLow, mHigh) at the current length. */
  predicate Bracket(d: nat, mLow: int, mHigh: int, len: nat)
    requires d > 0
  {
    && mLow == Pow2(32 + len) / d
    && mLow <= mHigh
    && (mHigh * d - Pow2(32 + len)) * LastMultiple(d) <= Pow2(32 + len)
  }

  /** Bounds on the odd part that fix its bit length `bits`. */
  predicate HasBits(d: nat, bits: nat)
  {
    bits > 0 && Pow2(bits - 1) <= d < Pow2(bits)
  }

  lemma SlackBounds(d: nat, bits: nat, k: int)
    requires 1 < d < 0x4000_0000 && d % 2 == 1 && HasBits(d, bits)
    requires k == Pow2(32 + bits) / LastMultiple(d)
    ensures bits <= 30 && Pow2(32 + bits) == 0x1_0000_0000 * Pow2(bits)
    ensures Pow2(bits) <= k < 0x1_0000_0000
    ensures k * LastMultiple(d) <= Pow2(32 + bits)
  {
    LastMultipleFacts(d);
    Pow2Values();
    Pow2Add(32, bits);
    assert bits <= 30 by {
      if bits > 30 { Pow2Monotonic(30, bits - 1); }
    }
    Pow2Monotonic(bits, 30);
    SlackQuotient(Pow2(bits), LastMultiple(d), k);
  }

  lemma SlackQuotient(p: nat, top: nat, k: int)
    requires 0 < p <= 0x4000_0000 && 0x8000_0000 < top <= 0xFFFF_FFFF
    requires k == (0x1_0000_0000 * p) / top
    ensures p <= k < 0x1_0000_0000
    ensures k * top <= 0x1_0000_0000 * p
  {
    var t := 0x1_0000_0000 * p;
    DivisionBounds(t, top);
    if k < p {
      MulMonotonic(k + 1, p, top);
      MulMonotonic(top, 0xFFFF_FFFF, p);
    } else if k >= 0x1_0000_0000 {
      MulMonotonic(0x1_0000_0000, k, top);
    }
  }

  lemma InitialBracket(d: nat, bits: nat, k: int, mLow: int, mHigh: int)
    requires 1 < d < 0x4000_0000 && d % 2 == 1 && HasBits(d, bits)
    requires k == Pow2(32 + bits) / LastMultiple(d)
    requires mLow == Pow2(32 + bits) / d && mHigh == (Pow2(32 + bits) + k) / d
    ensures Bracket(d, mLow, mHigh, bits)
    ensures mLow >= 0x1_0000_0000
  {
    SlackBounds(d, bits, k);
    LastMultipleFacts(d);
    var t, top := Pow2(32 + bits), LastMultiple(d);
    DivisionBounds(t, d);
    DivisionBounds(t + k, d);
    MulMonotonic(mHigh * d - t, k, top);
    if mHigh < mLow { MulMonotonic(mHigh + 1, mLow, d); }
    Pow2Add(32, bits);
    Pow2Values();
    if mLow < 0x1_0000_0000 {
      MulMonotonic(mLow + 1, 0x1_0000_0000, d);
    }
  }

  /** One iteration of the shrinking loop. */
  lemma ShrinkBracket(d: nat, mLow: int, mHigh: int, len: nat)
    requires 1 < d && 0 < len && Bracket(d, mLow, mHigh, len)
    requires mLow / 2 < mHigh / 2
    ensures Bracket(d, mLow / 2, mHigh / 2, len - 1)
  {
    assert Pow2(32 + len) == 2 * Pow2(32 + (len - 1));
    ShrinkArithmetic(d, mHigh, Pow2(32 + (len - 1)), LastMultiple(d));
  }

  lemma ShrinkArithmetic(d: nat, mHigh: int, s: nat, top: nat)
    requires 0 < d && (mHigh * d - 2 * s) * top <= 2 * s
    ensures (2 * s) / d / 2 == s / d
    ensures (mHigh / 2 * d - s) * top <= s
  {
    NestedDivision(2 * s, d, 2);
    NestedDivision(2 * s, 2, d);
    assert d * 2 == 2 * d;
    var h := mHigh / 2;
    MulMonotonic(2 * h, mHigh, d);
    assert (2 * h) * d == 2 * (h * d);
    var x := h * d - s;
    MulMonotonic(2 * x, mHigh * d - 2 * s, top);
    assert (2 * x) * top == 2 * (x * top);
  }

  /** A single halving already brings the upper multiplier into 32 bits. */
  lemma FirstHalvingFits(d: nat, bits: nat, k: int, mHigh: int)
    requires 1 < d < 0x4000_0000 && d % 2 == 1 && HasBits(d, bits)
    requires k == Pow2(32 + bits) / LastMultiple(d)
    requires mHigh == (Pow2(32 + bits) + k) / d
    ensures mHigh / 2 < 0x1_0000_0000
  {
    SlackBounds(d, bits, k);
    var half := Pow2(bits - 1);
    assert Pow2(bits) == 2 * half;
    assert d > half by {
      if bits > 1 {
        assert half == 2 * Pow2(bits - 2);
      }
    }
    DivisionBounds(Pow2(32 + bits) + k, d);
    if mHigh >= 0x2_0000_0000 {
      MulMonotonic(0x2_0000_0000, mHigh, d);
    }
  }

  /** A shrunk bracket inside 32 bits is an exact round-up multiplier. */
  lemma ShrunkIsRoundUp(d: nat, mLow: int, mHigh: int, len: nat)
    requires 1 < d && Bracket(d, mLow, mHigh, len) && mLow < mHigh
    ensures RoundUp(d, mHigh, len)
  {
    var s := Pow2(32 + len);
    DivisionBounds(s, d);
    MulMonotonic(mLow + 1, mHigh, d);
  }

  /** When the loop cannot take its first step the remainder is in the lower half. */
  lemma NoShrinkMeansLowRemainder(d: nat, bits: nat, k: int, mLow: int, mHigh: int, s: nat)
    requires 1 < d < 0x4000_0000 && d % 2 == 1 && HasBits(d, bits)
    requires k == Pow2(32 + bits) / LastMultiple(d)
    requires mLow == Pow2(32 + bits) / d && mHigh == (Pow2(32 + bits) + k) / d
    requires mLow / 2 >= mHigh / 2
    requires s == Pow2(32 + (bits - 1))
    ensures s % d <= d / 2
  {
    SlackBounds(d, bits, k);
    assert Pow2(32 + bits) == 2 * s;
    LowRemainderArithmetic(d, s, k, mHigh);
  }

  lemma LowRemainderArithmetic(d: nat, s: nat, k: int, mHigh: int)
    requires 1 < d <= k
    requires mHigh == (2 * s + k) / d
    requires (2 * s) / d / 2 >= mHigh / 2
    ensures s % d <= d / 2
  {
    var r, c := s % d, s / d + 1;
    assert s == (c - 1) * d + r;
    assert (2 * s) / d / 2 == s / d by {
      NestedDivision(2 * s, d, 2);
      NestedDivision(2 * s, 2, d);
      assert d * 2 == 2 * d;
    }
    if r > d / 2 {
      assert (2 * c) * d == 2 * s + 2 * (d - r);
      DivisionBounds(2 * s + k, d);
      MulMonotonic(mHigh + 1, 2 * c, d);
    }
  }

  /** The fall-back multiplier is an exact round-down multiplier of 32 bits. */
  lemma FallBackIsRoundDown(d: nat, bits: nat, s: nat)
    requires 1 < d < 0x4000_0000 && d % 2 == 1 && HasBits(d, bits)
    requires s == Pow2(32 + (bits - 1)) && s % d <= d / 2
    ensures RoundDown(d, s / d, bits - 1)
    ensures 0 < s / d < 0x1_0000_0000
  {
    var m, r := s / d, s % d;
    assert s == m * d + r;
    var half := Pow2(bits - 1);
    assert Pow2(bits) == 2 * half;
    assert r > 0 by {
      if r == 0 { OddDividesPow2(d, m, 32 + (bits - 1)); }
    }
    assert s == 0x1_0000_0000 * half by { Pow2Add(32, bits - 1); Pow2Values(); }
    assert m > 0;
    if m >= 0x1_0000_0000 {
      MulMonotonic(0x1_0000_0000, m, d);
    }
  }

  // ----- the search as a whole

  /** The error the bracket tolerates at its starting length. */
  function Slack(d: nat, bits: nat): int
    requires d > 0 && LastMultiple(d) > 0
  {
    Pow2(32 + bits) / LastMultiple(d)
  }

  /** What every iteration of the shrinking loop keeps: the bracket, the starting values until the
      first step, and a strict bracket inside 32 bits from the first step on. */
  predicate Searching(d: nat, bits: nat, mLow: int, mHigh: int, len: nat)
    requires d > 0 && LastMultiple(d) > 0
  {
    && len <= bits
    && Bracket(d, mLow, mHigh, len)
    && (len == bits ==> mHigh == (Pow2(32 + bits) + Slack(d, bits)) / d)
    && (len < bits ==> mLow < mHigh < 0x1_0000_0000)
  }

  lemma SearchStarts(d: nat, bits: nat)
    requires 1 < d < 0x4000_0000 && d % 2 == 1 && HasBits(d, bits)
    ensures LastMultiple(d) > 0
    ensures Searching(d, bits, Pow2(32 + bits) / d, (Pow2(32 + bits) + Slack(d, bits)) / d, bits)
    ensures Pow2(32 + bits) + Slack(d, bits) < 0x8000_0000_0000_0000
  {
    LastMultipleFacts(d);
    var k := Slack(d, bits);
    InitialBracket(d, bits, k, Pow2(32 + bits) / d, (Pow2(32 + bits) + k) / d);
    SlackBounds(d, bits, k);
    Pow2Monotonic(bits, 30);
    Pow2Values();
  }

  lemma SearchSteps(d: nat, bits: nat, mLow: int, mHigh: int, len: nat)
    requires 1 < d < 0x4000_0000 && d % 2 == 1 && HasBits(d, bits) && LastMultiple(d) > 0
    requires Searching(d, bits, mLow, mHigh, len) && 0 < len && mLow / 2 < mHigh / 2
    ensures Searching(d, bits, mLow / 2, mHigh / 2, len - 1)
  {
    ShrinkBracket(d, mLow, mHigh, len);
    if len == bits {
      FirstHalvingFits(d, bits, Slack(d, bits), mHigh);
    }
  }

  /** The loop ends inside 32 bits exactly when it took a step, and then with a round-up
      multiplier; otherwise the fall-back is taken, where the remainder is always in the lower
      half, so that the rounded-down multiplier is the one chosen. */
  lemma SearchEnds(d: nat, bits: nat, mLow: int, mHigh: int, len: nat, s: nat)
    requires 1 < d < 0x4000_0000 && d % 2 == 1 && HasBits(d, bits) && LastMultiple(d) > 0
    requires Searching(d, bits, mLow, mHigh, len)
    requires !(mLow / 2 < mHigh / 2 && len > 0)
    requires s == Pow2(32 + (bits - 1))
    ensures mHigh < 0x1_0000_0000 <==> len < bits
    ensures len < bits ==> mHigh > 0 && RoundUp(d, mHigh, len) && Pow2(len) <= d
    ensures len == bits ==> s % d <= d / 2 && RoundDown(d, s / d, bits - 1) && 0 < s / d < 0x1_0000_0000
  {
    if len < bits {
      ShrunkIsRoundUp(d, mLow, mHigh, len);
      Pow2Monotonic(len, bits - 1);
    } else {
      InitialBracket(d, bits, Slack(d, bits), mLow, mHigh);
      NoShrinkMeansLowRemainder(d, bits, Slack(d, bits), mLow, mHigh, s);
      FallBackIsRoundDown(d, bits, s);
    }
  }
}
