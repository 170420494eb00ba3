/** Numbers that stand for others: an odd last bit says that the exact value lies strictly between the
    neighbours. Rounded to a place well above that bit, such a number gives what the exact value gives. */
module FloatSticky {
  import opened Arithmetic
  import opened FloatGrid
  import opened FloatRounding
  import opened FloatPacking

  /** m units of size u are the value v, or m is odd and v less than a unit away. */
  predicate Sticks(m: nat, u: nat, v: nat) {
    m * u == v || (m % 2 == 1 && Distance(m * u, v) < u)
  }

  /** In a place g of p units, p a multiple of four, the remainder of v is of the class of m's own. */
  lemma StickyClass(m: nat, p: nat, u: nat, g: nat, v: nat) returns (rem: int)
    requires u > 0 && p > 0 && p % 4 == 0 && g == p * u && Sticks(m, u, v)
    ensures 0 <= rem < g && v == m / p * g + rem
    ensures 0 <= m % p * u < g && m * u == m / p * g + m % p * u
    ensures Class(rem, g) == Class(m % p * u, g) && (rem == 0 || 2 * rem == g ==> v == m * u)
  {
    SplitUnits(m, p, u);
    var n, r := m / p, m % p;
    rem := v - n * g;
    if m * u != v {
      OddRemainder(n, p, r);
      StickyOdd(r, p, u, g, rem);
    }
  }

  lemma SplitUnits(m: nat, p: nat, u: nat)
    requires u > 0 && p > 0
    ensures m == m / p * p + m % p
    ensures 0 <= m % p * u < p * u && m * u == m / p * (p * u) + m % p * u
  {
    var n, r := m / p, m % p;
    assert m == n * p + r;
    assert (n * p + r) * u == n * p * u + r * u;
    Associate(n, p, u);
    MulMonotonic(r + 1, p, u);
    assert (r + 1) * u == r * u + u;
  }

  lemma OddRemainder(n: nat, p: nat, r: nat)
    requires p % 4 == 0 && (n * p + r) % 2 == 1
    ensures r % 2 == 1
  {
    Associate(n, 2, p / 2);
    Parity(n * (p / 2), r);
  }

  lemma StickyOdd(r: nat, p: nat, u: nat, g: nat, rem: int)
    requires u > 0 && p % 4 == 0 && r < p && r % 2 == 1 && g == p * u && Distance(r * u, rem) < u
    ensures 0 < rem < g && 2 * rem != g && Class(rem, g) == Class(r * u, g)
  {
    var h := p / 2;
    UnitsAround(r, u);
    assert g == 2 * (h * u) by { Associate(2, h, u); }
    MulMonotonic(r + 1, p, u);
    if r < h {
      MulMonotonic(r + 1, h, u);
    } else {
      MulMonotonic(h, r - 1, u);
    }
    ClassAround(r * u, u, h * u, rem);
  }

  lemma UnitsAround(r: nat, u: nat)
    requires r > 0
    ensures (r + 1) * u == r * u + u && (r - 1) * u == r * u - u >= 0
  {
    MulMonotonic(0, r - 1, u);
  }

  lemma ClassAround(a: int, u: int, h: int, rem: int)
    requires u > 0 && a - u >= 0 && a + u <= 2 * h && (a + u <= h || a - u >= h) && Distance(a, rem) < u
    ensures 0 < rem < 2 * h && 2 * rem != 2 * h && Class(rem, 2 * h) == Class(a, 2 * h)
  {
  }

  // ----- correct rounding carries over

  /** Two magnitudes between the same neighbours, in remainders of the same class. */
  predicate Alike(v: int, w: int, n: nat, g: int) {
    var a, c := v - n * g, w - n * g;
    0 <= a < g && 0 <= c < g && Class(a, g) == Class(c, g) && (a == 0 || 2 * a == g ==> v == w)
  }

  lemma CorrectAlike(f: Format, b: int, mode: Mode, sign: bool, q: int, n: nat, v: int, w: int, r: int, odd: bool)
    requires b <= Lowest(f) && Significand(f, q, n) && Alike(v, w, n, Pow2(q - b))
    requires CorrectlyRounded(f, b, mode, sign, w, r, odd)
    ensures CorrectlyRounded(f, b, mode, sign, v, r, odd)
  {
    var g := Pow2(q - b);
    if v != w {
      Neighbours(f, b, q, n, v, v - n * g);
      Neighbours(f, b, q, n, w, w - n * g);
      hide Pow2, Significand, Representable;
      if mode == TieEven {
        NearestAlike(f, b, sign, g, n, v, w, r, odd);
      } else {
        DirectedAlike(f, b, mode, sign, g, n, v, w, r, odd);
      }
    }
  }

  lemma FloorUnique(f: Format, b: int, v: int, r: int, s: int)
    requires b <= Lowest(f) && IsFloor(f, b, v, r) && IsFloor(f, b, v, s)
    ensures r == s
  {
  }

  lemma CeilUnique(f: Format, b: int, v: int, r: int, s: int)
    requires b <= Lowest(f) && IsCeil(f, b, v, r) && IsCeil(f, b, v, s)
    ensures r == s
  {
  }

  lemma DirectedAlike(f: Format, b: int, mode: Mode, sign: bool, g: int, n: nat, v: int, w: int, r: int, odd: bool)
    requires b <= Lowest(f) && mode != TieEven
    requires IsFloor(f, b, v, n * g) && IsCeil(f, b, v, (n + 1) * g) && !Representable(f, b, v)
    requires IsFloor(f, b, w, n * g) && IsCeil(f, b, w, (n + 1) * g) && !Representable(f, b, w)
    requires CorrectlyRounded(f, b, mode, sign, w, r, odd)
    ensures CorrectlyRounded(f, b, mode, sign, v, r, odd)
  {
    if IsFloor(f, b, w, r) {
      FloorUnique(f, b, w, r, n * g);
    }
    if IsCeil(f, b, w, r) {
      CeilUnique(f, b, w, r, (n + 1) * g);
    }
    hide Representable, IsFloor, IsCeil;
  }

  lemma NearestAlike(f: Format, b: int, sign: bool, g: int, n: nat, v: int, w: int, r: int, odd: bool)
    requires b <= Lowest(f) && Alike(v, w, n, g) && v != w && (n + 1) * g == n * g + g
    requires IsFloor(f, b, v, n * g) && IsCeil(f, b, v, n * g + g)
    requires IsFloor(f, b, w, n * g) && IsCeil(f, b, w, n * g + g)
    requires CorrectlyRounded(f, b, TieEven, sign, w, r, odd)
    ensures CorrectlyRounded(f, b, TieEven, sign, v, r, odd)
  {
    var lo := n * g;
    FloorCeilRepresentable(f, b, w, lo, lo + g, 1);
    NearestOf(f, b, w, lo, lo + g, r);
    assert r == if 2 * (w - lo) < g then lo else lo + g by {
      assert Distance(w, r) <= Distance(w, lo) && Distance(w, r) <= Distance(w, lo + g);
    }
    forall x | Representable(f, b, x)
      ensures Distance(v, r) <= Distance(v, x) && (x != r ==> Distance(v, r) < Distance(v, x))
    {
      NearestOf(f, b, v, lo, lo + g, x);
    }
  }

  // ----- rounding a number that stands for another

  /** Sixty bits are enough for every format. */
  ghost predicate StandsFor(op: Unpacked, v: nat, b: int)
    requires b <= op.exponent - 62
  {
    Pow2(60) <= op.mantissa < TWO64 && Sticks(op.mantissa, Pow2(op.exponent - 62 - b), v)
  }

  lemma StandsAlike(f: Format, op: Unpacked, v: nat, b: int)
    requires Known(f) && Unit(f, op, b) && StandsFor(op, v, b)
    ensures Input(op)
    ensures
      var n, q := ShiftRight(op.mantissa, Shift(f, op)), Place(f, op);
      Significand(f, q, n) && Alike(v, Magnitude(op, b), n, Pow2(q - b))
  {
    var m, s, u := op.mantissa, Shift(f, op), Pow2(op.exponent - 62 - b);
    var h := HighestSetBit(m);
    assert h >= 60 by { if h < 60 { Pow2Monotonic(h + 1, 60); } }
    var rem' := MagnitudeOnGrid(f, op, b);
    ShiftedMantissa(m, h, s, f.fraction);
    assert Pow2(s) % 4 == 0 by { FourDivides(s); }
    assert Pow2(Place(f, op) - b) == Pow2(s) * u by { Pow2Split(Place(f, op), op.exponent - 62, b); }
    hide Pow2, HighestSetBit, ShiftRight, Significand;
    var rem := StickyClass(m, Pow2(s), u, Pow2(Place(f, op) - b), v);
  }

  lemma FourDivides(s: nat)
    requires s >= 2
    ensures Pow2(s) % 4 == 0
  {
    assert Pow2(s) == 2 * Pow2(s - 1) == 4 * Pow2(s - 2);
  }

  lemma SignalledAlike(f: Format, b: int, alternative: bool, q: int, n: nat, v: nat, w: nat, r: int, before: Status,
                       after: Status)
    requires Known(f) && b <= Lowest(f) && Significand(f, q, n) && Alike(v, w, n, Pow2(q - b))
    requires Signalled(f, b, alternative, w, r, before, after)
    ensures Signalled(f, b, alternative, v, r, before, after)
  {
    var g := Pow2(q - b);
    if v != w {
      Neighbours(f, b, q, n, v, v - n * g);
      Neighbours(f, b, q, n, w, w - n * g);
      BelowNormalAlike(f, b, q, n, v, v - n * g);
      BelowNormalAlike(f, b, q, n, w, w - n * g);
      hide *;
    }
  }

  lemma BelowNormalAlike(f: Format, b: int, q: int, n: nat, v: nat, rem: int)
    requires b <= Lowest(f) && Significand(f, q, n)
    requires 0 <= rem < Pow2(q - b) && v == n * Pow2(q - b) + rem
    ensures v < Pow2(f.minExponent - b) <==> n < Pow2(f.fraction)
  {
    var g, p := Pow2(q - b), Pow2(f.fraction);
    assert (n + 1) * g == n * g + g;
    Pow2Add(f.fraction, q - b);
    if n < p {
      hide Pow2;
      MulMonotonic(n + 1, p, g);
    } else {
      Pow2Monotonic(f.minExponent - b, f.fraction + q - b);
      hide Pow2;
      MulMonotonic(p, n, g);
    }
  }

  /** What is right for a number is right for the one it stands for. */
  lemma StandsRounded(f: Format, b: int, alternative: bool, mode: Mode, op: Unpacked, v: nat, before: Status,
                      bits: nat, after: Status)
    requires Known(f) && Unit(f, op, b) && StandsFor(op, v, b)
    requires Rounded(f, b, alternative, mode, op, before, bits, after)
    ensures RoundedTo(f, b, alternative, mode, op.sign, v, before, bits, after)
  {
    var w := Magnitude(op, b);
    StandsAlike(f, op, v, b);
    var n, q := ShiftRight(op.mantissa, Shift(f, op)), Place(f, op);
    var r: nat, odd: bool :|
      && CorrectlyRounded(f, b, mode, op.sign, w, r, odd)
      && Encoded(f, b, alternative, mode, op.sign, r, odd, bits)
      && Signalled(f, b, alternative, w, r, before, after);
    hide CorrectlyRounded, Encoded, Signalled, Alike, Significand;
    CorrectAlike(f, b, mode, op.sign, q, n, v, w, r, odd);
    SignalledAlike(f, b, alternative, q, n, v, w, r, before, after);
  }
}
