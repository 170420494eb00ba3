/** Rounding an unpacked number to a floating-point format, and what correct rounding is. */
module FloatRounding {
  import opened Arithmetic
  import opened FloatGrid

  datatype Mode = TieEven | PlusInfinity | MinusInfinity | TowardsZero | ToOdd

  /** (sign ? -1 : 1) * mantissa / 2^62 * 2^exponent */
  datatype Unpacked = Unpacked(sign: bool, exponent: int, mantissa: nat)

  predicate Input(op: Unpacked) {
    0 < op.mantissa < TWO64
  }

  /** The formats have at most 52 fraction bits. */
  predicate Known(f: Format) {
    1 <= f.fraction <= 52 && f.exponentWidth >= 2
  }

  // ----- correct rounding

  function Distance(a: int, b: int): nat {
    if a < b then b - a else a - b
  }

  /** r is what v rounds to; `odd` tells whether the last bit of r is set. */
  ghost predicate CorrectlyRounded(f: Format, b: int, mode: Mode, sign: bool, v: int, r: int, odd: bool)
    requires b <= Lowest(f)
  {
    match mode
    case TieEven =>
      && Representable(f, b, r)
      && (forall x :: Representable(f, b, x) ==> Distance(v, r) <= Distance(v, x))
      && ((exists x :: Representable(f, b, x) && x != r && Distance(v, x) == Distance(v, r)) ==> !odd)
    case PlusInfinity => if sign then IsFloor(f, b, v, r) else IsCeil(f, b, v, r)
    case MinusInfinity => if sign then IsCeil(f, b, v, r) else IsFloor(f, b, v, r)
    case TowardsZero => IsFloor(f, b, v, r)
    case ToOdd => if Representable(f, b, v) then r == v else odd && (IsFloor(f, b, v, r) || IsCeil(f, b, v, r))
  }

  datatype Residual = Zero | LessThanHalf | Half | GreaterThanHalf

  /** Where a remainder stands in a place of size g. */
  function Class(rem: int, g: int): Residual {
    if rem == 0 then Zero else if 2 * rem < g then LessThanHalf else if 2 * rem == g then Half else GreaterThanHalf
  }

  predicate RoundsUp(mode: Mode, sign: bool, error: Residual, odd: bool) {
    match mode
    case TieEven => error == GreaterThanHalf || (error == Half && odd)
    case PlusInfinity => error != Zero && !sign
    case MinusInfinity => error != Zero && sign
    case TowardsZero => false
    case ToOdd => error != Zero && !odd
  }

  /** The significand chosen. */
  function Chosen(mode: Mode, sign: bool, n: nat, error: Residual): nat {
    if RoundsUp(mode, sign, error, n % 2 == 1) then n + 1 else n
  }

  /** A magnitude on or between two places: its neighbours. */
  lemma Neighbours(f: Format, b: int, q: int, n: nat, v: int, rem: int)
    requires b <= Lowest(f) && Significand(f, q, n)
    requires 0 <= rem < Pow2(q - b) && v == n * Pow2(q - b) + rem
    ensures (n + 1) * Pow2(q - b) == n * Pow2(q - b) + Pow2(q - b)
    ensures IsFloor(f, b, v, n * Pow2(q - b))
    ensures rem == 0 ==> IsCeil(f, b, v, n * Pow2(q - b)) && Representable(f, b, v)
    ensures rem > 0 ==> IsCeil(f, b, v, (n + 1) * Pow2(q - b)) && !Representable(f, b, v)
  {
    assert (n + 1) * Pow2(q - b) == n * Pow2(q - b) + Pow2(q - b);
    hide Representable, Pow2;
    FloorOnGrid(f, b, q, n, v);
    if rem > 0 {
      CeilOnGrid(f, b, q, n, v);
    }
  }

  /** Between neighbours, nothing is nearer than the nearer one. */
  lemma NearestOf(f: Format, b: int, v: int, lo: int, hi: int, x: int)
    requires b <= Lowest(f) && IsFloor(f, b, v, lo) && IsCeil(f, b, v, hi) && Representable(f, b, x)
    ensures Distance(v, lo) <= Distance(v, x) || Distance(v, hi) <= Distance(v, x)
    ensures x <= v ==> x <= lo && Distance(v, lo) <= Distance(v, x)
    ensures v <= x ==> hi <= x && Distance(v, hi) <= Distance(v, x)
  {
  }

  /** In units of the place: the nearer neighbour, the even one of two equally near. */
  lemma NearestChosen(f: Format, b: int, v: int, g: int, n: nat, rem: int, x: int)
    requires b <= Lowest(f) && 0 <= rem < g && v == n * g + rem
    requires IsFloor(f, b, v, n * g) && (rem > 0 ==> IsCeil(f, b, v, n * g + g)) && Representable(f, b, x)
    ensures
      var r := if RoundsUp(TieEven, false, Class(rem, g), n % 2 == 1) then n * g + g else n * g;
      && Representable(f, b, r) && Distance(v, r) <= Distance(v, x)
      && (x != r && Distance(v, x) == Distance(v, r) ==> r == if n % 2 == 1 then n * g + g else n * g)
  {
    var lo := n * g;
    FloorCeilRepresentable(f, b, v, lo, lo + g, rem);
    if rem > 0 {
      NearestOf(f, b, v, lo, lo + g, x);
    }
  }

  lemma ChosenCorrect(f: Format, b: int, mode: Mode, sign: bool, q: int, n: nat, v: int, rem: int)
    requires b <= Lowest(f) && Significand(f, q, n)
    requires 0 <= rem < Pow2(q - b) && v == n * Pow2(q - b) + rem
    ensures
      var c := Chosen(mode, sign, n, Class(rem, Pow2(q - b)));
      CorrectlyRounded(f, b, mode, sign, v, c * Pow2(q - b), c % 2 == 1)
  {
    Neighbours(f, b, q, n, v, rem);
    if mode == TieEven {
      NearestCorrect(f, b, sign, Pow2(q - b), n, v, rem);
    } else {
      DirectedCorrect(f, b, mode, sign, Pow2(q - b), n, v, rem);
    }
    hide *;
  }

  /** Every mode but the nearest takes one of the neighbours by its side alone. */
  lemma DirectedCorrect(f: Format, b: int, mode: Mode, sign: bool, g: int, n: nat, v: int, rem: int)
    requires b <= Lowest(f) && 0 <= rem && mode != TieEven && (rem == 0 ==> v == n * g)
    requires IsFloor(f, b, v, n * g)
    requires if rem == 0 then IsCeil(f, b, v, n * g) && Representable(f, b, v)
             else IsCeil(f, b, v, (n + 1) * g) && !Representable(f, b, v)
    ensures
      var c := Chosen(mode, sign, n, Class(rem, g));
      CorrectlyRounded(f, b, mode, sign, v, c * g, c % 2 == 1)
  {
    hide Representable, IsFloor, IsCeil;
  }

  lemma NearestCorrect(f: Format, b: int, sign: bool, g: int, n: nat, v: int, rem: int)
    requires b <= Lowest(f) && 0 <= rem < g && v == n * g + rem && (n + 1) * g == n * g + g
    requires IsFloor(f, b, v, n * g) && (rem > 0 ==> IsCeil(f, b, v, n * g + g))
    ensures
      var c := Chosen(TieEven, sign, n, Class(rem, g));
      CorrectlyRounded(f, b, TieEven, sign, v, c * g, c % 2 == 1)
  {
    var c := Chosen(TieEven, sign, n, Class(rem, g));
    assert c * g == if c == n then n * g else n * g + g;
    assert Representable(f, b, c * g) by { FloorCeilRepresentable(f, b, v, n * g, n * g + g, rem); }
    hide Representable, IsFloor, IsCeil;
    forall x | Representable(f, b, x)
      ensures Distance(v, c * g) <= Distance(v, x)
      ensures x != c * g && Distance(v, x) == Distance(v, c * g) ==> c % 2 == 0
    {
      NearestChosen(f, b, v, g, n, rem, x);
      hide Distance;
    }
  }

  lemma FloorCeilRepresentable(f: Format, b: int, v: int, lo: int, hi: int, rem: int)
    requires b <= Lowest(f) && IsFloor(f, b, v, lo) && (rem > 0 ==> IsCeil(f, b, v, hi))
    ensures Representable(f, b, lo) && (rem > 0 ==> Representable(f, b, hi))
  {
  }

  // ----- normalising

  function HighestSetBit(m: nat): (h: nat)
    requires m > 0
    ensures Pow2(h) <= m < Pow2(h + 1)
  {
    if m == 1 then 0 else 1 + HighestSetBit(m / 2)
  }

  /** A 64-bit shift by any amount: out of range gives zero, a negative one goes left. */
  function ShiftRight(m: nat, s: int): nat {
    if s >= 64 || s <= -64 then 0 else if s < 0 then Wrap64(m * Pow2(-s)) else Quotient(m, Pow2(s))
  }

  /** What is shifted out, in 64 bits: beyond them, the highest bit alone decides. */
  function ResidualOnShift(m: nat, s: int): Residual {
    if s <= 0 || m == 0 then Zero
    else if s > 64 then if m >= 0x8000_0000_0000_0000 then GreaterThanHalf else LessThanHalf
    else
      var half, error := Pow2(s - 1), m % Pow2(s);
      if error == 0 then Zero else if error < half then LessThanHalf
      else if error == half then Half else GreaterThanHalf
  }

  lemma ResidualClass(m: nat, s: nat)
    requires 0 < m < TWO64 && s > 0
    ensures m < 0x8000_0000_0000_0000 || s <= 64 ==> ResidualOnShift(m, s) == Class(m % Pow2(s), Pow2(s))
    ensures m >= 0x8000_0000_0000_0000 && s > 64 ==>
              ResidualOnShift(m, s) == GreaterThanHalf && Class(m % Pow2(s), Pow2(s)) == LessThanHalf
  {
    if s > 64 {
      AllShiftedOut(m, s);
    } else {
      assert Pow2(s) == 2 * Pow2(s - 1);
    }
    hide Pow2;
  }

  lemma AllShiftedOut(m: nat, s: nat)
    requires m < TWO64 && s > 64
    ensures m % Pow2(s) == m && m / Pow2(s) == 0 && 2 * m < Pow2(s)
  {
    Pow2Monotonic(64, s - 1);
    assert Pow2(64) == TWO64 by { Pow2Values(); }
    assert Pow2(s) == 2 * Pow2(s - 1);
    hide Pow2;
    RemainderUnique(m, Pow2(s), 0, m);
  }

  /** The last place the result is rounded to, and the shift that brings the mantissa there. */
  function Place(f: Format, op: Unpacked): int
    requires Input(op)
  {
    var e := op.exponent + HighestSetBit(op.mantissa) - 62;
    (if e < f.minExponent then f.minExponent else e) - f.fraction
  }

  function Shift(f: Format, op: Unpacked): int
    requires Input(op)
  {
    Place(f, op) - (op.exponent - 62)
  }

  lemma HighBitBelow64(m: nat)
    requires 0 < m < TWO64
    ensures HighestSetBit(m) < 64
  {
    Pow2Values();
    Pow2Below(HighestSetBit(m), 64);
  }

  /** No bit is lost to the left, and none is kept above the significand. */
  lemma ShiftedMantissa(m: nat, h: nat, s: int, fraction: nat)
    requires 0 < m < TWO64 && h == HighestSetBit(m) && s >= h - fraction && fraction <= 52
    ensures ShiftRight(m, s) == if s < 0 then m * Pow2(-s) else m / Pow2(s)
    ensures ShiftRight(m, s) < Pow2(fraction + 1)
    ensures s == h - fraction ==> ShiftRight(m, s) >= Pow2(fraction)
  {
    HighBitBelow64(m);
    hide HighestSetBit, Pow2;
    if s < 0 {
      LeftBounds(m, h, -s);
      Pow2Monotonic(h - s + 1, fraction + 1);
      BelowTwo64(m * Pow2(-s), fraction + 1);
    } else {
      RightBounds(m, h, s, fraction);
      if s >= 64 {
        NothingLeft(m, s);
      }
    }
  }

  lemma BelowTwo64(n: nat, k: nat)
    requires n < Pow2(k) && k <= 64
    ensures Wrap64(n) == n
  {
    Pow2Monotonic(k, 64);
    assert Pow2(64) == TWO64 by { Pow2Values(); }
  }

  lemma NothingLeft(m: nat, s: nat)
    requires m < TWO64 && s >= 64
    ensures m / Pow2(s) == 0
  {
    Pow2Monotonic(64, s);
    assert Pow2(64) == TWO64 by { Pow2Values(); }
    hide Pow2;
    RemainderUnique(m, Pow2(s), 0, m);
  }

  lemma LeftBounds(m: nat, h: nat, t: nat)
    requires Pow2(h) <= m < Pow2(h + 1)
    ensures Pow2(h + t) <= m * Pow2(t) < Pow2(h + t + 1)
  {
    Pow2Add(h, t);
    Pow2Add(h + 1, t);
    MulMonotonic(Pow2(h), m, Pow2(t));
    MulMonotonic(m + 1, Pow2(h + 1), Pow2(t));
  }

  lemma RightBounds(m: nat, h: nat, s: nat, fraction: nat)
    requires Pow2(h) <= m < Pow2(h + 1) && s >= h - fraction
    ensures m / Pow2(s) < Pow2(fraction + 1)
    ensures s == h - fraction ==> m / Pow2(s) >= Pow2(fraction)
  {
    DivisionBounds(m, Pow2(s));
    Pow2Add(fraction + 1, s);
    Pow2Monotonic(h + 1, fraction + 1 + s);
    if m / Pow2(s) >= Pow2(fraction + 1) {
      MulMonotonic(Pow2(fraction + 1), m / Pow2(s), Pow2(s));
    }
    if s == h - fraction && m / Pow2(s) < Pow2(fraction) {
      Pow2Add(fraction, s);
      MulMonotonic(m / Pow2(s) + 1, Pow2(fraction), Pow2(s));
    }
  }

  // ----- the mantissa on the grid

  function Magnitude(op: Unpacked, b: int): nat
    requires b <= op.exponent - 62
  {
    op.mantissa * Pow2(op.exponent - 62 - b)
  }

  /** The residual of a shift by more than 64 is misjudged when the highest bit is set. */
  predicate Misjudged(f: Format, op: Unpacked)
    requires Input(op)
  {
    op.mantissa >= 0x8000_0000_0000_0000 && Shift(f, op) > 64
  }

  lemma ClassScales(r: nat, g: nat, s: nat)
    requires s > 0 && r < g
    ensures 0 <= r * s < g * s && Class(r * s, g * s) == Class(r, g)
  {
    LessScales(r, g, s);
    Associate(2, r, s);
    if 2 * r < g {
      LessScales(2 * r, g, s);
    } else if 2 * r > g {
      LessScales(g, 2 * r, s);
    }
    assert r > 0 ==> r * s > 0;
  }

  lemma LessScales(a: nat, b: nat, s: nat)
    requires s > 0 && a < b
    ensures 0 <= a * s < b * s
  {
    MulMonotonic(a + 1, b, s);
    assert (a + 1) * s == a * s + s;
  }

  /** A magnitude is the shifted mantissa in its last place and a remainder, which the residual judges. */
  lemma MagnitudeOnGrid(f: Format, op: Unpacked, b: int) returns (rem: int)
    requires Known(f) && Input(op) && b <= Lowest(f) && b <= op.exponent - 62
    ensures
      var q, s := Place(f, op), Shift(f, op);
      var n, error := ShiftRight(op.mantissa, s), ResidualOnShift(op.mantissa, s);
      && Significand(f, q, n)
      && 0 <= rem < Pow2(q - b) && Magnitude(op, b) == n * Pow2(q - b) + rem
      && (if Misjudged(f, op) then error == GreaterThanHalf && n == 0 && Class(rem, Pow2(q - b)) == LessThanHalf
          else error == Class(rem, Pow2(q - b)))
  {
    var m, e, q, s := op.mantissa, op.exponent - 62, Place(f, op), Shift(f, op);
    var h := HighestSetBit(m);
    ShiftedMantissa(m, h, s, f.fraction);
    hide HighestSetBit, ShiftRight;
    if s <= 0 {
      rem := 0;
      Pow2Split(e, q, b);
      assert s < 0 || Pow2(0) == 1;
      Associate(m, Pow2(-s), Pow2(q - b));
    } else {
      rem := Scaled(m, s, e - b);
      assert Pow2(q - b) == Pow2(s) * Pow2(e - b) by { Pow2Split(q, e, b); }
      ResidualClass(m, s);
      if Misjudged(f, op) {
        AllShiftedOut(m, s);
      }
    }
  }

  lemma Scaled(m: nat, s: nat, t: nat) returns (rem: int)
    ensures 0 <= rem < Pow2(s) * Pow2(t) && m * Pow2(t) == m / Pow2(s) * (Pow2(s) * Pow2(t)) + rem
    ensures Class(rem, Pow2(s) * Pow2(t)) == Class(m % Pow2(s), Pow2(s))
  {
    var n, r, p, u := m / Pow2(s), m % Pow2(s), Pow2(s), Pow2(t);
    hide Pow2;
    rem := r * u;
    assert m == n * p + r;
    assert m * u == n * p * u + r * u;
    Associate(n, p, u);
    ClassScales(r, p, u);
  }

  /** The residual is nothing exactly when the magnitude is representable. */
  lemma ExactResidual(f: Format, op: Unpacked, b: int)
    requires Known(f) && Input(op) && b <= Lowest(f) && b <= op.exponent - 62
    ensures ResidualOnShift(op.mantissa, Shift(f, op)) == Zero <==> Representable(f, b, Magnitude(op, b))
  {
    var rem := MagnitudeOnGrid(f, op, b);
    Neighbours(f, b, Place(f, op), ShiftRight(op.mantissa, Shift(f, op)), Magnitude(op, b), rem);
  }
}
