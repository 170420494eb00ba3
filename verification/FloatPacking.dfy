/** Packing a rounded significand into the bits of a floating-point format, and the whole rounding
    operation: its result is the correctly rounded one, and exactly when it is not. */
module FloatPacking {
  import opened Arithmetic
  import opened FloatGrid
  import opened FloatRounding

  // ----- packing

  function Pack(f: Format, sign: bool, biased: nat, frac: nat): nat {
    ((if sign then Pow2(f.exponentWidth) else 0) + biased) * Pow2(f.fraction) + frac
  }

  /** The bits fit into sign, exponent and fraction. */
  predicate Fits(f: Format, bits: nat) {
    bits / Pow2(f.fraction) < 2 * Pow2(f.exponentWidth)
  }

  function SignOf(f: Format, bits: nat): bool {
    bits / Pow2(f.fraction) >= Pow2(f.exponentWidth)
  }

  function BiasedOf(f: Format, bits: nat): nat {
    bits / Pow2(f.fraction) % Pow2(f.exponentWidth)
  }

  function FractionOf(f: Format, bits: nat): nat {
    bits % Pow2(f.fraction)
  }

  /** The magnitude of a finite encoding. */
  function Decoded(f: Format, b: int, biased: nat, frac: nat): nat
    requires b <= Lowest(f)
  {
    if biased == 0 then frac * Pow2(Lowest(f) - b) else (Pow2(f.fraction) + frac) * Pow2(Lowest(f) + biased - 1 - b)
  }

  lemma PackedFields(f: Format, sign: bool, biased: nat, frac: nat)
    requires f.fraction >= 1 && biased < Pow2(f.exponentWidth) && frac < Pow2(f.fraction)
    ensures
      var bits := Pack(f, sign, biased, frac);
      && Fits(f, bits) && bits % 2 == frac % 2
      && SignOf(f, bits) == sign && BiasedOf(f, bits) == biased && FractionOf(f, bits) == frac
  {
    assert Pow2(f.fraction) == 2 * Pow2(f.fraction - 1);
    FieldsApart(Pow2(f.exponentWidth), Pow2(f.fraction - 1), if sign then 1 else 0, biased, frac);
  }

  lemma FieldsApart(e: nat, h: nat, sign: nat, biased: nat, frac: nat)
    requires h > 0 && sign <= 1 && biased < e && frac < 2 * h
    ensures
      var bits := (sign * e + biased) * (2 * h) + frac;
      && bits / (2 * h) == sign * e + biased && bits % (2 * h) == frac
      && (sign * e + biased) % e == biased && bits % 2 == frac % 2
  {
    var top := sign * e + biased;
    RemainderUnique(top * (2 * h) + frac, 2 * h, top, frac);
    RemainderUnique(top, e, sign, biased);
    EvenPart(top, h, frac);
  }

  lemma EvenPart(top: nat, h: nat, frac: nat)
    ensures (top * (2 * h) + frac) % 2 == frac % 2
  {
    Associate(top, 2, h);
    assert top * (2 * h) == 2 * (top * h);
  }

  /** The exponent field and the significand after the increment, as the source carries. */
  function Carried(f: Format, biased: nat, mantissa: nat, up: bool): (nat, nat) {
    if !up then (biased, mantissa)
    else if mantissa % Pow2(f.fraction) == Pow2(f.fraction) - 1 then
      if mantissa == Pow2(f.fraction) - 1 then (biased + 1, mantissa + 1) else (biased + 1, (mantissa + 1) / 2)
    else (biased, mantissa + 1)
  }

  /** The exponent field of a significand. */
  function Biased(f: Format, q: int, n: nat): nat
    requires q >= Lowest(f)
  {
    if n < Pow2(f.fraction) then 0 else q - Lowest(f) + 1
  }

  predicate Field(f: Format, biased: nat, mantissa: nat) {
    mantissa < 2 * Pow2(f.fraction) && (biased == 0 <==> mantissa < Pow2(f.fraction))
  }

  /** Carrying gives a significand again, and the same magnitude. */
  lemma CarriedValue(f: Format, b: int, q: int, n: nat, up: bool)
    requires f.fraction >= 1 && b <= Lowest(f) && Significand(f, q, n)
    ensures
      var c, g, p := if up then n + 1 else n, Pow2(q - b), Pow2(f.fraction);
      var (biased, mantissa) := Carried(f, Biased(f, q, n), n, up);
      Field(f, biased, mantissa) && Decoded(f, b, biased, mantissa % p) == c * g && mantissa % 2 == c % 2
  {
    var p, g, c := Pow2(f.fraction), Pow2(q - b), if up then n + 1 else n;
    assert Pow2(f.fraction + 1) == 2 * p && p == 2 * Pow2(f.fraction - 1);
    FieldOf(n, p);
    if c == 2 * p {
      assert Pow2(q + 1 - b) == 2 * g;
      hide Pow2;
      assert Carried(f, Biased(f, q, n), n, up) == (q - Lowest(f) + 2, p);
      FieldOf(p, p);
      Associate(p, 2, g);
    } else {
      hide Pow2;
      assert Carried(f, Biased(f, q, n), n, up) == (if c < p then 0 else q - Lowest(f) + 1, c);
      FieldOf(c, p);
    }
  }

  lemma FieldOf(n: nat, p: nat)
    requires 0 < p && n < 2 * p
    ensures n % p == if n < p then n else n - p
  {
    RemainderUnique(n, p, if n < p then 0 else 1, if n < p then n else n - p);
  }

  /** The exponent field that no finite number has: in the alternative format every field is finite. */
  function TopField(f: Format, alternative: bool): nat {
    if alternative then Pow2(f.exponentWidth) else Pow2(f.exponentWidth) - 1
  }

  /** The first magnitude beyond the finite ones. */
  function Limit(f: Format, b: int, alternative: bool): nat
    requires b <= Lowest(f) && f.exponentWidth >= 1
  {
    assert Pow2(f.exponentWidth) >= 2;
    Pow2(f.fraction + (Lowest(f) - b) + TopField(f, alternative) - 1)
  }

  lemma BeyondLimit(f: Format, b: int, biased: nat, mantissa: nat, alternative: bool)
    requires b <= Lowest(f) && f.exponentWidth >= 1 && Field(f, biased, mantissa)
    ensures biased >= TopField(f, alternative)
            <==> Decoded(f, b, biased, mantissa % Pow2(f.fraction)) >= Limit(f, b, alternative)
  {
    var t, top := f.fraction + (Lowest(f) - b), TopField(f, alternative);
    assert Pow2(f.exponentWidth) >= 2;
    DecodedRange(f, b, biased, mantissa);
    hide Decoded, Pow2;
    if biased >= top {
      Pow2Monotonic(t + top - 1, t + biased - 1);
    } else {
      Pow2Monotonic(t + biased, t + top - 1);
    }
  }

  lemma DecodedRange(f: Format, b: int, biased: nat, mantissa: nat)
    requires b <= Lowest(f) && Field(f, biased, mantissa)
    ensures
      var t, d := f.fraction + (Lowest(f) - b), Decoded(f, b, biased, mantissa % Pow2(f.fraction));
      (biased > 0 ==> Pow2(t + biased - 1) <= d) && d < Pow2(t + biased)
  {
    var u := Lowest(f) - b;
    FieldOf(mantissa, Pow2(f.fraction));
    if biased == 0 {
      BelowPower(mantissa, f.fraction, u);
    } else {
      assert Pow2(f.fraction + 1) == 2 * Pow2(f.fraction);
      hide Pow2;
      assert Decoded(f, b, biased, mantissa % Pow2(f.fraction)) == mantissa * Pow2(u + biased - 1);
      LeftBounds(mantissa, f.fraction, u + biased - 1);
      hide Decoded;
    }
  }

  lemma BelowPower(m: nat, h: nat, t: nat)
    requires m < Pow2(h)
    ensures m * Pow2(t) < Pow2(h + t)
  {
    Pow2Add(h, t);
    hide Pow2;
    MulMonotonic(m + 1, Pow2(h), Pow2(t));
  }

  predicate ToInfinity(mode: Mode, sign: bool) {
    mode == TieEven || (mode == PlusInfinity && !sign) || (mode == MinusInfinity && sign)
  }

  /** The bits of infinity and of the largest finite number. */
  function Infinity(f: Format, sign: bool): nat {
    Pack(f, sign, Pow2(f.exponentWidth) - 1, 0)
  }

  function MaxNormal(f: Format, sign: bool): nat
    requires f.exponentWidth >= 1
  {
    Infinity(f, sign) - 1
  }

  function DefaultNaN(f: Format): nat
    requires Known(f)
  {
    Pack(f, false, Pow2(f.exponentWidth) - 1, Pow2(f.fraction - 1))
  }

  /** The bits stand for the magnitude r, or for what takes its place beyond the finite ones. */
  predicate Encoded(f: Format, b: int, alternative: bool, mode: Mode, sign: bool, r: nat, odd: bool, bits: nat)
    requires b <= Lowest(f) && f.exponentWidth >= 1
  {
    if r < Limit(f, b, alternative) then
      && Fits(f, bits) && SignOf(f, bits) == sign
      && BiasedOf(f, bits) < TopField(f, alternative) && Decoded(f, b, BiasedOf(f, bits), FractionOf(f, bits)) == r
      && odd == (bits % 2 == 1)
    else if alternative then bits == if sign then 0xFFFF else 0x7FFF
    else bits == if ToInfinity(mode, sign) then Infinity(f, sign) else MaxNormal(f, sign)
  }

  datatype Status = Status(underflow: bool, overflow: bool, inexact: bool, invalid: bool)

  // ----- the operation

  /** A number below the normal ones rounds to a subnormal field, any other to its own exponent. */
  lemma FieldBefore(f: Format, op: Unpacked)
    requires Known(f) && Input(op)
    ensures
      var e, n := op.exponent + HighestSetBit(op.mantissa) - 62, ShiftRight(op.mantissa, Shift(f, op));
      && Place(f, op) >= Lowest(f)
      && Biased(f, Place(f, op), n) == if e < f.minExponent then 0 else e - f.minExponent + 1
  {
    var h, s := HighestSetBit(op.mantissa), Shift(f, op);
    hide Pow2, ShiftRight;
    if s == h - f.fraction {
      ShiftedMantissa(op.mantissa, h, s, f.fraction);
    } else {
      ShiftedMantissa(op.mantissa, h, s, f.fraction - 1);
    }
  }

  /** Setting the last bit is an increment that does not carry. */
  lemma SetLastBit(f: Format, biased: nat, n: nat, up: bool)
    requires f.fraction >= 1 && (up ==> n % 2 == 0) && n < 2 * Pow2(f.fraction)
    ensures Carried(f, biased, n, up) == (biased, if up then n + 1 else n)
  {
    FieldOf(n, Pow2(f.fraction));
    assert Pow2(f.fraction) == 2 * Pow2(f.fraction - 1);
  }

  /** The bits put together after the increment. */
  function Packed(f: Format, alternative: bool, mode: Mode, sign: bool, biased: nat, mantissa: nat): nat
    requires f.exponentWidth >= 1
  {
    if biased < TopField(f, alternative) then Pack(f, sign, biased, mantissa % Pow2(f.fraction))
    else if alternative then if sign then 0xFFFF else 0x7FFF
    else if ToInfinity(mode, sign) then Infinity(f, sign) else MaxNormal(f, sign)
  }

  lemma PackedEncodes(f: Format, b: int, alternative: bool, mode: Mode, sign: bool, q: int, n: nat, up: bool)
    requires Known(f) && b <= Lowest(f) && Significand(f, q, n)
    ensures
      var c := if up then n + 1 else n;
      var (biased, mantissa) := Carried(f, Biased(f, q, n), n, up);
      Encoded(f, b, alternative, mode, sign, c * Pow2(q - b), c % 2 == 1,
              Packed(f, alternative, mode, sign, biased, mantissa))
  {
    var (biased, mantissa) := Carried(f, Biased(f, q, n), n, up);
    CarriedValue(f, b, q, n, up);
    BeyondLimit(f, b, biased, mantissa, alternative);
    hide Carried, Biased, Pow2, Limit, Decoded;
    if biased < TopField(f, alternative) {
      PackedFields(f, sign, biased, mantissa % Pow2(f.fraction));
      LowBit(f, mantissa);
    }
  }

  lemma LowBit(f: Format, mantissa: nat)
    requires f.fraction >= 1 && mantissa < 2 * Pow2(f.fraction)
    ensures mantissa % Pow2(f.fraction) % 2 == mantissa % 2
  {
    FieldOf(mantissa, Pow2(f.fraction));
    assert Pow2(f.fraction) == 2 * Pow2(f.fraction - 1);
  }

  // ----- what is promised

  predicate Unit(f: Format, op: Unpacked, b: int) {
    b <= Lowest(f) && b <= op.exponent - 62
  }

  /** The flags raised when the magnitude v rounds to r: underflow for an inexact subnormal one,
      overflow beyond the finite ones (invalid operation in the alternative format), inexact. */
  ghost predicate Signalled(f: Format, b: int, alternative: bool, v: int, r: int, before: Status, after: Status)
    requires b <= Lowest(f) && f.exponentWidth >= 1
  {
    var beyond, exact := r >= Limit(f, b, alternative), Representable(f, b, v);
    after == Status(
      before.underflow || (v < Pow2(f.minExponent - b) && !exact),
      before.overflow || (beyond && !alternative),
      before.inexact || (if beyond then !alternative else !exact),
      before.invalid || (beyond && alternative))
  }

  /** The bits and flags are those of the correctly rounded magnitude v. */
  ghost predicate RoundedTo(f: Format, b: int, alternative: bool, mode: Mode, sign: bool, v: nat, before: Status,
                            bits: nat, after: Status)
    requires Known(f) && b <= Lowest(f)
  {
    exists r: nat, odd: bool ::
      && CorrectlyRounded(f, b, mode, sign, v, r, odd)
      && Encoded(f, b, alternative, mode, sign, r, odd, bits)
      && Signalled(f, b, alternative, v, r, before, after)
  }

  ghost predicate Rounded(f: Format, b: int, alternative: bool, mode: Mode, op: Unpacked, before: Status,
                          bits: nat, after: Status)
    requires Known(f) && Unit(f, op, b)
  {
    RoundedTo(f, b, alternative, mode, op.sign, Magnitude(op, b), before, bits, after)
  }

  /** What the operation has computed when it returns. */
  predicate Computed(f: Format, alternative: bool, mode: Mode, op: Unpacked, before: Status,
                     bits: nat, after: Status)
    requires Known(f) && Input(op)
  {
    var n, error := ShiftRight(op.mantissa, Shift(f, op)), ResidualOnShift(op.mantissa, Shift(f, op));
    var small := op.exponent + HighestSetBit(op.mantissa) - 62 < f.minExponent;
    var up := RoundsUp(mode, op.sign, error, n % 2 == 1);
    var (biased, mantissa) := Carried(f, Biased(f, Place(f, op), n), n, up);
    var beyond := biased >= TopField(f, alternative);
    && bits == Packed(f, alternative, mode, op.sign, biased, mantissa)
    && after == Status(
      before.underflow || (small && error != Zero),
      before.overflow || (beyond && !alternative),
      before.inexact || (if beyond then !alternative else error != Zero),
      before.invalid || (beyond && alternative))
  }

  /** The exponent tells whether a magnitude is below the normal ones. */
  lemma BelowNormal(f: Format, op: Unpacked, b: int)
    requires Known(f) && Input(op) && Unit(f, op, b)
    ensures op.exponent + HighestSetBit(op.mantissa) - 62 < f.minExponent
            <==> Magnitude(op, b) < Pow2(f.minExponent - b)
  {
    var h, t := HighestSetBit(op.mantissa), op.exponent - 62 - b;
    LeftBounds(op.mantissa, h, t);
    hide Pow2, HighestSetBit;
    if h + t < f.minExponent - b {
      Pow2Monotonic(h + t + 1, f.minExponent - b);
    } else {
      Pow2Monotonic(f.minExponent - b, h + t);
    }
  }

  /** The magnitude the operation encodes. */
  function Taken(f: Format, b: int, mode: Mode, op: Unpacked): nat
    requires Known(f) && Input(op) && Unit(f, op, b) && Place(f, op) >= b
  {
    Chosen(mode, op.sign, ShiftRight(op.mantissa, Shift(f, op)), ResidualOnShift(op.mantissa, Shift(f, op)))
      * Pow2(Place(f, op) - b)
  }

  lemma ComputedEncodes(f: Format, b: int, alternative: bool, mode: Mode, op: Unpacked, before: Status,
                        bits: nat, after: Status)
    requires Known(f) && Input(op) && Unit(f, op, b) && Computed(f, alternative, mode, op, before, bits, after)
    ensures
      var n, error := ShiftRight(op.mantissa, Shift(f, op)), ResidualOnShift(op.mantissa, Shift(f, op));
      var r := Taken(f, b, mode, op);
      && Encoded(f, b, alternative, mode, op.sign, r, Chosen(mode, op.sign, n, error) % 2 == 1, bits)
      && Signalled(f, b, alternative, Magnitude(op, b), r, before, after)
  {
    var q, n, error := Place(f, op), ShiftRight(op.mantissa, Shift(f, op)), ResidualOnShift(op.mantissa, Shift(f, op));
    var up := RoundsUp(mode, op.sign, error, n % 2 == 1);
    var (biased, mantissa) := Carried(f, Biased(f, q, n), n, up);
    var rem := MagnitudeOnGrid(f, op, b);
    PackedEncodes(f, b, alternative, mode, op.sign, q, n, up);
    CarriedValue(f, b, q, n, up);
    BeyondLimit(f, b, biased, mantissa, alternative);
    ExactResidual(f, op, b);
    BelowNormal(f, op, b);
  }

  /** Nothing but a misjudged residual keeps the chosen significand from being the right one. */
  lemma TakenCorrect(f: Format, b: int, mode: Mode, op: Unpacked)
    requires Known(f) && Input(op) && Unit(f, op, b) && !(mode == TieEven && Misjudged(f, op))
    ensures
      var n, error := ShiftRight(op.mantissa, Shift(f, op)), ResidualOnShift(op.mantissa, Shift(f, op));
      CorrectlyRounded(f, b, mode, op.sign, Magnitude(op, b), Taken(f, b, mode, op),
                       Chosen(mode, op.sign, n, error) % 2 == 1)
  {
    var q, n := Place(f, op), ShiftRight(op.mantissa, Shift(f, op));
    var rem := MagnitudeOnGrid(f, op, b);
    ChosenCorrect(f, b, mode, op.sign, q, n, Magnitude(op, b), rem);
  }

  /** A misjudged magnitude is less than half a place, yet the first place is taken for it. */
  lemma TakenWrong(f: Format, b: int, op: Unpacked)
    requires Known(f) && Input(op) && Unit(f, op, b) && Misjudged(f, op)
    ensures Taken(f, b, TieEven, op) == Pow2(Lowest(f) - b) && 2 * Magnitude(op, b) < Pow2(Lowest(f) - b)
  {
    var rem := MagnitudeOnGrid(f, op, b);
    assert Place(f, op) == Lowest(f);
    hide HighestSetBit, Pow2, ShiftRight, ResidualOnShift, Magnitude, Misjudged, Place, Shift;
    var g := Pow2(Lowest(f) - b);
    assert 0 * g == 0 && 1 * g == g;
  }

  /** Less than half the first place rounds to zero, not to the place. */
  lemma NearestIsZero(f: Format, b: int, sign: bool, v: nat, r: nat, odd: bool)
    requires b <= Lowest(f) && 2 * v < Pow2(Lowest(f) - b) && CorrectlyRounded(f, b, TieEven, sign, v, r, odd)
    ensures r < Pow2(Lowest(f) - b)
  {
    assert HasForm(f, b, 0, 0, Lowest(f));
    assert Representable(f, b, 0);
    assert Distance(v, r) <= Distance(v, 0);
  }

  lemma FirstPlaceFinite(f: Format, b: int, alternative: bool)
    requires Known(f) && b <= Lowest(f)
    ensures Pow2(Lowest(f) - b) < Limit(f, b, alternative)
  {
    var u := Lowest(f) - b;
    assert Pow2(f.exponentWidth) >= 2;
    assert Pow2(u + 1) == 2 * Pow2(u);
    Pow2Monotonic(u + 1, f.fraction + u + TopField(f, alternative) - 1);
  }

  /** The operation rounds correctly exactly when the residual is judged rightly or does not matter. */
  lemma RoundedIff(f: Format, b: int, alternative: bool, mode: Mode, op: Unpacked, before: Status,
                   bits: nat, after: Status)
    requires Known(f) && Input(op) && Unit(f, op, b) && Computed(f, alternative, mode, op, before, bits, after)
    ensures Rounded(f, b, alternative, mode, op, before, bits, after) <==> !(mode == TieEven && Misjudged(f, op))
  {
    ComputedEncodes(f, b, alternative, mode, op, before, bits, after);
    hide Taken, CorrectlyRounded, Signalled, Misjudged, Magnitude, Computed, Limit, Decoded, Pow2;
    if mode == TieEven && Misjudged(f, op) {
      TakenWrong(f, b, op);
      FirstPlaceFinite(f, b, alternative);
      forall r: nat, odd: bool | CorrectlyRounded(f, b, mode, op.sign, Magnitude(op, b), r, odd)
        ensures !Encoded(f, b, alternative, mode, op.sign, r, odd, bits)
      {
        NearestIsZero(f, b, op.sign, Magnitude(op, b), r, odd);
      }
    } else {
      TakenCorrect(f, b, mode, op);
    }
  }

  /** What is taken for a misjudged magnitude is the smallest number of its sign. */
  lemma MisjudgedBits(f: Format, alternative: bool, op: Unpacked, before: Status, bits: nat, after: Status)
    requires Known(f) && Input(op) && Misjudged(f, op)
    requires Computed(f, alternative, TieEven, op, before, bits, after)
    ensures bits == Pack(f, op.sign, 0, 1)
  {
    assert Pow2(f.fraction) == 2 * Pow2(f.fraction - 1) && Pow2(f.exponentWidth) >= 2;
    FieldOf(0, Pow2(f.fraction));
    FieldOf(1, Pow2(f.fraction));
    hide Pow2, HighestSetBit;
  }

  /** The mantissa, its exponent and what is shifted out. */
  method Normalize(f: Format, op: Unpacked, extraRightShift: int)
    returns (exponent: int, mantissa: nat, error: Residual)
    requires Input(op)
    ensures exponent == op.exponent + HighestSetBit(op.mantissa) - 62
    ensures mantissa == ShiftRight(op.mantissa, HighestSetBit(op.mantissa) - f.fraction + extraRightShift)
    ensures error == ResidualOnShift(op.mantissa, HighestSetBit(op.mantissa) - f.fraction + extraRightShift)
  {
    var highestSetBit := HighestSetBit(op.mantissa);
    var shiftAmount := highestSetBit - f.fraction + extraRightShift;
    mantissa := ShiftRight(op.mantissa, shiftAmount);
    error := ResidualOnShift(op.mantissa, shiftAmount);
    exponent := op.exponent + highestSetBit - 62;
  }

  predicate Flushed(f: Format, op: Unpacked, flush: bool)
    requires Input(op)
  {
    flush && op.exponent + HighestSetBit(op.mantissa) - 62 < f.minExponent
  }

  lemma NBelow(f: Format, op: Unpacked)
    requires Known(f) && Input(op)
    ensures ShiftRight(op.mantissa, Shift(f, op)) < 2 * Pow2(f.fraction)
  {
    ShiftedMantissa(op.mantissa, HighestSetBit(op.mantissa), Shift(f, op), f.fraction);
    assert Pow2(f.fraction + 1) == 2 * Pow2(f.fraction);
  }

  method Increment(f: Format, biased: nat, mantissa: nat) returns (field: nat, significand: nat)
    ensures (field, significand) == Carried(f, biased, mantissa, true)
  {
    field, significand := biased, mantissa;
    if mantissa % Pow2(f.fraction) == Pow2(f.fraction) - 1 {
      if mantissa == Pow2(f.fraction) - 1 {
        significand := significand + 1;
        field := field + 1;
      } else {
        significand := (significand + 1) / 2;
        field := field + 1;
      }
    } else {
      significand := significand + 1;
    }
  }

  /** The increment and, rounding to odd, the last bit. */
  method Adjust(f: Format, mode: Mode, biased: nat, mantissa: nat, roundUp: bool, error: Residual)
    returns (field: nat, significand: nat)
    requires f.fraction >= 1 && mantissa < 2 * Pow2(f.fraction) && !(roundUp && mode == ToOdd)
    ensures (field, significand)
            == Carried(f, biased, mantissa, roundUp || (mode == ToOdd && error != Zero && mantissa % 2 == 0))
  {
    field, significand := biased, mantissa;
    if roundUp {
      field, significand := Increment(f, biased, mantissa);
    }
    if error != Zero && mode == ToOdd {
      significand := if significand % 2 == 0 then significand + 1 else significand;
      SetLastBit(f, biased, mantissa, mantissa % 2 == 0);
    }
  }

  method Assemble(f: Format, alternative: bool, mode: Mode, sign: bool, biased: nat, mantissa: nat,
                  overflowToInf: bool, error: Residual, before: Status)
    returns (bits: nat, after: Status)
    requires f.exponentWidth >= 1 && overflowToInf == ToInfinity(mode, sign)
    ensures bits == Packed(f, alternative, mode, sign, biased, mantissa)
    ensures
      var beyond := biased >= TopField(f, alternative);
      after == Status(
        before.underflow,
        before.overflow || (beyond && !alternative),
        before.inexact || (if beyond then !alternative else error != Zero),
        before.invalid || (beyond && alternative))
  {
    after := before;
    if biased >= TopField(f, alternative) {
      if alternative {
        bits := if sign then 0xFFFF else 0x7FFF;
        after := after.(invalid := true);
      } else {
        bits := if overflowToInf then Infinity(f, sign) else MaxNormal(f, sign);
        after := after.(overflow := true, inexact := true);
      }
    } else {
      bits := Pack(f, sign, biased, mantissa % Pow2(f.fraction));
      if error != Zero {
        after := after.(inexact := true);
      }
    }
  }

  /** Whether to increment, and whether an overflow gives infinity. */
  method Direction(mode: Mode, sign: bool, error: Residual, mantissa: nat)
    returns (roundUp: bool, overflowToInf: bool)
    ensures roundUp == (mode != ToOdd && RoundsUp(mode, sign, error, mantissa % 2 == 1))
    ensures overflowToInf == ToInfinity(mode, sign)
  {
    roundUp, overflowToInf := false, false;
    match mode {
      case TieEven =>
        roundUp := error == GreaterThanHalf || (error == Half && mantissa % 2 == 1);
        overflowToInf := true;
      case PlusInfinity =>
        roundUp := error != Zero && !sign;
        overflowToInf := !sign;
      case MinusInfinity =>
        roundUp := error != Zero && sign;
        overflowToInf := sign;
      case _ =>
    }
  }

  lemma RoundedInEveryUnit(f: Format, alternative: bool, mode: Mode, op: Unpacked, before: Status,
                           bits: nat, after: Status)
    requires Known(f) && Input(op) && Computed(f, alternative, mode, op, before, bits, after)
    ensures forall b :: Unit(f, op, b) ==>
              (Rounded(f, b, alternative, mode, op, before, bits, after) <==> !(mode == TieEven && Misjudged(f, op)))
  {
    forall b | Unit(f, op, b)
      ensures Rounded(f, b, alternative, mode, op, before, bits, after) <==> !(mode == TieEven && Misjudged(f, op))
    {
      RoundedIff(f, b, alternative, mode, op, before, bits, after);
    }
  }

  method Round(f: Format, alternative: bool, flush: bool, mode: Mode, op: Unpacked, before: Status)
    returns (bits: nat, after: Status)
    requires Known(f) && Input(op)
    ensures Flushed(f, op, flush) ==> bits == Pack(f, op.sign, 0, 0) && after == before.(underflow := true)
    ensures !Flushed(f, op, flush) ==> forall b :: Unit(f, op, b) ==>
              (Rounded(f, b, alternative, mode, op, before, bits, after) <==> !(mode == TieEven && Misjudged(f, op)))
    ensures !Flushed(f, op, flush) && mode == TieEven && Misjudged(f, op) ==> bits == Pack(f, op.sign, 0, 1)
  {
    hide Pow2, HighestSetBit, ShiftRight, ResidualOnShift, Rounded, Misjudged, Biased, Carried, Packed, RoundsUp;
    hide ToInfinity, TopField;
    var exponent, mantissa, error := Normalize(f, op, 0);
    after := before;
    if flush && exponent < f.minExponent {
      return Pack(f, op.sign, 0, 0), after.(underflow := true);
    }
    var biased: nat := if exponent < f.minExponent then 0 else exponent - f.minExponent + 1;
    if biased == 0 {
      exponent, mantissa, error := Normalize(f, op, f.minExponent - exponent);
    }
    if biased == 0 && error != Zero {
      after := after.(underflow := true);
    }
    FieldBefore(f, op);
    NBelow(f, op);
    var roundUp, overflowToInf := Direction(mode, op.sign, error, mantissa);
    var field, significand := Adjust(f, mode, biased, mantissa, roundUp, error);
    bits, after := Assemble(f, alternative, mode, op.sign, field, significand, overflowToInf, error, after);
    ToOddUp(mode, op.sign, error, mantissa);
    RoundedInEveryUnit(f, alternative, mode, op, before, bits, after);
    if mode == TieEven && Misjudged(f, op) {
      MisjudgedBits(f, alternative, op, before, bits, after);
    }
  }

  lemma ToOddUp(mode: Mode, sign: bool, error: Residual, mantissa: nat)
    ensures
      var up := RoundsUp(mode, sign, error, mantissa % 2 == 1);
      ((mode != ToOdd && up) || (mode == ToOdd && error != Zero && mantissa % 2 == 0)) == up
  {
  }

  /** What the caller can tell beforehand: the highest bit of the mantissa, and the exponent. */
  lemma MisjudgedIff(f: Format, op: Unpacked)
    requires Known(f) && Input(op)
    ensures Misjudged(f, op) <==> op.mantissa >= 0x8000_0000_0000_0000 && op.exponent < Lowest(f) - 2
  {
    if op.mantissa >= 0x8000_0000_0000_0000 {
      HighBitIs63(op.mantissa);
    }
  }

  lemma HighBitIs63(m: nat)
    requires 0x8000_0000_0000_0000 <= m < TWO64
    ensures HighestSetBit(m) == 63
  {
    HighBitBelow64(m);
    hide HighestSetBit;
    assert Pow2(63) == 0x8000_0000_0000_0000 by { Pow2Values(); assert Pow2(64) == 2 * Pow2(63); }
    var h := HighestSetBit(m);
    if h + 1 <= 63 {
      Pow2Monotonic(h + 1, 63);
    }
  }

  /** A quarter of the smallest single-precision number, with its highest bit at the top: misjudged. */
  lemma MisjudgedExample(op: Unpacked)
    requires op == Unpacked(false, -152, 0x8000_0000_0000_0000)
    ensures Misjudged(Format(8, 23, -126), op)
    ensures 4 * Magnitude(op, -214) == Pow2(65) && Lowest(Format(8, 23, -126)) + 214 == 65
  {
    MisjudgedIff(Format(8, 23, -126), op);
    assert Pow2(63) == 0x8000_0000_0000_0000 by { Pow2Values(); assert Pow2(64) == 2 * Pow2(63); }
    assert Pow2(65) == 4 * Pow2(63) && Pow2(0) == 1;
  }
}
