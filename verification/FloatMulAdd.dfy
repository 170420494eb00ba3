/** Multiplication and addition on the bits of floating-point numbers, rounded once. */
module FloatMulAdd {
  import opened Arithmetic
  import opened WideIntegers
  import opened FloatGrid
  import F = FloatRounding
  import opened FloatPacking
  import opened FloatNaNs
  import opened FloatSticky
  import opened FloatUnpacking
  import opened StickySums
  import opened FusedSums

  // ----- rounding the sum

  /** The magnitude v rounded, or flushed to zero below the normal numbers. */
  ghost predicate SumRounded(f: Format, flush: bool, mode: F.Mode, sign: bool, v: nat, before: Status,
                             bits: nat, after: Status, b: int)
    requires F.Known(f) && b <= Lowest(f)
  {
    if flush && v < Pow2(f.minExponent - b) then
      bits == Pack(f, sign, 0, 0) && after == before.(underflow := true)
    else RoundedTo(f, b, false, mode, sign, v, before, bits, after)
  }

  lemma FlushedIff(f: Format, flush: bool, r: Unpacked, b: int)
    requires F.Known(f) && F.Input(r) && Unit(f, r, b)
    ensures Flushed(f, r, flush) <==> flush && F.Magnitude(r, b) < Pow2(f.minExponent - b)
  {
    BelowNormal(f, r, b);
  }

  /** What is right for a number is right for the one it stands for, flushed or not. */
  lemma SumStandsRounded(f: Format, flush: bool, mode: F.Mode, r: Unpacked, v: nat, before: Status,
                         bits: nat, after: Status, b: int)
    requires F.Known(f) && Unit(f, r, b) && StandsFor(r, v, b)
    requires SumRounded(f, flush, mode, r.sign, F.Magnitude(r, b), before, bits, after, b)
    ensures SumRounded(f, flush, mode, r.sign, v, before, bits, after, b)
  {
    StandsBelow(f, r, v, b);
    hide Pow2, StandsFor, RoundedTo, F.Magnitude;
    if !(flush && v < Pow2(f.minExponent - b)) {
      StandsRounded(f, b, false, mode, r, v, before, bits, after);
    }
  }

  lemma StandsBelow(f: Format, r: Unpacked, v: nat, b: int)
    requires F.Known(f) && Unit(f, r, b) && StandsFor(r, v, b)
    ensures v < Pow2(f.minExponent - b) <==> F.Magnitude(r, b) < Pow2(f.minExponent - b)
  {
    hide F.ShiftRight, F.Shift, F.Place, StandsFor, F.Magnitude, Pow2, F.Class, Significand;
    StandsAlike(f, r, v, b);
    AlikeBelow(f, b, F.Place(f, r), F.ShiftRight(r.mantissa, F.Shift(f, r)), v, F.Magnitude(r, b));
  }

  lemma AlikeBelow(f: Format, b: int, q: int, n: nat, v: nat, w: nat)
    requires b <= Lowest(f) && Significand(f, q, n) && Alike(v, w, n, Pow2(q - b))
    ensures v < Pow2(f.minExponent - b) <==> w < Pow2(f.minExponent - b)
  {
    hide Pow2, F.Class;
    var g := Pow2(q - b);
    BelowNormalAlike(f, b, q, n, v, v - n * g);
    BelowNormalAlike(f, b, q, n, w, w - n * g);
  }

  /** An exact zero is negative only when rounding down; anything else is rounded. */
  method RoundSum(f: Format, flush: bool, mode: F.Mode, r: Unpacked, before: Status)
    returns (bits: nat, after: Status)
    requires F.Known(f) && r.mantissa < TWO64 && (r.mantissa < Pow2(63) || r.exponent >= Lowest(f) - 2)
    ensures r.mantissa == 0 ==> bits == Pack(f, mode == F.MinusInfinity, 0, 0) && after == before
    ensures r.mantissa != 0 ==> forall b :: Unit(f, r, b) ==>
              SumRounded(f, flush, mode, r.sign, F.Magnitude(r, b), before, bits, after, b)
  {
    if r.mantissa == 0 {
      return Pack(f, mode == F.MinusInfinity, 0, 0), before;
    }
    bits, after := Round(f, false, flush, mode, r, before);
    NotMisjudged(f, r);
    hide Pow2, RoundedTo, F.Misjudged, Flushed, F.Magnitude;
    forall b | Unit(f, r, b)
      ensures SumRounded(f, flush, mode, r.sign, F.Magnitude(r, b), before, bits, after, b)
    {
      FlushedIff(f, flush, r, b);
      if !Flushed(f, r, flush) {
        assert Rounded(f, b, false, mode, r, before, bits, after);
      }
    }
  }

  lemma NotMisjudged(f: Format, r: Unpacked)
    requires F.Known(f) && F.Input(r) && (r.mantissa < Pow2(63) || r.exponent >= Lowest(f) - 2)
    ensures !F.Misjudged(f, r)
  {
    MisjudgedIff(f, r);
    assert Pow2(63) == 0x8000_0000_0000_0000 by { Pow2Values(); assert Pow2(64) == 2 * Pow2(63); }
  }

  // ----- unpacked operands

  lemma ScaleEven(x: nat, k: nat)
    requires k > 0
    ensures Scale(x, k) % 2 == 0
  {
    PowerEven(k);
    EvenTimes(x, Pow2(k));
  }

  lemma EvenTimes(x: nat, c: nat)
    requires c % 2 == 0
    ensures x * c % 2 == 0
  {
    var h := c / 2;
    assert x * (2 * h) == 2 * (x * h);
    Parity(x * h, 0);
  }

  /** Unpacked numbers have their last bit clear, and the exponent of some number of the format. */
  lemma UnpackedEven(f: Format, flush: bool, bits: nat)
    requires F.Known(f)
    ensures
      var (kind, sign, op) := Unpack(f, false, flush, bits);
      && sign == SignOf(f, bits)
      && (kind == Zero ==> op == F.Unpacked(sign, 0, 0))
      && (kind == Nonzero ==> Even(op) && op.mantissa != 0 && op.exponent >= Lowest(f) && op.sign == sign)
  {
    var (kind, sign, op) := Unpack(f, false, flush, bits);
    var raw, frac := BiasedOf(f, bits), FractionOf(f, bits);
    if kind == Nonzero {
      UnpackedNonzero(f, false, flush, bits);
      UnpackedValue(f, false, flush, bits, 0);
      if raw == 0 {
        SubnormalEven(sign, Lowest(f), frac, f.fraction);
      } else {
        ScaleEven(Pow2(f.fraction) + frac, 62 - f.fraction);
      }
      hide Unpack, ToNormalized, Scale;
      NormalInput(op);
    }
  }

  lemma SubnormalEven(sign: bool, exponent: int, value: nat, fraction: nat)
    requires 0 < value < Pow2(fraction) && fraction <= 52 && value < Pow2(63)
    ensures
      var op := ToNormalized(sign, exponent, value);
      op.mantissa % 2 == 0 && op.exponent >= exponent
  {
    var h := F.HighestSetBit(value);
    HighBitBelow(value, fraction);
    ScaleEven(value, 62 - h);
    F.LeftBounds(value, h, 62 - h);
    hide F.HighestSetBit, Pow2;
    F.BelowTwo64(Scale(value, 62 - h), 63);
  }

  // ----- the operation on bits

  predicate IsFinite(f: Format, flush: bool, bits: nat)
    requires F.Known(f)
  {
    Unpack(f, false, flush, bits).0 in {Zero, Nonzero}
  }

  /** What is returned for the sum of finite numbers: rounded once, unless it was cancelled. */
  ghost predicate SumOfFinite(f: Format, flush: bool, mode: F.Mode, addend: Unpacked, op1: Unpacked, op2: Unpacked,
                              before: Status, bits: nat, after: Status, b: int)
    requires F.Known(f) && b <= Lowest(f) && Fine(addend, op1, op2, b)
  {
    var e := ExactSum(addend, op1, op2, b);
    if e == 0 then
      var same := addend.mantissa == 0 && addend.sign == (op1.sign != op2.sign);
      bits == Pack(f, if same then addend.sign else mode == F.MinusInfinity, 0, 0) && after == before
    else
      var v := if Cancelled(addend, op1, op2, b) then Scale(Size(e), 62) else Size(e);
      SumRounded(f, flush, mode, e < 0, v, before, bits, after, b)
  }

  /** From the sum to its rounding. */
  lemma OutcomeRounded(f: Format, flush: bool, mode: F.Mode, addend: Unpacked, op1: Unpacked, op2: Unpacked,
                       r: Unpacked, before: Status, bits: nat, after: Status, b: int)
    requires F.Known(f) && b <= Lowest(f) && Fine(addend, op1, op2, b) && r.mantissa < TWO64
    requires Outcome(addend, op1, op2, r, b)
    requires r.mantissa != 0 ==> forall c :: Unit(f, r, c) ==>
               SumRounded(f, flush, mode, r.sign, F.Magnitude(r, c), before, bits, after, c)
    ensures r.mantissa == 0 <==> ExactSum(addend, op1, op2, b) == 0
    ensures r.mantissa != 0 ==> SumOfFinite(f, flush, mode, addend, op1, op2, before, bits, after, b)
  {
    var e := ExactSum(addend, op1, op2, b);
    hide ExactSum, Pow2, RoundedTo, SumRounded, StandsFor, TopExponent;
    if e != 0 {
      assert Unit(f, r, b);
      assert SumRounded(f, flush, mode, r.sign, F.Magnitude(r, b), before, bits, after, b);
      if !Cancelled(addend, op1, op2, b) {
        SumStandsRounded(f, flush, mode, r, Size(e), before, bits, after, b);
      }
    }
  }

  /** An operand that is a finite number of the format. */
  predicate Operand(f: Format, zero: bool, op: Unpacked) {
    Even(op) && (zero <==> op.mantissa == 0) && (!zero ==> op.exponent >= Lowest(f))
  }

  method FiniteMulAdd(f: Format, flush: bool, mode: F.Mode, zeroA: bool, zeroP: bool, valueA: Unpacked,
                      value1: Unpacked, value2: Unpacked, before: Status)
    returns (bits: nat, after: Status)
    requires F.Known(f) && Operand(f, zeroA, valueA) && Even(value1) && Even(value2)
    requires zeroP <==> value1.mantissa == 0 || value2.mantissa == 0
    ensures FiniteSum(f, flush, mode, valueA, value1, value2, before, bits, after)
  {
    hide Pow2, SumOfFinite, Outcome, SumRounded, Even, ExactSum;
    if zeroA && zeroP && valueA.sign == (value1.sign != value2.sign) {
      bits, after := Pack(f, valueA.sign, 0, 0), before;
      forall b | b <= Lowest(f) && Fine(valueA, value1, value2, b)
        ensures SumOfFinite(f, flush, mode, valueA, value1, value2, before, bits, after, b)
      {
        ZeroSum(f, flush, mode, valueA, value1, value2, before, b);
      }
      return;
    }
    var r := FusedMulAdd(valueA, value1, value2);
    FitsWord(r);
    bits, after := RoundSum(f, flush, mode, r, before);
    forall b | b <= Lowest(f) && Fine(valueA, value1, value2, b)
      ensures SumOfFinite(f, flush, mode, valueA, value1, value2, before, bits, after, b)
    {
      OutcomeRounded(f, flush, mode, valueA, value1, value2, r, before, bits, after, b);
      if r.mantissa == 0 {
        if valueA.mantissa == 0 {
          NoProduct(valueA, value1, value2, b);
        }
        ZeroResult(f, flush, mode, valueA, value1, value2, before, b);
      }
    }
  }

  /** An infinity times zero. */
  predicate NoProductOf(kind1: Kind, kind2: Kind) {
    (kind1 == Kind.Infinity && kind2 == Zero) || (kind1 == Zero && kind2 == Kind.Infinity)
  }

  /** For numbers, infinite or not, taken apart. */
  ghost predicate SumOfParts(f: Format, flush: bool, mode: F.Mode, a: (Kind, bool, Unpacked), x: (Kind, bool, Unpacked),
                             y: (Kind, bool, Unpacked), before: Status, bits: nat, after: Status)
    requires F.Known(f)
  {
    var signP, infA, infP := x.1 != y.1, a.0 == Kind.Infinity, x.0 == Kind.Infinity || y.0 == Kind.Infinity;
    if NoProductOf(x.0, y.0) || (infA && infP && a.1 != signP) then
      IsDefaultNaN(f, flush, bits) && after == before.(invalid := true)
    else if infA || infP then
      IsKind(f, flush, Kind.Infinity, if infA then a.1 else signP, bits) && after == before
    else FiniteSum(f, flush, mode, a.2, x.2, y.2, before, bits, after)
  }

  ghost predicate FiniteSum(f: Format, flush: bool, mode: F.Mode, a: Unpacked, x: Unpacked, y: Unpacked,
                            before: Status, bits: nat, after: Status)
    requires F.Known(f)
  {
    forall b :: b <= Lowest(f) && Fine(a, x, y, b) ==> SumOfFinite(f, flush, mode, a, x, y, before, bits, after, b)
  }

  ghost predicate SumOfNumbers(f: Format, flush: bool, mode: F.Mode, addend: nat, op1: nat, op2: nat, before: Status,
                               bits: nat, after: Status)
    requires F.Known(f)
  {
    SumOfParts(f, flush, mode, Unpack(f, false, flush, addend), Unpack(f, false, flush, op1),
               Unpack(f, false, flush, op2), before, bits, after)
  }

  /** What an operand that is a finite number has to be. */
  predicate Part(f: Format, p: (Kind, bool, Unpacked)) {
    && (p.0 == Zero || p.0 == Nonzero || p.0 == Kind.Infinity)
    && (p.0 != Kind.Infinity ==> p.2.sign == p.1 && Operand(f, p.0 == Zero, p.2))
  }

  method SumParts(f: Format, flush: bool, mode: F.Mode, a: (Kind, bool, Unpacked), x: (Kind, bool, Unpacked),
                  y: (Kind, bool, Unpacked), before: Status)
    returns (bits: nat, after: Status)
    requires F.Known(f) && Part(f, a) && Part(f, x) && Part(f, y)
    ensures SumOfParts(f, flush, mode, a, x, y, before, bits, after)
  {
    hide IsKind, IsDefaultNaN, DefaultNaN, FloatPacking.Infinity, Even, Pow2, SumOfFinite, Fine;
    DefaultNaNUnpacked(f, flush);
    var (kindA, signA, valueA) := a;
    var (kind1, sign1, value1) := x;
    var (kind2, sign2, value2) := y;
    var infA, inf1, inf2 := kindA == Kind.Infinity, kind1 == Kind.Infinity, kind2 == Kind.Infinity;
    var zeroA, zero1, zero2 := kindA == Zero, kind1 == Zero, kind2 == Zero;
    var signP, infP, zeroP := sign1 != sign2, inf1 || inf2, zero1 || zero2;
    if (inf1 && zero2) || (zero1 && inf2) || (infA && infP && signA != signP) {
      return DefaultNaN(f), before.(invalid := true);
    }
    if (infA && !signA) || (infP && !signP) {
      InfinityUnpacked(f, flush, false);
      return FloatPacking.Infinity(f, false), before;
    }
    if (infA && signA) || (infP && signP) {
      InfinityUnpacked(f, flush, true);
      return FloatPacking.Infinity(f, true), before;
    }
    bits, after := FiniteMulAdd(f, flush, mode, zeroA, zeroP, valueA, value1, value2, before);
  }

  lemma UnpackedPart(f: Format, flush: bool, bits: nat)
    requires F.Known(f) && Unpack(f, false, flush, bits).0 !in {QNaN, SNaN}
    ensures Part(f, Unpack(f, false, flush, bits))
  {
    UnpackedEven(f, flush, bits);
    hide Unpack, SignOf, Pow2;
  }

  /** NaNs come first, except that a quiet addend is lost to an infinity times zero. */
  method MulAdd(f: Format, flush: bool, defaultNaN: bool, mode: F.Mode, addend: nat, op1: nat, op2: nat, before: Status)
    returns (bits: nat, after: Status)
    requires F.Known(f)
    ensures
      var kinds := Kinds(f, flush, [addend, op1, op2]);
      if kinds[0] == QNaN && NoProductOf(kinds[1], kinds[2]) then
        IsDefaultNaN(f, flush, bits) && after == before.(invalid := true)
      else if QNaN in kinds || SNaN in kinds then
        NaNResult(f, flush, defaultNaN, [addend, op1, op2], before, bits, after)
      else SumOfNumbers(f, flush, mode, addend, op1, op2, before, bits, after)
  {
    var kindA, kind1, kind2 := Unpack(f, false, flush, addend).0, Unpack(f, false, flush, op1).0,
      Unpack(f, false, flush, op2).0;
    assert Kinds(f, flush, [addend, op1, op2]) == [kindA, kind1, kind2];
    hide Unpack, SumOfParts, IsDefaultNaN, DefaultNaN, Kinds, NaNResult, Part;
    var inf1, inf2, zero1, zero2 := kind1 == Kind.Infinity, kind2 == Kind.Infinity, kind1 == Zero, kind2 == Zero;
    var maybeNaN, flags := ProcessNaNs3(f, flush, defaultNaN, addend, op1, op2, before);
    if kindA == QNaN && ((inf1 && zero2) || (zero1 && inf2)) {
      DefaultNaNUnpacked(f, flush);
      return DefaultNaN(f), flags.(invalid := true);
    }
    if maybeNaN.Some? {
      return maybeNaN.value, flags;
    }
    UnpackedPart(f, flush, addend);
    UnpackedPart(f, flush, op1);
    UnpackedPart(f, flush, op2);
    bits, after := SumParts(f, flush, mode, Unpack(f, false, flush, addend), Unpack(f, false, flush, op1),
                            Unpack(f, false, flush, op2), flags);
  }

  lemma ZeroSum(f: Format, flush: bool, mode: F.Mode, a: Unpacked, x: Unpacked, y: Unpacked, before: Status, b: int)
    requires F.Known(f) && b <= Lowest(f) && Fine(a, x, y, b)
    requires a.mantissa == 0 && (x.mantissa == 0 || y.mantissa == 0) && a.sign == (x.sign != y.sign)
    ensures SumOfFinite(f, flush, mode, a, x, y, before, Pack(f, a.sign, 0, 0), before, b)
  {
    hide Pow2;
  }

  /** Nothing added to a product gives nothing only if a factor is nothing. */
  lemma NoProduct(a: Unpacked, x: Unpacked, y: Unpacked, b: int)
    requires Fine(a, x, y, b) && ExactSum(a, x, y, b) == 0 && a.mantissa == 0
    ensures x.mantissa == 0 || y.mantissa == 0
  {
    var k := x.exponent + y.exponent - 124 - b;
    ScalePositive(Times(x.mantissa, y.mantissa), k);
    ScalePositive(0, a.exponent - 62 - b);
    hide Pow2, Scale;
    if x.mantissa > 0 && y.mantissa > 0 {
      MulMonotonic(1, x.mantissa, y.mantissa);
    }
  }

  lemma FitsWord(r: Unpacked)
    ensures r.mantissa < Pow2(63) ==> r.mantissa < TWO64
  {
    assert Pow2(64) == 2 * Pow2(63) && Pow2(64) == TWO64 by { Pow2Values(); }
  }

  lemma ZeroResult(f: Format, flush: bool, mode: F.Mode, a: Unpacked, x: Unpacked, y: Unpacked, before: Status, b: int)
    requires F.Known(f) && b <= Lowest(f) && Fine(a, x, y, b) && ExactSum(a, x, y, b) == 0
    requires !(a.mantissa == 0 && a.sign == (x.sign != y.sign))
    ensures SumOfFinite(f, flush, mode, a, x, y, before, Pack(f, mode == F.MinusInfinity, 0, 0), before, b)
  {
  }
}
