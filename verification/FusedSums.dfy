/** The fused multiplication and addition, what it returns, and when that is right. */
module FusedSums {
  import opened Arithmetic
  import opened WideIntegers
  import opened FloatGrid
  import F = FloatRounding
  import opened FloatPacking
  import opened FloatSticky
  import opened FloatUnpacking
  import opened StickySums

  // ----- differences

  /** Product and addend, as magnitudes in a unit. */
  function ProductIn(pe: int, p: U128, b: int): nat
    requires b <= pe - 124
  {
    Scale(Wide(p), pe - 124 - b)
  }

  function AddendIn(ae: int, am: nat, b: int): nat
    requires b <= ae - 62
  {
    Scale(am, ae - 62 - b)
  }

  /** The difference of product and addend, of which the product has the given sign. */
  ghost predicate DifferenceIn(ps: bool, pe: int, p: U128, ae: int, am: nat, sign: bool, exponent: int, s: U128, b: int)
    requires Deep(pe, ae, b)
  {
    var x, y := ProductIn(pe, p, b), AddendIn(ae, am, b);
    && Differs(s, exponent, b, F.Distance(x, y))
    && (x > y ==> sign == ps) && (x < y ==> sign != ps)
  }

  lemma LongValue(ae: int, am: nat, b: int)
    requires IsMantissa(am) && b <= ae - 124
    ensures
      var l := ShiftLeft(U128(am, 0), 62);
      IsProduct(l) && Scale(Wide(l), ae - 124 - b) == AddendIn(ae, am, b)
  {
    LongAddend(am);
    ScaleTwice(am, 62, ae - 124 - b);
  }

  /** The product is the larger one, or equally placed and not smaller. */
  lemma ProductLarger(ps: bool, pe: int, p: U128, ae: int, am: nat, b: int)
    requires IsProduct(p) && IsMantissa(am) && Deep(pe, ae, b)
    requires pe > ae || (pe == ae && Wide(p) >= Wide(ShiftLeft(U128(am, 0), 62)))
    ensures DifferenceIn(ps, pe, p, ae, am, ps, pe, Sub(p, StickyRight(ShiftLeft(U128(am, 0), 62), pe - ae)), b)
  {
    hide Pow2, Wide, Sub, StickyRight, ShiftLeft, Differs, Scale;
    LongValue(ae, am, b);
    StepDiffers(p, ShiftLeft(U128(am, 0), 62), pe - ae, pe, b);
  }

  lemma AddendLarger(ps: bool, pe: int, p: U128, ae: int, am: nat, b: int)
    requires IsProduct(p) && IsMantissa(am) && Deep(pe, ae, b)
    requires pe < ae || (pe == ae && Wide(p) <= Wide(ShiftLeft(U128(am, 0), 62)))
    ensures DifferenceIn(ps, pe, p, ae, am, !ps, ae, Sub(ShiftLeft(U128(am, 0), 62), StickyRight(p, ae - pe)), b)
  {
    hide Pow2, Wide, Sub, StickyRight, ShiftLeft, Differs, Scale;
    LongValue(ae, am, b);
    StepDiffers(ShiftLeft(U128(am, 0), 62), p, ae - pe, ae, b);
  }

  lemma StickyNone(u: U128)
    ensures StickyRight(u, 0) == u
  {
  }

  /** Sign, exponent and magnitude of a difference, before it is normalised. */
  method Difference(ps: bool, pe: int, p: U128, ae: int, am: nat) returns (sign: bool, exponent: int, result: U128)
    requires IsProduct(p) && IsMantissa(am)
    ensures Valid(result) && Wide(result) < Pow2(125) && exponent == if pe < ae then ae else pe
    ensures forall b :: Deep(pe, ae, b) ==> DifferenceIn(ps, pe, p, ae, am, sign, exponent, result, b)
  {
    hide Pow2, Wide, Sub, StickyRight, ShiftLeft, DifferenceIn;
    var expDiff := pe - ae;
    var addendLong := ShiftLeft(U128(am, 0), 62);
    LongAddend(am);
    GreaterValue(p, addendLong);
    if expDiff == 0 && Greater(p, addendLong) {
      sign, exponent, result := ps, pe, Sub(p, addendLong);
      StickyNone(addendLong);
      DifferenceStep(p, addendLong, 0);
      forall b | Deep(pe, ae, b) ensures DifferenceIn(ps, pe, p, ae, am, sign, exponent, result, b) {
        ProductLarger(ps, pe, p, ae, am, b);
      }
    } else if expDiff <= 0 {
      sign, exponent, result := !ps, ae, Sub(addendLong, StickyRight(p, -expDiff));
      DifferenceStep(addendLong, p, -expDiff);
      forall b | Deep(pe, ae, b) ensures DifferenceIn(ps, pe, p, ae, am, sign, exponent, result, b) {
        AddendLarger(ps, pe, p, ae, am, b);
      }
    } else {
      sign, exponent, result := ps, pe, Sub(p, StickyRight(addendLong, expDiff));
      DifferenceStep(p, addendLong, expDiff);
      forall b | Deep(pe, ae, b) ensures DifferenceIn(ps, pe, p, ae, am, sign, exponent, result, b) {
        ProductLarger(ps, pe, p, ae, am, b);
      }
    }
  }

  /** The shift that brings the highest bit to its place. */
  lemma NormalisedStands(sign: bool, exponent: int, m: U128, v: nat, b: int)
    requires Valid(m) && m.upper > 0 && Wide(m) < Pow2(125) && b <= exponent - 186
    requires Sticks(Wide(m), Pow2(exponent - 124 - b), v)
    ensures
      var h := F.HighestSetBit(m.upper);
      h <= 60 && Stands(ReduceMantissa(sign, exponent - (62 - h), ShiftLeft(m, 62 - h)), v, b)
  {
    hide Pow2, Wide, ShiftLeft, Sticks, F.HighestSetBit, StandsFor, Valid;
    var h := F.HighestSetBit(m.upper);
    ShiftUp(m);
    Pow2Monotonic(124, 126);
    Reduced(sign, exponent - (62 - h), ShiftLeft(m, 62 - h), Wide(m), 62 - h, v, b);
  }

  /** A small difference is returned as it is, with the exponent of the sum; any other is normalised. */
  method Normalise(sign: bool, exponent: int, result: U128) returns (r: Unpacked)
    requires Valid(result) && Wide(result) < Pow2(125)
    ensures r.sign == sign
    ensures Wide(result) < TWO64 ==> r == F.Unpacked(sign, exponent, Wide(result))
    ensures Wide(result) >= TWO64 ==>
              && r.mantissa < Pow2(63)
              && forall b, v ::
                   b <= exponent - 186 && Sticks(Wide(result), Pow2(exponent - 124 - b), v) ==> Stands(r, v, b)
  {
    hide Pow2, Wide, ShiftLeft, Sticks, F.HighestSetBit, Stands;
    WordAtLeast(result, 1);
    if result.upper == 0 {
      LowerIsAll(result);
      return F.Unpacked(sign, exponent, result.lower);
    }
    var requiredShift := 62 - F.HighestSetBit(result.upper);
    ShiftUp(result);
    var shifted := ShiftLeft(result, requiredShift);
    ReducedBelow(shifted);
    r := ReduceMantissa(sign, exponent - requiredShift, shifted);
    forall b, v | b <= exponent - 186 && Sticks(Wide(result), Pow2(exponent - 124 - b), v)
      ensures Stands(r, v, b)
    {
      NormalisedStands(sign, exponent, result, v, b);
    }
  }

  // ----- the exact sum

  function Signed(sign: bool, x: nat): int {
    var y: int := x;
    if sign then -y else y
  }

  function Size(x: int): nat {
    if x < 0 then -x else x
  }

  /** A unit in which the sum is formed, and below. */
  predicate Fine(addend: Unpacked, op1: Unpacked, op2: Unpacked, b: int) {
    Deep(addend.exponent, op1.exponent + op2.exponent, b)
  }

  function ExactSum(addend: Unpacked, op1: Unpacked, op2: Unpacked, b: int): int
    requires Fine(addend, op1, op2, b)
  {
    Signed(addend.sign, Scale(addend.mantissa, addend.exponent - 62 - b))
    + Signed(op1.sign != op2.sign, Scale(Times(op1.mantissa, op2.mantissa), op1.exponent + op2.exponent - 124 - b))
  }

  /** The exponent of the larger operand of the sum. */
  function TopExponent(addend: Unpacked, op1: Unpacked, op2: Unpacked): int {
    var pe := op1.exponent + op2.exponent + if Times(op1.mantissa, op2.mantissa) >= Pow2(125) then 1 else 0;
    if pe < addend.exponent then addend.exponent else pe
  }

  /** Product and addend are opposite, and of the sum only bits more than sixty places below are left. */
  predicate Cancelled(addend: Unpacked, op1: Unpacked, op2: Unpacked, b: int)
    requires Fine(addend, op1, op2, b)
  {
    && addend.mantissa != 0 && Times(op1.mantissa, op2.mantissa) != 0 && addend.sign != (op1.sign != op2.sign)
    && TopExponent(addend, op1, op2) - 60 >= b
    && 0 < Size(ExactSum(addend, op1, op2, b)) < Pow2(TopExponent(addend, op1, op2) - 60 - b)
  }

  /** The result is the sum, or stands for it. */
  ghost predicate IsSum(r: Unpacked, e: int, b: int) {
    if e == 0 then r.mantissa == 0
    else r.mantissa != 0 && r.sign == (e < 0) && Stands(r, Size(e), b)
  }

  /** The result is too large by a factor of 2^62. */
  predicate TooLarge(r: Unpacked, e: int, b: int) {
    && r.mantissa != 0 && r.sign == (e < 0) && b <= r.exponent - 62
    && Scale(r.mantissa, r.exponent - 62 - b) == Scale(Size(e), 62)
  }

  /** It is then not the sum. */
  lemma TooLargeNotSum(r: Unpacked, e: int, b: int)
    requires e != 0 && TooLarge(r, e, b)
    ensures !IsSum(r, e, b)
  {
    if r.mantissa >= Pow2(60) {
      var m, u, v := r.mantissa, Pow2(r.exponent - 62 - b), Size(e);
      assert Pow2(62) == 4 * Pow2(60) && Pow2(60) >= 8 by { Pow2Monotonic(3, 60); }
      hide Pow2;
      FarApart(m, u, v, Pow2(60));
    }
  }

  lemma FarApart(m: nat, u: nat, v: nat, p: nat)
    requires v > 0 && p >= 8 && m >= p && m * u == v * (4 * p)
    ensures !Sticks(m, u, v)
  {
    assert u <= 4 * v by {
      if u > 4 * v {
        MulMonotonic(p, m, u);
        MulMonotonic(4 * v + 1, u, p);
      }
    }
    assert v * (4 * p) >= 32 * v by { MulMonotonic(32, 4 * p, v); }
  }

  /** What the operation returns: the sum, or after a cancellation a number that is too large. */
  ghost predicate Outcome(addend: Unpacked, op1: Unpacked, op2: Unpacked, r: Unpacked, b: int)
    requires Fine(addend, op1, op2, b)
  {
    var e := ExactSum(addend, op1, op2, b);
    if Cancelled(addend, op1, op2, b) then TooLarge(r, e, b) else IsSum(r, e, b)
  }

  lemma ProductExact(op1: Unpacked, op2: Unpacked, pe: int, p: U128, b: int)
    requires ProductOf(op1, op2, pe, p) && b <= op1.exponent + op2.exponent - 124
    ensures b <= pe - 124
    ensures Scale(Times(op1.mantissa, op2.mantissa), op1.exponent + op2.exponent - 124 - b) == ProductIn(pe, p, b)
  {
    var x := op1.exponent + op2.exponent - 124 - b;
    if pe == op1.exponent + op2.exponent + 1 {
      assert Pow2(x + 1) == 2 * Pow2(x);
      hide Pow2, Times, Wide;
      Associate(Wide(p), 2, Pow2(x));
    }
  }

  lemma ExactParts(addend: Unpacked, op1: Unpacked, op2: Unpacked, pe: int, p: U128, b: int)
    requires Fine(addend, op1, op2, b) && ProductOf(op1, op2, pe, p)
    ensures Deep(pe, addend.exponent, b)
    ensures ExactSum(addend, op1, op2, b)
         == Signed(addend.sign, AddendIn(addend.exponent, addend.mantissa, b))
            + Signed(op1.sign != op2.sign, ProductIn(pe, p, b))
    ensures Wide(p) > 0 ==> TopExponent(addend, op1, op2) == if pe < addend.exponent then addend.exponent else pe
  {
    hide Pow2, Scale, Wide;
    ProductExact(op1, op2, pe, p, b);
    ProductPowers();
  }

  lemma ScalePositive(m: nat, k: nat)
    ensures m > 0 <==> Scale(m, k) > 0
  {
    if m > 0 {
      MulMonotonic(1, m, Pow2(k));
    }
  }

  lemma OnlyAddend(addend: Unpacked, op1: Unpacked, op2: Unpacked, pe: int, p: U128, b: int)
    requires Even(addend) && Fine(addend, op1, op2, b) && ProductOf(op1, op2, pe, p) && Wide(p) == 0
    ensures Outcome(addend, op1, op2, addend, b)
  {
    ExactParts(addend, op1, op2, pe, p, b);
    assert ProductIn(pe, p, b) == 0;
    MantissaFits(addend);
    ScalePositive(addend.mantissa, addend.exponent - 62 - b);
    Pow2Monotonic(60, 62);
    hide Pow2, Wide;
  }

  lemma OnlyProduct(addend: Unpacked, op1: Unpacked, op2: Unpacked, pe: int, p: U128, b: int)
    requires addend.mantissa == 0 && Fine(addend, op1, op2, b) && ProductOf(op1, op2, pe, p) && Wide(p) > 0
    ensures Outcome(addend, op1, op2, ReduceMantissa(op1.sign != op2.sign, pe, p), b)
    ensures SetIf(p.upper, p.lower != 0) < Pow2(63)
  {
    hide Pow2, Wide, StandsFor;
    ExactParts(addend, op1, op2, pe, p, b);
    ScalePositive(addend.mantissa, addend.exponent - 62 - b);
    ScalePositive(Wide(p), pe - 124 - b);
    Pow2Monotonic(125, 127);
    ReducedBelow(p);
    PlainSticks(Wide(p), pe - 124 - b);
    ReducedPlain(op1.sign != op2.sign, pe, p, ProductIn(pe, p, b), b);
    StandsNonzero(ReduceMantissa(op1.sign != op2.sign, pe, p), ProductIn(pe, p, b), b);
  }

  lemma PlainSticks(m: nat, k: nat)
    ensures Sticks(m, Pow2(k), Scale(m, k))
  {
  }

  lemma StandsNonzero(r: Unpacked, v: nat, b: int)
    requires b <= r.exponent - 62 && StandsFor(r, v, b)
    ensures r.mantissa != 0
  {
  }

  lemma SameOutcome(addend: Unpacked, op1: Unpacked, op2: Unpacked, pe: int, p: U128, r: Unpacked, b: int)
    requires Even(addend) && addend.mantissa != 0 && Fine(addend, op1, op2, b)
    requires ProductOf(op1, op2, pe, p) && Wide(p) > 0
    requires addend.sign == (op1.sign != op2.sign) && r.sign == addend.sign
    requires SumStands(r, pe, p, addend.exponent, addend.mantissa)
    ensures Outcome(addend, op1, op2, r, b)
  {
    hide Pow2, Wide, StandsFor, Scale;
    ExactParts(addend, op1, op2, pe, p, b);
    ScalePositive(addend.mantissa, addend.exponent - 62 - b);
    var v := ProductIn(pe, p, b) + AddendIn(addend.exponent, addend.mantissa, b);
    assert Stands(r, v, b);
    StandsNonzero(r, v, b);
  }

  lemma LargeAtLeast(n: nat, u: nat, v: nat)
    requires n >= TWO64 && Sticks(n, u, v)
    ensures v >= TWO64 * u
  {
    if n % 2 == 0 {
      MulMonotonic(TWO64, n, u);
    } else {
      MulMonotonic(TWO64, n - 1, u);
      assert (n - 1) * u == n * u - u;
    }
  }

  lemma DifferenceOutcome(addend: Unpacked, op1: Unpacked, op2: Unpacked, pe: int, p: U128, sign: bool, exponent: int,
                          s: U128, r: Unpacked, b: int)
    requires Even(addend) && addend.mantissa != 0 && Fine(addend, op1, op2, b)
    requires ProductOf(op1, op2, pe, p) && Wide(p) > 0
    requires addend.sign != (op1.sign != op2.sign) && r.sign == sign && Deep(pe, addend.exponent, b)
    requires DifferenceIn(op1.sign != op2.sign, pe, p, addend.exponent, addend.mantissa, sign, exponent, s, b)
    requires exponent == if pe < addend.exponent then addend.exponent else pe
    requires Wide(s) < TWO64 ==> r == F.Unpacked(sign, exponent, Wide(s))
    requires Wide(s) >= TWO64 ==> forall v :: Sticks(Wide(s), Pow2(exponent - 124 - b), v) ==> Stands(r, v, b)
    ensures Outcome(addend, op1, op2, r, b)
  {
    hide Pow2, Wide, StandsFor, Scale, Sticks;
    ExactParts(addend, op1, op2, pe, p, b);
    var v := F.Distance(ProductIn(pe, p, b), AddendIn(addend.exponent, addend.mantissa, b));
    assert Size(ExactSum(addend, op1, op2, b)) == v;
    Pow2Add(64, exponent - 124 - b);
    assert Pow2(64) == TWO64 by { Pow2Values(); }
    if Wide(s) >= TWO64 {
      LargeAtLeast(Wide(s), Pow2(exponent - 124 - b), v);
      assert Stands(r, v, b);
      StandsNonzero(r, v, b);
    } else {
      SmallDifference(Wide(s), exponent - 124 - b);
      TimesZero(op1, op2, pe, p);
    }
  }

  lemma TimesZero(op1: Unpacked, op2: Unpacked, pe: int, p: U128)
    requires ProductOf(op1, op2, pe, p) && Wide(p) > 0
    ensures Times(op1.mantissa, op2.mantissa) != 0
  {
  }

  lemma SmallDifference(n: nat, x: nat)
    requires n < TWO64
    ensures Scale(n, x) < TWO64 * Pow2(x) && Scale(n, x + 62) == Scale(Scale(n, x), 62) && (n > 0 <==> Scale(n, x) > 0)
  {
    ScalePositive(n, x);
    ScaleTwice(n, x, 62);
    MulMonotonic(n + 1, TWO64, Pow2(x));
    assert (n + 1) * Pow2(x) == n * Pow2(x) + Pow2(x);
  }

  // ----- the operation

  /** The result is the exact sum, or stands for it, if and only if nothing was cancelled. */
  method FusedMulAdd(addend: Unpacked, op1: Unpacked, op2: Unpacked) returns (r: Unpacked)
    requires Even(addend) && Even(op1) && Even(op2)
    ensures r.mantissa < Pow2(63) || (addend.mantissa != 0 && r.exponent >= addend.exponent && r.mantissa < TWO64)
    ensures forall b :: Fine(addend, op1, op2, b) ==>
              && Outcome(addend, op1, op2, r, b)
              && (IsSum(r, ExactSum(addend, op1, op2, b), b) <==> !Cancelled(addend, op1, op2, b))
  {
    hide Pow2, Wide, Outcome, ExactSum, Cancelled, IsSum, ProductOf, SumStands, DifferenceIn, Stands, Sticks;
    var productSign := op1.sign != op2.sign;
    var productExponent, product := Product(op1, op2);
    ProductFacts(op1, op2, productExponent, product);
    MantissaFits(addend);
    if product == U128(0, 0) {
      r := addend;
      forall b | Fine(addend, op1, op2, b) ensures Outcome(addend, op1, op2, r, b) {
        OnlyAddend(addend, op1, op2, productExponent, product, b);
      }
    } else if addend.mantissa == 0 {
      r := ReduceMantissa(productSign, productExponent, product);
      ProductReduced(product);
      forall b | Fine(addend, op1, op2, b) ensures Outcome(addend, op1, op2, r, b) {
        OnlyProduct(addend, op1, op2, productExponent, product, b);
      }
    } else if productSign == addend.sign {
      r := SumSame(productSign, productExponent, product, addend.exponent, addend.mantissa);
      SumFits(r, productExponent, product, addend.exponent, addend.mantissa);
      forall b | Fine(addend, op1, op2, b) ensures Outcome(addend, op1, op2, r, b) {
        SameOutcome(addend, op1, op2, productExponent, product, r, b);
      }
    } else {
      var sign, exponent, result := Difference(productSign, productExponent, product, addend.exponent, addend.mantissa);
      r := Normalise(sign, exponent, result);
      forall b | Fine(addend, op1, op2, b) ensures Outcome(addend, op1, op2, r, b) {
        DeepProduct(addend, op1, op2, productExponent, product, b);
        DifferenceOutcome(addend, op1, op2, productExponent, product, sign, exponent, result, r, b);
      }
    }
    forall b | Fine(addend, op1, op2, b)
      ensures IsSum(r, ExactSum(addend, op1, op2, b), b) <==> !Cancelled(addend, op1, op2, b)
    {
      OutcomeSum(addend, op1, op2, r, b);
    }
  }

  lemma OutcomeSum(addend: Unpacked, op1: Unpacked, op2: Unpacked, r: Unpacked, b: int)
    requires Fine(addend, op1, op2, b) && Outcome(addend, op1, op2, r, b)
    ensures IsSum(r, ExactSum(addend, op1, op2, b), b) <==> !Cancelled(addend, op1, op2, b)
  {
    hide IsSum, TooLarge, ExactSum;
    if Cancelled(addend, op1, op2, b) {
      TooLargeNotSum(r, ExactSum(addend, op1, op2, b), b);
    }
  }

  lemma ProductFacts(op1: Unpacked, op2: Unpacked, pe: int, p: U128)
    requires ProductOf(op1, op2, pe, p)
    ensures Valid(p) && (p == U128(0, 0) <==> Wide(p) == 0) && (p != U128(0, 0) ==> IsProduct(p))
    ensures pe >= op1.exponent + op2.exponent
  {
    hide Pow2, Times;
    if p.upper > 0 {
      MulMonotonic(1, p.upper, TWO64);
    }
  }

  lemma ProductReduced(p: U128)
    requires IsProduct(p)
    ensures SetIf(p.upper, p.lower != 0) < Pow2(63)
  {
    Pow2Monotonic(125, 127);
    hide Pow2;
    ReducedBelow(p);
  }

  lemma SumFits(r: Unpacked, pe: int, p: U128, ae: int, am: nat)
    requires SumStands(r, pe, p, ae, am)
    ensures r.mantissa < TWO64
  {
    var b := (if pe < ae then pe else ae) - 200;
    assert Deep(pe, ae, b);
    assert Stands(r, Scale(Wide(p), pe - 124 - b) + Scale(am, ae - 62 - b), b);
  }

  lemma DeepProduct(addend: Unpacked, op1: Unpacked, op2: Unpacked, pe: int, p: U128, b: int)
    requires Fine(addend, op1, op2, b) && pe >= op1.exponent + op2.exponent
    ensures Deep(pe, addend.exponent, b)
  {
  }
}
