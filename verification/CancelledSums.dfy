/** When a cancelled sum is nevertheless rounded correctly: only if it is negligible in the format. */
module CancelledSums {
  import opened Arithmetic
  import opened FloatGrid
  import opened FloatRounding
  import opened FloatPacking
  import opened FloatSticky
  import opened FloatUnpacking
  import opened StickySums
  import opened FusedSums
  import opened FloatMulAdd

  /** The smallest magnitude of a format. */
  function Smallest(f: Format, b: int): nat
    requires b <= Lowest(f)
  {
    Pow2(Lowest(f) - b)
  }

  lemma PowerRepresentable(f: Format, b: int, k: nat)
    requires b <= Lowest(f) && k >= Lowest(f) - b
    ensures Representable(f, b, Pow2(k))
  {
    assert Pow2(f.fraction + 1) > 1;
    assert HasForm(f, b, Pow2(k), 1, k + b);
  }

  lemma ZeroRepresentable(f: Format, b: int)
    requires b <= Lowest(f)
    ensures Representable(f, b, 0)
  {
    assert HasForm(f, b, 0, 0, Lowest(f));
  }

  /** Nothing representable lies strictly between zero and the smallest magnitude. */
  lemma NothingSmaller(f: Format, b: int, x: nat)
    requires b <= Lowest(f) && Representable(f, b, x) && x < Smallest(f, b)
    ensures x == 0
  {
    if x > 0 {
      AtLeastSmallest(f, b, x);
    }
  }

  // ----- correct rounding is monotonic

  lemma RoundedAbove(f: Format, b: int, mode: Mode, sign: bool, v: nat, r: nat, odd: bool, y: nat)
    requires b <= Lowest(f) && CorrectlyRounded(f, b, mode, sign, v, r, odd) && Representable(f, b, y) && y <= v
    ensures y <= r
  {
    hide Representable;
  }

  lemma RoundedBelow(f: Format, b: int, mode: Mode, sign: bool, v: nat, r: nat, odd: bool, x: nat)
    requires b <= Lowest(f) && CorrectlyRounded(f, b, mode, sign, v, r, odd) && Representable(f, b, x) && v <= x
    ensures r <= x
  {
    hide Representable;
  }

  /** Rounding away from zero, for a sign. */
  predicate Upward(mode: Mode, sign: bool) {
    if sign then mode == MinusInfinity else mode == PlusInfinity
  }

  /** Below half the smallest magnitude, only rounding away from zero leaves anything. */
  lemma RoundedToNothing(f: Format, b: int, mode: Mode, sign: bool, v: nat, r: nat, odd: bool)
    requires b <= Lowest(f) && CorrectlyRounded(f, b, mode, sign, v, r, odd)
    requires 2 * v < Smallest(f, b) && mode != ToOdd && !Upward(mode, sign)
    ensures r == 0
  {
    ZeroRepresentable(f, b);
    hide Representable;
    if mode == TieEven {
      assert Distance(v, r) <= Distance(v, 0);
    }
    NothingSmaller(f, b, r);
  }

  lemma PowerAbove(f: Format, b: int, v: nat) returns (k: nat)
    requires b <= Lowest(f) && v >= Smallest(f, b)
    ensures k >= Lowest(f) - b && v <= Pow2(k) <= 2 * v
  {
    var h := HighestSetBit(v);
    if h < Lowest(f) - b {
      Pow2Monotonic(h + 1, Lowest(f) - b);
      k := Lowest(f) - b;
    } else {
      k := h + 1;
      assert Pow2(h + 1) == 2 * Pow2(h);
    }
  }

  /** A much larger magnitude that is not negligible rounds to more. */
  lemma RoundsToMore(f: Format, b: int, mode: Mode, sign: bool, v: nat, rv: nat, ov: bool, w: nat, rw: nat, ow: bool)
    requires b <= Lowest(f) && mode != ToOdd && 0 < 8 * v <= w && w >= Smallest(f, b)
    requires CorrectlyRounded(f, b, mode, sign, v, rv, ov) && CorrectlyRounded(f, b, mode, sign, w, rw, ow)
    requires w == Smallest(f, b) ==> !Upward(mode, sign)
    ensures rv < rw
  {
    var g := Smallest(f, b);
    PowerRepresentable(f, b, Lowest(f) - b);
    RoundedAbove(f, b, mode, sign, w, rw, ow, g);
    if v >= g {
      var k := PowerAbove(f, b, v);
      assert Pow2(k + 1) == 2 * Pow2(k);
      PowerRepresentable(f, b, k);
      PowerRepresentable(f, b, k + 1);
      RoundedBelow(f, b, mode, sign, v, rv, ov, Pow2(k));
      RoundedAbove(f, b, mode, sign, w, rw, ow, Pow2(k + 1));
    } else {
      RoundedBelow(f, b, mode, sign, v, rv, ov, g);
      if 2 * v < g && !Upward(mode, sign) {
        RoundedToNothing(f, b, mode, sign, v, rv, ov);
      } else if w >= 2 * g {
        assert Pow2(Lowest(f) - b + 1) == 2 * g;
        PowerRepresentable(f, b, Lowest(f) - b + 1);
        RoundedAbove(f, b, mode, sign, w, rw, ow, 2 * g);
      } else {
        assert Upward(mode, sign) && w > g && rw >= w;
      }
    }
  }

  // ----- bits and flags

  const CLEAR: Status := Status(false, false, false, false)

  /** So small that the sum rounds, or is flushed, to what it should even if 2^62 times too large. */
  predicate Negligible(f: Format, flush: bool, mode: Mode, w: nat, b: int)
    requires b <= Lowest(f)
  {
    if flush then w < Pow2(f.minExponent - b)
    else if mode == TieEven then 2 * w <= Smallest(f, b)
    else w < Smallest(f, b)
  }

  lemma SmallestFinite(f: Format, b: int)
    requires Known(f) && b <= Lowest(f)
    ensures 2 * Smallest(f, b) <= Pow2(f.minExponent - b) && Smallest(f, b) < Limit(f, b, false)
  {
    assert Pow2(Lowest(f) - b + 1) == 2 * Pow2(Lowest(f) - b);
    Pow2Monotonic(Lowest(f) - b + 1, f.minExponent - b);
    FirstPlaceFinite(f, b, false);
  }

  /** Both neighbours of a magnitude below the smallest. */
  lemma BetweenFirst(f: Format, b: int, v: nat)
    requires Known(f) && b <= Lowest(f) && 0 < v < Smallest(f, b)
    ensures
      var g := Smallest(f, b);
      && IsFloor(f, b, v, 0 * g) && IsCeil(f, b, v, (0 + 1) * g) && !Representable(f, b, v)
      && v < Pow2(f.minExponent - b) && g < Limit(f, b, false)
  {
    SmallestFinite(f, b);
    Neighbours(f, b, Lowest(f), 0, v, v);
  }

  /** The encoding of the smallest magnitude is odd. */
  lemma SmallestOdd(f: Format, b: int, mode: Mode, sign: bool, odd: bool, bits: nat)
    requires Known(f) && b <= Lowest(f) && Encoded(f, b, false, mode, sign, Smallest(f, b), odd, bits)
    ensures odd
  {
    SmallestFinite(f, b);
    assert Pow2(f.fraction) == 2 * Pow2(f.fraction - 1);
    assert Decoded(f, b, 0, 1) == Smallest(f, b);
    hide Pow2, Limit, Decoded;
    DecodedUnique(f, b, BiasedOf(f, bits), FractionOf(f, bits), 0, 1);
    OddFraction(bits, Pow2(f.fraction - 1));
  }

  lemma OddFraction(bits: nat, h: nat)
    requires h > 0 && bits % (2 * h) == 1
    ensures bits % 2 == 1
  {
    var k := bits / (2 * h);
    assert bits == k * (2 * h) + 1;
    EvenPart(k, h, 1);
  }

  /** To nearest, at most half the smallest magnitude gives zero. */
  lemma HalfToNothing(f: Format, b: int, sign: bool, w: nat, r: nat, odd: bool, bits: nat)
    requires Known(f) && b <= Lowest(f) && 0 < 2 * w <= Smallest(f, b)
    requires CorrectlyRounded(f, b, TieEven, sign, w, r, odd) && Encoded(f, b, false, TieEven, sign, r, odd, bits)
    ensures r == 0
  {
    var g := Smallest(f, b);
    ZeroRepresentable(f, b);
    hide Representable, Pow2;
    assert Distance(w, r) <= Distance(w, 0);
    if r < g {
      NothingSmaller(f, b, r);
    } else {
      assert r == g && Distance(w, 0) == Distance(w, r);
      SmallestOdd(f, b, TieEven, sign, odd, bits);
    }
  }

  lemma NearestNothing(f: Format, b: int, sign: bool, v: nat, odd: bool)
    requires Known(f) && b <= Lowest(f) && 0 < 2 * v < Smallest(f, b)
    ensures CorrectlyRounded(f, b, TieEven, sign, v, 0, odd)
  {
    ZeroRepresentable(f, b);
    hide Pow2;
    forall x | Representable(f, b, x)
      ensures Distance(v, 0) <= Distance(v, x) && (x != 0 ==> Distance(v, 0) < Distance(v, x))
    {
      if 0 <= x < Smallest(f, b) {
        NothingSmaller(f, b, x);
      }
    }
    hide Representable;
  }

  /** A negligible sum is rounded as it should be. */
  lemma NegligibleRight(f: Format, b: int, mode: Mode, sign: bool, v: nat, w: nat, before: Status, bits: nat,
                        after: Status)
    requires Known(f) && b <= Lowest(f) && mode != ToOdd && 0 < 8 * v <= w && Negligible(f, false, mode, w, b)
    requires RoundedTo(f, b, false, mode, sign, w, before, bits, after)
    ensures RoundedTo(f, b, false, mode, sign, v, before, bits, after)
  {
    var g := Smallest(f, b);
    var r: nat, odd: bool :|
      && CorrectlyRounded(f, b, mode, sign, w, r, odd)
      && Encoded(f, b, false, mode, sign, r, odd, bits)
      && Signalled(f, b, false, w, r, before, after);
    BetweenFirst(f, b, v);
    BetweenFirst(f, b, w);
    hide Representable, IsFloor, IsCeil, Pow2, Limit, Encoded;
    if mode == TieEven {
      HalfToNothing(f, b, sign, w, r, odd, bits);
      NearestNothing(f, b, sign, v, odd);
    } else {
      DirectedAlike(f, b, mode, sign, g, 0, v, w, r, odd);
    }
    hide CorrectlyRounded;
    assert Signalled(f, b, false, v, r, before, after);
  }

  lemma EncodedOnce(f: Format, b: int, mode: Mode, sign: bool, r: nat, odd: bool, s: nat, even: bool, bits: nat)
    requires Known(f) && b <= Lowest(f) && r < Limit(f, b, false) && s < Limit(f, b, false)
    requires Encoded(f, b, false, mode, sign, r, odd, bits) && Encoded(f, b, false, mode, sign, s, even, bits)
    ensures r == s
  {
  }

  /** A sum that is not negligible comes out wrong, in its bits or its flags. */
  lemma NotNegligibleWrong(f: Format, b: int, mode: Mode, sign: bool, v: nat, w: nat, a: nat, bits: nat, after: Status)
    requires Known(f) && b <= Lowest(f) && mode != ToOdd && 0 < 8 * v <= w && !Negligible(f, false, mode, w, b)
    requires v <= a && Representable(f, b, a) && a < Limit(f, b, false)
    requires RoundedTo(f, b, false, mode, sign, w, CLEAR, bits, after)
    ensures !RoundedTo(f, b, false, mode, sign, v, CLEAR, bits, after)
  {
    var g := Smallest(f, b);
    var rw: nat, ow: bool :|
      && CorrectlyRounded(f, b, mode, sign, w, rw, ow)
      && Encoded(f, b, false, mode, sign, rw, ow, bits)
      && Signalled(f, b, false, w, rw, CLEAR, after);
    forall rv: nat, ov: bool |
      CorrectlyRounded(f, b, mode, sign, v, rv, ov) && Signalled(f, b, false, v, rv, CLEAR, after)
      ensures !Encoded(f, b, false, mode, sign, rv, ov, bits)
    {
      RoundedBelow(f, b, mode, sign, v, rv, ov, a);
      MoreOrInexact(f, b, mode, sign, v, rv, ov, w, rw, ow, after);
      hide Representable, CorrectlyRounded, Pow2, Limit, Encoded;
      if Encoded(f, b, false, mode, sign, rv, ov, bits) {
        EncodedOnce(f, b, mode, sign, rv, ov, rw, ow, bits);
      }
    }
  }

  lemma MoreOrInexact(f: Format, b: int, mode: Mode, sign: bool, v: nat, rv: nat, ov: bool, w: nat, rw: nat, ow: bool,
                      after: Status)
    requires Known(f) && b <= Lowest(f) && mode != ToOdd && 0 < 8 * v <= w && !Negligible(f, false, mode, w, b)
    requires CorrectlyRounded(f, b, mode, sign, v, rv, ov) && CorrectlyRounded(f, b, mode, sign, w, rw, ow)
    requires Signalled(f, b, false, v, rv, CLEAR, after) && Signalled(f, b, false, w, rw, CLEAR, after)
    ensures rv < rw
  {
    var g := Smallest(f, b);
    PowerRepresentable(f, b, Lowest(f) - b);
    if w < g {
      hide Representable, Pow2;
      RoundedToNothing(f, b, mode, sign, v, rv, ov);
      assert Distance(w, rw) <= Distance(w, g);
    } else if w == g && Upward(mode, sign) {
      BetweenFirst(f, b, v);
      RoundedBelow(f, b, mode, sign, w, rw, ow, g);
      hide Representable, Pow2, Limit, CorrectlyRounded;
      assert false;
    } else {
      RoundsToMore(f, b, mode, sign, v, rv, ov, w, rw, ow);
    }
  }

  // ----- the exact condition

  lemma SumRightIff(f: Format, flush: bool, mode: Mode, sign: bool, v: nat, w: nat, a: nat, bits: nat,
                    after: Status, b: int)
    requires Known(f) && b <= Lowest(f) && mode != ToOdd && 0 < 8 * v <= w
    requires v <= a && Representable(f, b, a) && a < Limit(f, b, false)
    requires SumRounded(f, flush, mode, sign, w, CLEAR, bits, after, b)
    ensures SumRounded(f, flush, mode, sign, v, CLEAR, bits, after, b) <==> Negligible(f, flush, mode, w, b)
  {
    SmallestFinite(f, b);
    hide Pow2, Limit, Representable, RoundedTo;
    if !flush || v >= Pow2(f.minExponent - b) {
      if Negligible(f, false, mode, w, b) {
        NegligibleRight(f, b, mode, sign, v, w, CLEAR, bits, after);
      } else {
        NotNegligibleWrong(f, b, mode, sign, v, w, a, bits, after);
      }
    } else if w >= Pow2(f.minExponent - b) {
      NotFlushed(f, b, mode, sign, w, bits, after);
    }
  }

  /** A number that is not flushed gives neither zero nor its flags. */
  lemma NotFlushed(f: Format, b: int, mode: Mode, sign: bool, w: nat, bits: nat, after: Status)
    requires Known(f) && b <= Lowest(f) && w >= Smallest(f, b)
    requires RoundedTo(f, b, false, mode, sign, w, CLEAR, bits, after)
    ensures !(bits == Pack(f, sign, 0, 0) && after == CLEAR.(underflow := true))
  {
    var r: nat, odd: bool :|
      && CorrectlyRounded(f, b, mode, sign, w, r, odd)
      && Encoded(f, b, false, mode, sign, r, odd, bits)
      && Signalled(f, b, false, w, r, CLEAR, after);
    PowerRepresentable(f, b, Lowest(f) - b);
    RoundedAbove(f, b, mode, sign, w, r, odd, Smallest(f, b));
    assert Pow2(f.exponentWidth) > 0 && Pow2(f.fraction) > 0;
    PackedFields(f, sign, 0, 0);
    hide Pow2, Limit, Representable, CorrectlyRounded;
  }

  /** What is left of a cancelled sum is less than the addend. */
  lemma CancelledSmall(addend: Unpacked, op1: Unpacked, op2: Unpacked, b: int)
    requires Even(addend) && Even(op1) && Even(op2) && Fine(addend, op1, op2, b) && Cancelled(addend, op1, op2, b)
    ensures Size(ExactSum(addend, op1, op2, b)) <= AddendIn(addend.exponent, addend.mantissa, b)
  {
    var top := TopExponent(addend, op1, op2);
    var av := AddendIn(addend.exponent, addend.mantissa, b);
    var pv := Scale(Times(op1.mantissa, op2.mantissa), op1.exponent + op2.exponent - 124 - b);
    assert 2 * Pow2(top - 60 - b) <= Pow2(top - b) by {
      assert Pow2(top - 59 - b) == 2 * Pow2(top - 60 - b);
      Pow2Monotonic(top - 59 - b, top - b);
    }
    AddendAtLeast(addend, b);
    ProductAtLeast(op1, op2, b);
    hide Pow2, Scale, Times;
    if top != addend.exponent {
      assert pv >= Pow2(top - b);
    }
  }

  lemma AddendAtLeast(addend: Unpacked, b: int)
    requires Even(addend) && addend.mantissa != 0 && b <= addend.exponent - 62
    ensures AddendIn(addend.exponent, addend.mantissa, b) >= Pow2(addend.exponent - b)
  {
    Pow2Add(62, addend.exponent - 62 - b);
    hide Pow2;
    MulMonotonic(Pow2(62), addend.mantissa, Pow2(addend.exponent - 62 - b));
  }

  lemma ProductAtLeast(op1: Unpacked, op2: Unpacked, b: int)
    requires Even(op1) && Even(op2) && Times(op1.mantissa, op2.mantissa) != 0 && b <= op1.exponent + op2.exponent - 124
    ensures
      var m, e := Times(op1.mantissa, op2.mantissa), op1.exponent + op2.exponent;
      && Scale(m, e - 124 - b) >= Pow2(e - b)
      && (m >= Pow2(125) ==> Scale(m, e - 124 - b) >= Pow2(e + 1 - b))
  {
    var m, e := Times(op1.mantissa, op2.mantissa), op1.exponent + op2.exponent;
    if op1.mantissa == 0 || op2.mantissa == 0 {
      assert false;
    }
    ProductBounds(op1.mantissa, op2.mantissa);
    Pow2Add(124, e - 124 - b);
    Pow2Add(125, e - 124 - b);
    hide Pow2, Times;
    MulMonotonic(Pow2(124), m, Pow2(e - 124 - b));
    if m >= Pow2(125) {
      MulMonotonic(Pow2(125), m, Pow2(e - 124 - b));
    }
  }

  lemma ManyTimes(v: nat)
    ensures 8 * v <= Scale(v, 62)
  {
    assert Pow2(62) >= 8 by { Pow2Monotonic(3, 62); }
    MulMonotonic(8, Pow2(62), v);
  }

  /** Bits and flags are those of the exact sum, rounded once, if and only if the sum was not cancelled or
      is negligible even when it comes out 2^62 times too large. */
  lemma MulAddRightIff(f: Format, flush: bool, mode: Mode, addend: nat, op1: nat, op2: nat, bits: nat,
                       after: Status, b: int)
    requires Known(f) && mode != ToOdd
    requires IsFinite(f, flush, addend) && IsFinite(f, flush, op1) && IsFinite(f, flush, op2)
    requires
      var a, x, y := Unpack(f, false, flush, addend).2, Unpack(f, false, flush, op1).2, Unpack(f, false, flush, op2).2;
      && b <= Lowest(f) && Fine(a, x, y, b) && ExactSum(a, x, y, b) != 0
      && SumOfFinite(f, flush, mode, a, x, y, CLEAR, bits, after, b)
    ensures
      var a, x, y := Unpack(f, false, flush, addend).2, Unpack(f, false, flush, op1).2, Unpack(f, false, flush, op2).2;
      var e := ExactSum(a, x, y, b);
      SumRounded(f, flush, mode, e < 0, Size(e), CLEAR, bits, after, b)
      <==> !Cancelled(a, x, y, b) || Negligible(f, flush, mode, Scale(Size(e), 62), b)
  {
    var a, x, y := Unpack(f, false, flush, addend).2, Unpack(f, false, flush, op1).2, Unpack(f, false, flush, op2).2;
    var e := ExactSum(a, x, y, b);
    UnpackedEven(f, flush, addend);
    UnpackedEven(f, flush, op1);
    UnpackedEven(f, flush, op2);
    if Cancelled(a, x, y, b) {
      AddendFinite(f, flush, addend, b);
      hide Unpack, Pow2, Limit, Representable, SumRounded, ExactSum, Negligible, Scale;
      CancelledSmall(a, x, y, b);
      ManyTimes(Size(e));
      SumRightIff(f, flush, mode, e < 0, Size(e), Scale(Size(e), 62), AddendIn(a.exponent, a.mantissa, b),
                  bits, after, b);
    }
  }

  lemma AddendFinite(f: Format, flush: bool, addend: nat, b: int)
    requires Known(f) && b <= Lowest(f) && Unpack(f, false, flush, addend).0 == Nonzero
    ensures
      var a := Unpack(f, false, flush, addend).2;
      b <= a.exponent - 62 ==>
        var v := AddendIn(a.exponent, a.mantissa, b); Representable(f, b, v) && v < Limit(f, b, false)
  {
    UnpackedValue(f, false, flush, addend, b);
    FieldFinite(f, false, flush, addend);
    FiniteField(f, b, BiasedOf(f, addend), FractionOf(f, addend), false);
    DecodedRepresentable(f, b, BiasedOf(f, addend), FractionOf(f, addend));
    hide Unpack, Pow2, Limit, Representable, Decoded, BiasedOf, FractionOf;
  }

  /** Doubles: 1 + 2^-52 times 1 - 2^-52, less 1. The sum is -2^-104, and comes out as -2^-42. */
  lemma CancelledExample(addend: Unpacked, op1: Unpacked, op2: Unpacked, b: int)
    requires addend == Unpacked(true, 0, 0x4000_0000_0000_0000)
    requires op1 == Unpacked(false, 0, 0x4000_0000_0000_0400) && op2 == Unpacked(false, -1, 0x7FFF_FFFF_FFFF_F800)
    requires Fine(addend, op1, op2, b)
    ensures ExactSum(addend, op1, op2, b) == Signed(true, Pow2(-104 - b))
    ensures Cancelled(addend, op1, op2, b) && Scale(Pow2(-104 - b), 62) == Pow2(-42 - b)
  {
    hide Pow2;
    var w := Pow2(-125 - b);
    ExampleProduct(op1.mantissa, op2.mantissa);
    Pow2Add(63, -125 - b);
    Pow2Add(21, -125 - b);
    Pow2Add(62, -104 - b);
    assert Scale(Times(op1.mantissa, op2.mantissa), -125 - b) == (Pow2(125) - Pow2(21)) * w;
    assert Scale(addend.mantissa, -62 - b) == Pow2(125) * w by { Associate(addend.mantissa, Pow2(63), w); }
    assert (Pow2(125) - Pow2(21)) * w == Pow2(125) * w - Pow2(21) * w;
    PowerLess(-104 - b, -60 - b);
  }

  lemma PowerLess(j: nat, k: nat)
    requires j < k
    ensures 0 < Pow2(j) < Pow2(k)
  {
    Pow2Monotonic(j + 1, k);
  }

  lemma ExampleProduct(x: nat, y: nat)
    requires x == 0x4000_0000_0000_0400 && y == 0x7FFF_FFFF_FFFF_F800
    ensures Times(x, y) == Pow2(125) - Pow2(21) && 0 < Times(x, y) < Pow2(125)
    ensures Times(0x4000_0000_0000_0000, Pow2(63)) == Pow2(125)
  {
    assert Pow2(21) == 0x20_0000 by { Pow2Fields(); assert Pow2(21) == 2 * Pow2(20); }
    assert Pow2(125) == 0x2000_0000_0000_0000_0000_0000_0000_0000 by { Pow2Add(61, 64); Pow2Values(); SixtyOne(); }
    assert Pow2(63) == 0x8000_0000_0000_0000 by { assert Pow2(64) == 2 * Pow2(63); Pow2Values(); }
    hide Pow2;
  }

  lemma SixtyOne()
    ensures Pow2(61) == 0x2000_0000_0000_0000
  {
    Pow2Add(30, 31);
    Pow2Values();
  }
}
