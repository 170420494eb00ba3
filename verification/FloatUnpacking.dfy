/** Taking the bits of a floating-point number apart, and back: unpacking and rounding is the identity. */
module FloatUnpacking {
  import opened Arithmetic
  import opened FloatGrid
  import opened FloatRounding
  import opened FloatPacking

  datatype Kind = Nonzero | Zero | Infinity | QNaN | SNaN

  function Scale(value: nat, shift: nat): nat {
    value * Pow2(shift)
  }

  function ToNormalized(sign: bool, exponent: int, value: nat): Unpacked
    requires value < Pow2(63)
  {
    if value == 0 then Unpacked(sign, 0, 0)
    else
      var offset := 62 - HighestSetBit(value);
      HighBitBelow(value, 63);
      Unpacked(sign, exponent - (offset - 62), Wrap64(Scale(value, offset)))
  }

  lemma HighBitBelow(m: nat, k: nat)
    requires 0 < m < Pow2(k)
    ensures HighestSetBit(m) < k
  {
    Pow2Below(HighestSetBit(m), k);
  }

  /** Kind, sign and value; `flush` takes subnormal numbers for zero, and the alternative format has
      neither infinities nor NaNs. */
  function Unpack(f: Format, alternative: bool, flush: bool, bits: nat): (Kind, bool, Unpacked)
    requires Known(f)
  {
    var sign, raw, frac := SignOf(f, bits), BiasedOf(f, bits), FractionOf(f, bits);
    if raw == 0 then
      if frac == 0 || flush then (Kind.Zero, sign, Unpacked(sign, 0, 0))
      else
        FractionFits(f);
        (Kind.Nonzero, sign, ToNormalized(sign, Lowest(f), frac))
    else if raw == Pow2(f.exponentWidth) - 1 && !alternative then
      if frac == 0 then
        assert 1 < Pow2(63);
        (Infinity, sign, ToNormalized(sign, 1000000, 1))
      else (if frac >= Pow2(f.fraction - 1) then QNaN else SNaN, sign, Unpacked(sign, 0, 0))
    else
      (Kind.Nonzero, sign, Unpacked(sign, raw - (1 - f.minExponent), Scale(Pow2(f.fraction) + frac, 62 - f.fraction)))
  }

  lemma FractionFits(f: Format)
    requires Known(f)
    ensures Pow2(f.fraction) < Pow2(63)
  {
    Pow2Monotonic(f.fraction, 62);
  }

  // ----- the value unpacked

  /** The normal form: bit 62 is the highest. */
  predicate Normal(op: Unpacked) {
    Pow2(62) <= op.mantissa < Pow2(63)
  }

  lemma NormalInput(op: Unpacked)
    requires Normal(op)
    ensures Input(op) && op.mantissa < 0x8000_0000_0000_0000
  {
    Pow2Values();
    assert Pow2(64) == 2 * Pow2(63);
  }

  lemma NormalizedValue(sign: bool, exponent: int, value: nat, b: int)
    requires 0 < value < Pow2(63)
    ensures
      var op := ToNormalized(sign, exponent, value);
      && Normal(op) && op.sign == sign && op.exponent - 62 <= exponent
      && (b <= op.exponent - 62 ==> Magnitude(op, b) == value * Pow2(exponent - b))
  {
    var h := HighestSetBit(value);
    HighBitBelow(value, 63);
    assert Pow2(62) <= Scale(value, 62 - h) < Pow2(63) by { LeftBounds(value, h, 62 - h); }
    hide HighestSetBit, Pow2;
    BelowTwo64(Scale(value, 62 - h), 63);
    hide Wrap64;
    if b <= exponent + h - 62 {
      Rescaled(value, 62 - h, exponent + h - 62 - b);
    }
  }

  lemma Rescaled(value: nat, s: nat, t: nat)
    ensures value * Pow2(s) * Pow2(t) == value * Pow2(s + t)
  {
    Pow2Add(s, t);
    Associate(value, Pow2(s), Pow2(t));
  }

  /** A nonzero number in normal form, of the magnitude its fields stand for. */
  lemma UnpackedValue(f: Format, alternative: bool, flush: bool, bits: nat, b: int)
    requires Known(f) && Unpack(f, alternative, flush, bits).0 == Kind.Nonzero
    ensures
      var op := Unpack(f, alternative, flush, bits).2;
      && Normal(op) && op.sign == SignOf(f, bits)
      && (Unit(f, op, b) ==> Magnitude(op, b) == Decoded(f, b, BiasedOf(f, bits), FractionOf(f, bits)))
  {
    hide Unpack, SignOf, BiasedOf, FractionOf, Pow2;
    var sign, raw, frac := SignOf(f, bits), BiasedOf(f, bits), FractionOf(f, bits);
    UnpackedNonzero(f, alternative, flush, bits);
    if raw == 0 {
      NormalizedValue(sign, Lowest(f), frac, b);
      hide ToNormalized, Normal, Magnitude;
    } else {
      SignificandNormal(f, frac);
      NormalValue(f, sign, raw, frac, b);
      hide Decoded, Magnitude, Scale;
    }
  }

  lemma UnpackedNonzero(f: Format, alternative: bool, flush: bool, bits: nat)
    requires Known(f) && Unpack(f, alternative, flush, bits).0 == Kind.Nonzero
    ensures
      var sign, raw, frac := SignOf(f, bits), BiasedOf(f, bits), FractionOf(f, bits);
      && frac < Pow2(f.fraction) && (raw == 0 ==> 0 < frac < Pow2(63))
      && Unpack(f, alternative, flush, bits).2
         == if raw == 0 then ToNormalized(sign, Lowest(f), frac)
            else Unpacked(sign, raw - (1 - f.minExponent), Scale(Pow2(f.fraction) + frac, 62 - f.fraction))
  {
    FractionFits(f);
    hide ToNormalized, Scale, Pow2;
  }

  lemma NormalValue(f: Format, sign: bool, raw: nat, frac: nat, b: int)
    requires Known(f) && raw > 0
    ensures
      var op := Unpacked(sign, raw - (1 - f.minExponent), Scale(Pow2(f.fraction) + frac, 62 - f.fraction));
      Unit(f, op, b) ==> Magnitude(op, b) == Decoded(f, b, raw, frac)
  {
    var e := raw - (1 - f.minExponent);
    if b <= Lowest(f) && b <= e - 62 {
      Rescaled(Pow2(f.fraction) + frac, 62 - f.fraction, e - 62 - b);
    }
  }

  lemma SignificandNormal(f: Format, frac: nat)
    requires Known(f) && frac < Pow2(f.fraction)
    ensures Pow2(62) <= Scale(Pow2(f.fraction) + frac, 62 - f.fraction) < Pow2(63)
  {
    assert Pow2(f.fraction + 1) == 2 * Pow2(f.fraction);
    LeftBounds(Pow2(f.fraction) + frac, f.fraction, 62 - f.fraction);
  }

  // ----- and back

  /** A representable magnitude rounds to itself in every mode. */
  lemma ExactRounds(f: Format, b: int, mode: Mode, sign: bool, v: int, r: int, odd: bool)
    requires b <= Lowest(f) && Representable(f, b, v) && CorrectlyRounded(f, b, mode, sign, v, r, odd)
    ensures r == v
  {
  }

  lemma DecodedRepresentable(f: Format, b: int, biased: nat, frac: nat)
    requires b <= Lowest(f) && frac < Pow2(f.fraction)
    ensures Representable(f, b, Decoded(f, b, biased, frac))
  {
    var k, q := if biased == 0 then frac else Pow2(f.fraction) + frac, if biased == 0 then 0 else biased - 1;
    assert HasForm(f, b, Decoded(f, b, biased, frac), k, Lowest(f) + q);
  }

  /** The fields are determined by the magnitude. */
  lemma DecodedUnique(f: Format, b: int, biased: nat, frac: nat, biased': nat, frac': nat)
    requires b <= Lowest(f) && frac < Pow2(f.fraction) && frac' < Pow2(f.fraction)
    requires Decoded(f, b, biased, frac) == Decoded(f, b, biased', frac')
    ensures biased == biased' && frac == frac'
  {
    NotEarlier(f, b, biased, frac, biased', frac');
    NotEarlier(f, b, biased', frac', biased, frac);
    SameFraction(f, b, biased, frac, frac');
  }

  lemma NotEarlier(f: Format, b: int, biased: nat, frac: nat, biased': nat, frac': nat)
    requires b <= Lowest(f) && frac < Pow2(f.fraction) && frac' < Pow2(f.fraction)
    requires Decoded(f, b, biased, frac) == Decoded(f, b, biased', frac')
    ensures biased >= biased'
  {
    var p, t := Pow2(f.fraction), f.fraction + (Lowest(f) - b);
    var m, m' := if biased == 0 then frac else p + frac, if biased' == 0 then frac' else p + frac';
    FieldOf(m, p);
    FieldOf(m', p);
    DecodedRange(f, b, biased, m);
    DecodedRange(f, b, biased', m');
    hide Decoded, Pow2;
    if biased < biased' {
      Pow2Monotonic(t + biased, t + biased' - 1);
    }
  }

  lemma SameFraction(f: Format, b: int, biased: nat, frac: nat, frac': nat)
    requires b <= Lowest(f) && Decoded(f, b, biased, frac) == Decoded(f, b, biased, frac')
    ensures frac == frac'
  {
    var p, g := if biased == 0 then 0 else Pow2(f.fraction),
        Pow2(Lowest(f) + (if biased == 0 then 0 else biased - 1) - b);
    hide Pow2;
    Cancel(p + frac, p + frac', g);
  }

  lemma Cancel(x: int, y: int, g: int)
    requires g > 0 && x * g == y * g
    ensures x == y
  {
    if x < y { MulMonotonic(x + 1, y, g); }
    if y < x { MulMonotonic(y + 1, x, g); }
  }

  lemma BitsFromFields(f: Format, bits: nat, other: nat)
    requires Fits(f, bits) && Fits(f, other)
    requires SignOf(f, bits) == SignOf(f, other) && BiasedOf(f, bits) == BiasedOf(f, other)
    requires FractionOf(f, bits) == FractionOf(f, other)
    ensures bits == other
  {
    var e := Pow2(f.exponentWidth);
    FieldOf(bits / Pow2(f.fraction), e);
    FieldOf(other / Pow2(f.fraction), e);
  }

  /** A magnitude that some finite bits stand for is rounded to those bits, and no flag is raised. */
  lemma ExactBits(f: Format, alternative: bool, mode: Mode, bits: nat, b: int, v: nat, before: Status,
                  out: nat, after: Status)
    requires Known(f) && b <= Lowest(f) && Fits(f, bits) && BiasedOf(f, bits) < TopField(f, alternative)
    requires v == Decoded(f, b, BiasedOf(f, bits), FractionOf(f, bits))
    requires RoundedTo(f, b, alternative, mode, SignOf(f, bits), v, before, out, after)
    ensures out == bits && after == before
  {
    var sign, raw, frac := SignOf(f, bits), BiasedOf(f, bits), FractionOf(f, bits);
    var r: nat, odd: bool :|
      && CorrectlyRounded(f, b, mode, sign, v, r, odd)
      && Encoded(f, b, alternative, mode, sign, r, odd, out)
      && Signalled(f, b, alternative, v, r, before, after);
    DecodedRepresentable(f, b, raw, frac);
    ExactRounds(f, b, mode, sign, v, r, odd);
    FiniteField(f, b, raw, frac, alternative);
    DecodedUnique(f, b, raw, frac, BiasedOf(f, out), FractionOf(f, out));
    BitsFromFields(f, bits, out);
  }

  /** Whatever the rounding mode, a number taken apart and rounded to its own format is itself, and
      no flag is raised. */
  lemma RoundTrip(f: Format, alternative: bool, flush: bool, mode: Mode, bits: nat, b: int, before: Status,
                  out: nat, after: Status)
    requires Known(f) && Fits(f, bits) && Unpack(f, alternative, flush, bits).0 == Kind.Nonzero
    requires
      var op := Unpack(f, alternative, flush, bits).2;
      Unit(f, op, b) && Rounded(f, b, alternative, mode, op, before, out, after)
    ensures out == bits && after == before
  {
    UnpackedValue(f, alternative, flush, bits, b);
    FieldFinite(f, alternative, flush, bits);
    ExactBits(f, alternative, mode, bits, b, Magnitude(Unpack(f, alternative, flush, bits).2, b), before, out, after);
  }

  // ----- the other kinds

  /** Zero is what stands for nothing, and what is flushed. */
  lemma UnpackedZero(f: Format, alternative: bool, flush: bool, bits: nat, b: int)
    requires Known(f) && b <= Lowest(f)
    ensures
      var v := Decoded(f, b, BiasedOf(f, bits), FractionOf(f, bits));
      Unpack(f, alternative, flush, bits).0 == Kind.Zero <==> v == 0 || (flush && v < Pow2(f.minExponent - b))
  {
    var raw, frac := BiasedOf(f, bits), FractionOf(f, bits);
    var p := Pow2(f.fraction);
    var m := if raw == 0 then frac else p + frac;
    FieldOf(m, p);
    DecodedRange(f, b, raw, m);
    if raw == 0 {
      FractionFits(f);
      DecodedNothing(f, b, frac);
    } else {
      Pow2Monotonic(f.minExponent - b, f.minExponent - b + raw - 1);
    }
    hide Decoded, Pow2, ToNormalized;
  }

  lemma DecodedNothing(f: Format, b: int, frac: nat)
    requires b <= Lowest(f)
    ensures Decoded(f, b, 0, frac) == 0 <==> frac == 0
  {
    if frac > 0 {
      MulMonotonic(1, frac, Pow2(Lowest(f) - b));
    }
  }

  lemma KindOf(f: Format, alternative: bool, flush: bool, bits: nat)
    requires Known(f)
    ensures
      var kind := Unpack(f, alternative, flush, bits).0;
      var top := !alternative && BiasedOf(f, bits) == Pow2(f.exponentWidth) - 1;
      && (kind == Kind.Infinity <==> top && FractionOf(f, bits) == 0)
      && (kind in {QNaN, SNaN} <==> top && FractionOf(f, bits) != 0)
  {
    assert Pow2(f.exponentWidth) >= 2;
    hide Pow2, ToNormalized, Scale, SignOf, BiasedOf, FractionOf;
  }

  /** Infinities and NaNs are the bits from infinity on, apart from the sign. */
  lemma UnpackedSpecial(f: Format, alternative: bool, flush: bool, bits: nat)
    requires Known(f) && Fits(f, bits)
    ensures
      var kind, top := Unpack(f, alternative, flush, bits).0, FloatPacking.Infinity(f, SignOf(f, bits));
      && (kind == Kind.Infinity <==> !alternative && bits == top)
      && (kind in {QNaN, SNaN} <==> !alternative && bits > top)
  {
    KindOf(f, alternative, flush, bits);
    SpecialBits(f, bits);
    hide Unpack, Pow2, SignOf, BiasedOf, FractionOf, FloatPacking.Infinity, Fits;
  }

  lemma SpecialBits(f: Format, bits: nat)
    requires Known(f) && Fits(f, bits)
    ensures
      var top, last := FloatPacking.Infinity(f, SignOf(f, bits)), BiasedOf(f, bits) == Pow2(f.exponentWidth) - 1;
      && (bits == top <==> last && FractionOf(f, bits) == 0)
      && (bits > top <==> last && FractionOf(f, bits) != 0)
  {
    var sign, e, p := SignOf(f, bits), Pow2(f.exponentWidth), Pow2(f.fraction);
    assert e >= 2;
    var high := bits / p;
    assert bits == high * p + bits % p;
    FieldOf(high, e);
    hide Pow2;
    SpecialRange(high, bits % p, p, (if sign then e else 0) + e - 1);
  }

  /** A number of two digits compared with one whose second digit is zero. */
  lemma SpecialRange(high: nat, low: nat, p: nat, top: nat)
    requires low < p && high <= top
    ensures high * p + low == top * p <==> high == top && low == 0
    ensures high * p + low > top * p <==> high == top && low > 0
  {
    if high < top {
      MulMonotonic(high + 1, top, p);
      assert (high + 1) * p == high * p + p;
    }
  }

  /** The leading bits of the payload below the quiet bit. */
  function Payload(f: Format, bits: nat): nat
    requires Known(f)
  {
    FractionOf(f, bits) % Pow2(f.fraction - 1)
  }

  /** The bits fit the format and are of this kind and sign. */
  predicate IsKind(f: Format, flush: bool, kind: Kind, sign: bool, bits: nat)
    requires Known(f)
  {
    Fits(f, bits) && Unpack(f, false, flush, bits).0 == kind && Unpack(f, false, flush, bits).1 == sign
  }

  /** The default NaN: quiet, positive, nothing in its payload. */
  predicate IsDefaultNaN(f: Format, flush: bool, bits: nat)
    requires Known(f)
  {
    IsKind(f, flush, QNaN, false, bits) && Payload(f, bits) == 0
  }

  lemma DefaultNaNUnpacked(f: Format, flush: bool)
    requires Known(f)
    ensures IsDefaultNaN(f, flush, DefaultNaN(f))
  {
    var q := Pow2(f.fraction - 1);
    assert Pow2(f.fraction) == 2 * q && Pow2(f.exponentWidth) >= 2;
    PackedFields(f, false, Pow2(f.exponentWidth) - 1, q);
    hide Pow2, Pack, SignOf, BiasedOf, FractionOf, Fits;
    RemainderUnique(q, q, 1, 0);
  }

  lemma ZeroUnpacked(f: Format, flush: bool, sign: bool)
    requires Known(f)
    ensures IsKind(f, flush, Kind.Zero, sign, Pack(f, sign, 0, 0))
  {
    PackedFields(f, sign, 0, 0);
    hide Pow2, Pack, SignOf, BiasedOf, FractionOf, Fits;
  }

  lemma InfinityUnpacked(f: Format, flush: bool, sign: bool)
    requires Known(f)
    ensures IsKind(f, flush, Kind.Infinity, sign, FloatPacking.Infinity(f, sign))
  {
    assert Pow2(f.exponentWidth) >= 2;
    PackedFields(f, sign, Pow2(f.exponentWidth) - 1, 0);
    hide Pow2, Pack, SignOf, BiasedOf, FractionOf, Fits, ToNormalized;
  }

  /** The bits returned in place of a magnitude beyond the finite ones, when not infinity. */
  function Greatest(f: Format, alternative: bool, sign: bool): nat
    requires Known(f)
  {
    if alternative then if sign then 0xFFFF else 0x7FFF else MaxNormal(f, sign)
  }

  /** They have the greatest field and the greatest fraction. */
  lemma GreatestFields(f: Format, alternative: bool, sign: bool)
    requires Known(f) && (alternative ==> f == HALF)
    ensures
      var top := Greatest(f, alternative, sign);
      && Fits(f, top) && SignOf(f, top) == sign
      && BiasedOf(f, top) == TopField(f, alternative) - 1 && FractionOf(f, top) == Pow2(f.fraction) - 1
  {
    var e, p := Pow2(f.exponentWidth), Pow2(f.fraction);
    assert e >= 2 && p >= 1;
    var biased := TopField(f, alternative) - 1;
    PackedFields(f, sign, biased, p - 1);
    assert Greatest(f, alternative, sign) == Pack(f, sign, biased, p - 1) by {
      if alternative {
        Pow2Fields();
      } else {
        hide Pow2;
        NextField((if sign then e else 0) + biased, p);
      }
    }
    hide Pow2, Greatest, Pack, SignOf, BiasedOf, FractionOf, Fits;
  }

  lemma NextField(x: nat, p: nat)
    ensures (x + 1) * p == x * p + (p - 1) + 1
  {
  }

  /** So no finite number is further from zero. */
  lemma GreatestFinite(f: Format, alternative: bool, sign: bool, b: int, biased: nat, frac: nat)
    requires Known(f) && (alternative ==> f == HALF) && b <= Lowest(f)
    requires biased < TopField(f, alternative) && frac < Pow2(f.fraction)
    ensures
      var top := Greatest(f, alternative, sign);
      Decoded(f, b, biased, frac) <= Decoded(f, b, BiasedOf(f, top), FractionOf(f, top))
  {
    GreatestFields(f, alternative, sign);
    hide Greatest, BiasedOf, FractionOf, TopField;
    var last, p := TopField(f, alternative) - 1, Pow2(f.fraction);
    var m := if biased == 0 then frac else p + frac;
    assert Pow2(f.fraction + 1) == 2 * p;
    if biased == last {
      hide Pow2;
      var g := Pow2(Lowest(f) - b + if last == 0 then 0 else last - 1);
      MulMonotonic(m, if last == 0 then p - 1 else p + (p - 1), g);
    } else {
      FieldOf(m, p);
      FieldOf(p + (p - 1), p);
      DecodedRange(f, b, biased, m);
      DecodedRange(f, b, last, p + (p - 1));
      Pow2Monotonic(f.fraction + (Lowest(f) - b) + biased, f.fraction + (Lowest(f) - b) + last - 1);
      hide Pow2, Decoded;
    }
  }

  /** What rounds to a magnitude beyond the finite ones is itself beyond the greatest of them. */
  lemma BeyondGreatest(f: Format, b: int, mode: Mode, sign: bool, v: int, r: int, odd: bool)
    requires Known(f) && b <= Lowest(f) && CorrectlyRounded(f, b, mode, sign, v, r, odd) && r >= Limit(f, b, false)
    ensures
      var top := Greatest(f, false, sign);
      v > Decoded(f, b, BiasedOf(f, top), FractionOf(f, top))
  {
    var bits := Greatest(f, false, sign);
    GreatestFields(f, false, sign);
    DecodedRepresentable(f, b, BiasedOf(f, bits), FractionOf(f, bits));
    FiniteField(f, b, BiasedOf(f, bits), FractionOf(f, bits), false);
    var top := Decoded(f, b, BiasedOf(f, bits), FractionOf(f, bits));
    hide Greatest, Decoded, Limit, Representable, Pow2, BiasedOf, FractionOf, TopField, SignOf, Fits;
    assert mode == TieEven ==> Distance(v, r) <= Distance(v, top);
    assert IsCeil(f, b, v, r) && v <= top ==> r <= top;
  }

  function WithSign(sign: bool, x: int): int {
    if sign then -x else x
  }

  /** Overflow: rounding to nearest gives infinity; rounding in a direction gives the greatest finite
      number if that is on the right side of the exact value, and infinity otherwise; the other modes
      give the greatest finite number. */
  lemma OverflowDirected(f: Format, b: int, mode: Mode, sign: bool, v: int, r: nat, odd: bool, bits: nat, flush: bool)
    requires Known(f) && b <= Lowest(f) && CorrectlyRounded(f, b, mode, sign, v, r, odd) && r >= Limit(f, b, false)
    requires Encoded(f, b, false, mode, sign, r, odd, bits)
    ensures
      var top := Greatest(f, false, sign);
      var finite := WithSign(sign, Decoded(f, b, BiasedOf(f, top), FractionOf(f, top)));
      var holds := match mode
                   case TieEven => false
                   case PlusInfinity => finite >= WithSign(sign, v)
                   case MinusInfinity => finite <= WithSign(sign, v)
                   case _ => true;
      if holds then bits == top else IsKind(f, flush, Kind.Infinity, sign, bits)
  {
    BeyondGreatest(f, b, mode, sign, v, r, odd);
    InfinityUnpacked(f, flush, sign);
    hide CorrectlyRounded, Decoded, Limit, Pow2, BiasedOf, FractionOf, IsKind, MaxNormal, FloatPacking.Infinity;
  }

  lemma FieldFinite(f: Format, alternative: bool, flush: bool, bits: nat)
    requires Known(f) && Unpack(f, alternative, flush, bits).0 == Kind.Nonzero
    ensures BiasedOf(f, bits) < TopField(f, alternative)
  {
    assert Pow2(f.exponentWidth) >= 2;
  }

  lemma FiniteField(f: Format, b: int, biased: nat, frac: nat, alternative: bool)
    requires Known(f) && b <= Lowest(f) && frac < Pow2(f.fraction) && biased < TopField(f, alternative)
    ensures Decoded(f, b, biased, frac) < Limit(f, b, alternative)
  {
    var p := Pow2(f.fraction);
    var m := if biased == 0 then frac else p + frac;
    FieldOf(m, p);
    BeyondLimit(f, b, biased, m, alternative);
  }

  /** Numbers in normal form are never misjudged. */
  lemma NormalNotMisjudged(f: Format, op: Unpacked)
    requires Known(f) && Normal(op)
    ensures Input(op) && !Misjudged(f, op)
  {
    NormalInput(op);
  }
}
