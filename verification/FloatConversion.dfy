/** Conversions between floating-point formats: correct rounding of the value, exact where the format is
    wider, and undone by the conversion back. */
module FloatConversion {
  import opened Arithmetic
  import opened FloatGrid
  import opened FloatRounding
  import opened FloatPacking
  import opened FloatUnpacking

  /** The control bits that matter: flush to zero, alternative half precision, default NaN. */
  datatype Control = Control(flushToZero: bool, alternativeHalf: bool, defaultNaN: bool)

  /** Conversions do not flush half-precision numbers. */
  predicate Flushes(f: Format, c: Control) {
    f != HALF && c.flushToZero
  }

  predicate Alternative(f: Format, c: Control) {
    f == HALF && c.alternativeHalf
  }

  /** A payload moved to another format by way of 51 bits. */
  function MovedPayload(from: Format, to: Format, x: nat): nat
    requires Known(from) && Known(to)
  {
    Quotient(Times(x, Pow2(52 - from.fraction)), Pow2(52 - to.fraction))
  }

  /** The same sign, all exponent bits, the quiet bit and as much of the payload as there is room for. */
  function ConvertNaN(from: Format, to: Format, bits: nat): nat
    requires Known(from) && Known(to)
  {
    QuietNaN(to, SignOf(from, bits), MovedPayload(from, to, Payload(from, bits)))
  }

  function QuietNaN(f: Format, sign: bool, payload: nat): nat
    requires Known(f)
  {
    Pack(f, sign, Pow2(f.exponentWidth) - 1, Pow2(f.fraction - 1) + payload)
  }

  lemma PayloadFits(from: Format, to: Format, x: nat)
    requires Known(from) && Known(to) && x < Pow2(from.fraction - 1)
    ensures MovedPayload(from, to, x) < Pow2(to.fraction - 1)
  {
    Pow2Add(from.fraction - 1, 52 - from.fraction);
    Pow2Add(to.fraction - 1, 52 - to.fraction);
    hide Pow2;
    MovedBelow(x, Pow2(from.fraction - 1), Pow2(52 - from.fraction), Pow2(to.fraction - 1), Pow2(52 - to.fraction));
  }

  lemma MovedBelow(x: nat, a: nat, b: nat, c: nat, d: nat)
    requires x < a && b > 0 && d > 0 && a * b == c * d
    ensures Quotient(Times(x, b), d) < c
  {
    MulMonotonic(x + 1, a, b);
    assert (x + 1) * b == Times(x, b) + b;
    QuotientBelow(Times(x, b), d, c);
  }

  lemma PayloadWidened(from: Format, to: Format, x: nat)
    requires Known(from) && Known(to) && from.fraction <= to.fraction
    ensures MovedPayload(from, to, x) == Times(x, Pow2(to.fraction - from.fraction))
  {
    Pow2Add(to.fraction - from.fraction, 52 - to.fraction);
    hide Pow2;
    var k, d := Pow2(to.fraction - from.fraction), Pow2(52 - to.fraction);
    Associate(x, k, d);
    ExactQuotient(x * (k * d), d, x * k);
  }

  lemma PayloadNarrowed(from: Format, to: Format, x: nat)
    requires Known(from) && Known(to) && to.fraction <= from.fraction
    ensures MovedPayload(from, to, x) == Quotient(x, Pow2(from.fraction - to.fraction))
  {
    Pow2Add(from.fraction - to.fraction, 52 - from.fraction);
    hide Pow2;
    CancelFactor(x, Pow2(from.fraction - to.fraction), Pow2(52 - from.fraction));
  }

  lemma CancelFactor(x: nat, k: nat, d: nat)
    requires k > 0 && d > 0 && k * d > 0
    ensures Quotient(Times(x, d), k * d) == Quotient(x, k)
  {
    var q, r := x / k, x % k;
    assert x == q * k + r;
    Associate(q, k, d);
    assert x * d == q * (k * d) + r * d;
    MulMonotonic(r + 1, k, d);
    assert (r + 1) * d == r * d + d;
    RemainderUnique(x * d, k * d, q, r * d);
  }

  lemma QuietNaNUnpacked(f: Format, flush: bool, sign: bool, payload: nat)
    requires Known(f) && payload < Pow2(f.fraction - 1)
    ensures
      var bits := QuietNaN(f, sign, payload);
      IsKind(f, flush, QNaN, sign, bits) && Payload(f, bits) == payload
  {
    var q := Pow2(f.fraction - 1);
    assert Pow2(f.fraction) == 2 * q && Pow2(f.exponentWidth) >= 2;
    PackedFields(f, sign, Pow2(f.exponentWidth) - 1, q + payload);
    hide Pow2, Pack, SignOf, BiasedOf, FractionOf, Fits;
    RemainderUnique(q + payload, q, 1, payload);
  }

  /** The bits are a quiet NaN of the given sign, with all of the payload x or its leading bits. */
  predicate QuietedNaN(from: Format, to: Format, flush: bool, sign: bool, x: nat, out: nat)
    requires Known(from) && Known(to)
  {
    && IsKind(to, flush, QNaN, sign, out)
    && Payload(to, out) == if from.fraction <= to.fraction then Times(x, Pow2(to.fraction - from.fraction))
                           else Quotient(x, Pow2(from.fraction - to.fraction))
  }

  /** A converted NaN is quiet and keeps its sign, and the payload as far as there is room for it. */
  lemma ConvertedNaN(from: Format, to: Format, flush: bool, bits: nat)
    requires Known(from) && Known(to)
    ensures QuietedNaN(from, to, flush, SignOf(from, bits), Payload(from, bits), ConvertNaN(from, to, bits))
  {
    hide Pow2, MovedPayload, QuietNaN, Unpack, Times, Quotient;
    PayloadFits(from, to, Payload(from, bits));
    QuietNaNUnpacked(to, flush, SignOf(from, bits), MovedPayload(from, to, Payload(from, bits)));
    if from.fraction <= to.fraction {
      PayloadWidened(from, to, Payload(from, bits));
    } else {
      PayloadNarrowed(from, to, Payload(from, bits));
    }
  }

  // ----- the conversion

  /** A unit for the value in both formats. */
  predicate CommonUnit(from: Format, to: Format, op: Unpacked, b: int) {
    b <= Lowest(from) && Unit(to, op, b)
  }

  /** The value rounded to the other format, or flushed to zero. */
  ghost predicate ConvertedTo(from: Format, to: Format, c: Control, mode: Mode, bits: nat, before: Status,
                              out: nat, after: Status, b: int)
    requires Known(from) && Known(to) && b <= Lowest(from) && b <= Lowest(to)
  {
    var v, sign := Decoded(from, b, BiasedOf(from, bits), FractionOf(from, bits)), SignOf(from, bits);
    if Flushes(to, c) && v < Pow2(to.minExponent - b) then
      out == Pack(to, sign, 0, 0) && after == before.(underflow := true)
    else RoundedTo(to, b, Alternative(to, c), mode, sign, v, before, out, after)
  }

  /** Numbers are rounded and anything else stays what it is; the alternative format, which has
      neither infinities nor NaNs, gets its greatest number and zero for them. */
  method Convert(from: Format, to: Format, c: Control, mode: Mode, bits: nat, before: Status)
    returns (out: nat, after: Status)
    requires Known(from) && Known(to)
    ensures
      var (kind, sign, op) := Unpack(from, Alternative(from, c), Flushes(from, c), bits);
      match kind
      case Nonzero =>
        forall b :: CommonUnit(from, to, op, b) ==> ConvertedTo(from, to, c, mode, bits, before, out, after, b)
      case Zero => out == Pack(to, sign, 0, 0) && after == before
      case Infinity =>
        if Alternative(to, c) then out == Greatest(to, true, sign) && after == before.(invalid := true)
        else out == FloatPacking.Infinity(to, sign) && after == before
      case _ =>
        && out == (if Alternative(to, c) then Pack(to, sign, 0, 0)
                   else if c.defaultNaN then DefaultNaN(to) else ConvertNaN(from, to, bits))
        && after == if kind == SNaN || Alternative(to, c) then before.(invalid := true) else before
    ensures
      var (kind, sign, op) := Unpack(from, Alternative(from, c), Flushes(from, c), bits);
      var flush := Flushes(to, c);
      match kind
      case Nonzero => true
      case Zero => IsKind(to, flush, Kind.Zero, sign, out)
      case Infinity => !Alternative(to, c) ==> IsKind(to, flush, Kind.Infinity, sign, out)
      case _ =>
        if Alternative(to, c) then IsKind(to, flush, Kind.Zero, sign, out)
        else if c.defaultNaN then IsDefaultNaN(to, flush, out)
        else QuietedNaN(from, to, flush, sign, Payload(from, bits), out)
  {
    var (kind, sign, op) := Unpack(from, Alternative(from, c), Flushes(from, c), bits);
    SignUnpacked(from, Alternative(from, c), Flushes(from, c), bits);
    hide Unpack, Pack, FloatPacking.Infinity, DefaultNaN, ConvertNaN, IsKind, IsDefaultNaN, QuietedNaN, Pow2, Payload;
    after := before;
    if kind == SNaN || kind == QNaN {
      out := if Alternative(to, c) then Pack(to, sign, 0, 0)
             else if c.defaultNaN then DefaultNaN(to) else ConvertNaN(from, to, bits);
      if kind == SNaN || Alternative(to, c) {
        after := after.(invalid := true);
      }
      ZeroUnpacked(to, Flushes(to, c), sign);
      DefaultNaNUnpacked(to, Flushes(to, c));
      ConvertedNaN(from, to, Flushes(to, c), bits);
    } else if kind == Kind.Infinity {
      if Alternative(to, c) {
        return if sign then 0xFFFF else 0x7FFF, after.(invalid := true);
      }
      out := FloatPacking.Infinity(to, sign);
      InfinityUnpacked(to, Flushes(to, c), sign);
    } else if kind == Kind.Zero {
      out := Pack(to, sign, 0, 0);
      ZeroUnpacked(to, Flushes(to, c), sign);
    } else {
      UnpackedValue(from, Alternative(from, c), Flushes(from, c), bits, 0);
      NormalNotMisjudged(to, op);
      out, after := Round(to, Alternative(to, c), Flushes(to, c), mode, op, before);
      forall b | CommonUnit(from, to, op, b)
        ensures ConvertedTo(from, to, c, mode, bits, before, out, after, b)
      {
        ConvertedRight(from, to, c, mode, bits, before, out, after, b);
      }
    }
  }

  lemma SignUnpacked(f: Format, alternative: bool, flush: bool, bits: nat)
    requires Known(f)
    ensures Unpack(f, alternative, flush, bits).1 == SignOf(f, bits)
  {
    hide SignOf, ToNormalized, Scale;
  }

  /** From the rounding of what was unpacked to the conversion. */
  lemma ConvertedRight(from: Format, to: Format, c: Control, mode: Mode, bits: nat, before: Status,
                       out: nat, after: Status, b: int)
    requires Known(from) && Known(to)
    requires
      var (kind, sign, op) := Unpack(from, Alternative(from, c), Flushes(from, c), bits);
      && kind == Kind.Nonzero && CommonUnit(from, to, op, b) && Input(op)
      && if Flushed(to, op, Flushes(to, c)) then out == Pack(to, op.sign, 0, 0) && after == before.(underflow := true)
         else Rounded(to, b, Alternative(to, c), mode, op, before, out, after)
    ensures ConvertedTo(from, to, c, mode, bits, before, out, after, b)
  {
    hide Unpack, Pow2, RoundedTo, Decoded, HighestSetBit, Magnitude, SignOf, BiasedOf, FractionOf, Normal;
    var op := Unpack(from, Alternative(from, c), Flushes(from, c), bits).2;
    UnpackedValue(from, Alternative(from, c), Flushes(from, c), bits, b);
    BelowNormal(to, op, b);
  }

  // ----- conversions that change nothing

  /** The magnitude of some bits. */
  function ValueOf(f: Format, bits: nat, b: int): nat
    requires b <= Lowest(f)
  {
    Decoded(f, b, BiasedOf(f, bits), FractionOf(f, bits))
  }

  /** What a nonzero number is not. */
  lemma NonzeroFacts(f: Format, c: Control, bits: nat, b: int)
    requires Known(f) && b <= Lowest(f)
    requires Unpack(f, Alternative(f, c), Flushes(f, c), bits).0 == Kind.Nonzero
    ensures ValueOf(f, bits, b) > 0 && BiasedOf(f, bits) < TopField(f, Alternative(f, c))
    ensures Flushes(f, c) ==> ValueOf(f, bits, b) >= Pow2(f.minExponent - b)
    ensures Representable(f, b, ValueOf(f, bits, b)) && ValueOf(f, bits, b) < Limit(f, b, Alternative(f, c))
  {
    FieldFinite(f, Alternative(f, c), Flushes(f, c), bits);
    UnpackedZero(f, Alternative(f, c), Flushes(f, c), bits, b);
    DecodedRepresentable(f, b, BiasedOf(f, bits), FractionOf(f, bits));
    FiniteField(f, b, BiasedOf(f, bits), FractionOf(f, bits), Alternative(f, c));
    hide Unpack, Pow2, Decoded, Limit, Representable;
  }

  /** Converted to a format in which some bits have just its value, a number becomes those bits. */
  lemma ConvertedBack(from: Format, to: Format, c: Control, mode: Mode, w: nat, bits: nat, before: Status,
                      out: nat, after: Status, b: int)
    requires Known(from) && Known(to) && b <= Lowest(from) && b <= Lowest(to) && Fits(to, bits)
    requires Unpack(to, Alternative(to, c), Flushes(to, c), bits).0 == Kind.Nonzero
    requires ValueOf(from, w, b) == ValueOf(to, bits, b) && SignOf(from, w) == SignOf(to, bits)
    requires ConvertedTo(from, to, c, mode, w, before, out, after, b)
    ensures out == bits && after == before
  {
    NonzeroFacts(to, c, bits, b);
    hide Unpack, Pow2, Decoded, Limit, Representable, RoundedTo;
    ExactBits(to, Alternative(to, c), mode, bits, b, ValueOf(to, bits, b), before, out, after);
  }

  /** A number unpacked and rounded to its own format: the same bits, and no flags. */
  method Repack(f: Format, c: Control, mode: Mode, bits: nat, before: Status) returns (out: nat, after: Status)
    requires Known(f) && Fits(f, bits)
    ensures Unpack(f, Alternative(f, c), Flushes(f, c), bits).0 == Kind.Nonzero ==> out == bits && after == before
  {
    out, after := Convert(f, f, c, mode, bits, before);
    hide Unpack, ConvertedTo;
    var (kind, sign, op) := Unpack(f, Alternative(f, c), Flushes(f, c), bits);
    if kind == Kind.Nonzero {
      ghost var b := if Lowest(f) < op.exponent - 62 then Lowest(f) else op.exponent - 62;
      assert CommonUnit(f, f, op, b);
      ConvertedBack(f, f, c, mode, bits, bits, before, out, after, b);
    }
  }

  /** Every number of the one format is a normal number of the other. */
  predicate Wider(narrow: Format, wide: Format) {
    && narrow.fraction <= wide.fraction && Lowest(narrow) >= wide.minExponent
    && narrow.minExponent + Pow2(narrow.exponentWidth) <= wide.minExponent + Pow2(wide.exponentWidth) - 1
  }

  lemma FormatsWider()
    ensures Known(HALF) && Known(SINGLE) && Known(DOUBLE)
    ensures Wider(HALF, SINGLE) && Wider(HALF, DOUBLE) && Wider(SINGLE, DOUBLE)
  {
    Pow2Fields();
  }

  lemma WiderRepresentable(narrow: Format, wide: Format, b: int, x: nat)
    requires Known(narrow) && Known(wide) && Wider(narrow, wide) && b <= Lowest(narrow) && b <= Lowest(wide)
    requires Representable(narrow, b, x)
    ensures Representable(wide, b, x)
  {
    var k: nat, q: int :| HasForm(narrow, b, x, k, q);
    Pow2Monotonic(narrow.fraction + 1, wide.fraction + 1);
    assert HasForm(wide, b, x, k, q);
  }

  lemma WiderLimit(narrow: Format, wide: Format, c: Control, b: int)
    requires Known(narrow) && Known(wide) && Wider(narrow, wide) && b <= Lowest(narrow) && b <= Lowest(wide)
    ensures Limit(narrow, b, Alternative(narrow, c)) <= Limit(wide, b, Alternative(wide, c))
  {
    var n := narrow.minExponent - b + TopField(narrow, Alternative(narrow, c)) - 1;
    var m := wide.minExponent - b + TopField(wide, Alternative(wide, c)) - 1;
    assert Pow2(narrow.exponentWidth) >= 2 && Pow2(wide.exponentWidth) >= 2;
    hide Pow2;
    Pow2Monotonic(n, m);
  }

  /** Converted to a wider format, a number keeps its value and sign, and raises no flag. */
  lemma Widened(narrow: Format, wide: Format, c: Control, mode: Mode, bits: nat, before: Status,
                out: nat, after: Status, b: int)
    requires Known(narrow) && Known(wide) && Wider(narrow, wide) && b <= Lowest(narrow) && b <= Lowest(wide)
    requires Unpack(narrow, Alternative(narrow, c), Flushes(narrow, c), bits).0 == Kind.Nonzero
    requires ConvertedTo(narrow, wide, c, mode, bits, before, out, after, b)
    ensures after == before && Fits(wide, out) && SignOf(wide, out) == SignOf(narrow, bits)
    ensures ValueOf(wide, out, b) == ValueOf(narrow, bits, b)
    ensures Unpack(wide, Alternative(wide, c), Flushes(wide, c), out).0 == Kind.Nonzero
  {
    hide Pow2, Limit, Representable, Decoded, Unpack, SignOf, BiasedOf, FractionOf, TopField, Wider, RoundedTo;
    var v, alternative := ValueOf(narrow, bits, b), Alternative(wide, c);
    NonzeroFacts(narrow, c, bits, b);
    WiderRepresentable(narrow, wide, b, v);
    WiderLimit(narrow, wide, c, b);
    AtLeastSmallest(narrow, b, v);
    WiderNormal(narrow, wide, b);
    ExactEncoded(wide, b, alternative, mode, SignOf(narrow, bits), v, before, out, after);
    UnpackedZero(wide, alternative, Flushes(wide, c), out, b);
    FiniteKind(wide, alternative, Flushes(wide, c), out);
  }

  lemma WiderNormal(narrow: Format, wide: Format, b: int)
    requires Wider(narrow, wide) && b <= Lowest(narrow) && b <= Lowest(wide)
    ensures Pow2(wide.minExponent - b) <= Pow2(Lowest(narrow) - b)
  {
    Pow2Monotonic(wide.minExponent - b, Lowest(narrow) - b);
  }

  lemma ExactEncoded(f: Format, b: int, alternative: bool, mode: Mode, sign: bool, v: nat, before: Status,
                     out: nat, after: Status)
    requires Known(f) && b <= Lowest(f) && Representable(f, b, v) && v < Limit(f, b, alternative)
    requires RoundedTo(f, b, alternative, mode, sign, v, before, out, after)
    ensures after == before && Fits(f, out) && SignOf(f, out) == sign && ValueOf(f, out, b) == v
    ensures BiasedOf(f, out) < TopField(f, alternative)
  {
    var r: nat, odd: bool :|
      && CorrectlyRounded(f, b, mode, sign, v, r, odd)
      && Encoded(f, b, alternative, mode, sign, r, odd, out)
      && Signalled(f, b, alternative, v, r, before, after);
    ExactRounds(f, b, mode, sign, v, r, odd);
    hide CorrectlyRounded, Pow2, Limit, Representable;
  }

  lemma FiniteKind(f: Format, alternative: bool, flush: bool, bits: nat)
    requires Known(f) && BiasedOf(f, bits) < TopField(f, alternative)
    ensures Unpack(f, alternative, flush, bits).0 in {Kind.Zero, Kind.Nonzero}
  {
  }

  /** Converting to a wider format and back, in whatever modes, gives the same number and no flags. */
  method ThereAndBack(narrow: Format, wide: Format, c: Control, there: Mode, back: Mode, bits: nat, before: Status)
    returns (out: nat, after: Status)
    requires Known(narrow) && Known(wide) && Wider(narrow, wide) && Fits(narrow, bits)
    ensures Unpack(narrow, Alternative(narrow, c), Flushes(narrow, c), bits).0 == Kind.Nonzero ==>
              out == bits && after == before
  {
    var middle, between := Convert(narrow, wide, c, there, bits, before);
    out, after := Convert(wide, narrow, c, back, middle, between);
    hide Unpack, ConvertedTo, Wider;
    var (kind, sign, op) := Unpack(narrow, Alternative(narrow, c), Flushes(narrow, c), bits);
    var (kind', sign', op') := Unpack(wide, Alternative(wide, c), Flushes(wide, c), middle);
    if kind == Kind.Nonzero {
      ghost var b := Least(Least(Lowest(narrow), Lowest(wide)), Least(op.exponent - 62, op'.exponent - 62));
      assert CommonUnit(narrow, wide, op, b);
      Widened(narrow, wide, c, there, bits, before, middle, between, b);
      assert CommonUnit(wide, narrow, op', b);
      ConvertedBack(wide, narrow, c, back, middle, bits, between, out, after, b);
    }
  }

  function Least(x: int, y: int): int {
    if x < y then x else y
  }
}
