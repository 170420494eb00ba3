/** What becomes of NaN operands: one of them is chosen and made quiet. */
module FloatNaNs {
  import opened Arithmetic
  import opened Wrappers
  import opened FloatGrid
  import opened FloatRounding
  import opened FloatPacking
  import opened FloatUnpacking

  /** The fraction's highest bit set, which a signalling NaN has clear. */
  function Quieted(f: Format, bits: nat): nat
    requires Known(f)
  {
    bits + Pow2(f.fraction - 1)
  }

  /** The bits are a quiet NaN: the default one, or with the sign and payload of the operand. */
  predicate QuietFrom(f: Format, flush: bool, defaultNaN: bool, op: nat, bits: nat)
    requires Known(f)
  {
    if defaultNaN then IsDefaultNaN(f, flush, bits)
    else
      && Unpack(f, false, flush, bits).0 == QNaN && Unpack(f, false, flush, bits).1 == SignOf(f, op)
      && Payload(f, bits) == Payload(f, op) && (Fits(f, op) ==> Fits(f, bits))
  }

  /** Setting a clear bit changes no other field. */
  lemma QuietedFields(f: Format, bits: nat)
    requires Known(f) && FractionOf(f, bits) < Pow2(f.fraction - 1)
    ensures
      var r := Quieted(f, bits);
      && SignOf(f, r) == SignOf(f, bits) && BiasedOf(f, r) == BiasedOf(f, bits)
      && FractionOf(f, r) == FractionOf(f, bits) + Pow2(f.fraction - 1)
      && Payload(f, r) == Payload(f, bits) && (Fits(f, bits) ==> Fits(f, r))
  {
    var p, q := Pow2(f.fraction), Pow2(f.fraction - 1);
    assert p == 2 * q;
    hide Pow2;
    var h, low := bits / p, bits % p;
    assert bits == h * p + low;
    RemainderUnique(bits + q, p, h, low + q);
    RemainderUnique(low + q, q, 1, low);
    RemainderUnique(low, q, 0, low);
  }

  lemma NaNFields(f: Format, flush: bool, bits: nat)
    requires Known(f) && Unpack(f, false, flush, bits).0 in {QNaN, SNaN}
    ensures BiasedOf(f, bits) == Pow2(f.exponentWidth) - 1 && FractionOf(f, bits) != 0
    ensures Unpack(f, false, flush, bits).0 == SNaN <==> FractionOf(f, bits) < Pow2(f.fraction - 1)
    ensures Unpack(f, false, flush, bits).1 == SignOf(f, bits)
  {
    hide Pow2, ToNormalized, Scale, SignOf, BiasedOf, FractionOf;
  }

  /** All exponent bits and the fraction's highest: a quiet NaN. */
  lemma QuietByFields(f: Format, flush: bool, bits: nat)
    requires Known(f) && BiasedOf(f, bits) == Pow2(f.exponentWidth) - 1 && FractionOf(f, bits) >= Pow2(f.fraction - 1)
    ensures Unpack(f, false, flush, bits).0 == QNaN && Unpack(f, false, flush, bits).1 == SignOf(f, bits)
  {
    assert Pow2(f.exponentWidth) >= 2 && Pow2(f.fraction - 1) > 0;
    hide Pow2, ToNormalized, Scale, SignOf, BiasedOf, FractionOf;
  }

  /** One NaN operand: made quiet, which raises the flag, or replaced by the default NaN. */
  method ProcessNaN(f: Format, flush: bool, defaultNaN: bool, kind: Kind, op: nat, before: Status)
    returns (bits: nat, after: Status)
    requires Known(f) && kind == Unpack(f, false, flush, op).0 && kind in {QNaN, SNaN}
    ensures QuietFrom(f, flush, defaultNaN, op, bits)
    ensures after == if kind == SNaN then before.(invalid := true) else before
  {
    bits, after := op, before;
    NaNFields(f, flush, op);
    if kind == SNaN {
      bits := Quieted(f, op);
      after := after.(invalid := true);
      QuietedFields(f, op);
    }
    QuietByFields(f, flush, bits);
    if defaultNaN {
      bits := DefaultNaN(f);
      DefaultNaNUnpacked(f, flush);
    }
  }

  /** The first signalling NaN, otherwise the first quiet one. */
  predicate Chosen(kinds: seq<Kind>, k: nat) {
    && k < |kinds|
    && if SNaN in kinds then kinds[k] == SNaN && SNaN !in kinds[..k]
       else kinds[k] == QNaN && QNaN !in kinds[..k]
  }

  /** The result for the operand that is chosen. */
  ghost predicate NaNResult(f: Format, flush: bool, defaultNaN: bool, ops: seq<nat>, before: Status,
                            bits: nat, after: Status)
    requires Known(f)
  {
    var kinds := Kinds(f, flush, ops);
    && (exists k: nat :: Chosen(kinds, k) && QuietFrom(f, flush, defaultNaN, ops[k], bits))
    && after == if SNaN in kinds then before.(invalid := true) else before
  }

  function Kinds(f: Format, flush: bool, ops: seq<nat>): (kinds: seq<Kind>)
    requires Known(f)
    ensures |kinds| == |ops|
  {
    seq(|ops|, i requires 0 <= i < |ops| => Unpack(f, false, flush, ops[i]).0)
  }

  /** Three operands of which some may be NaNs; nothing if there is none. */
  method ProcessNaNs3(f: Format, flush: bool, defaultNaN: bool, op1: nat, op2: nat, op3: nat, before: Status)
    returns (r: Option<nat>, after: Status)
    requires Known(f)
    ensures
      var kinds := Kinds(f, flush, [op1, op2, op3]);
      if QNaN in kinds || SNaN in kinds then
        r.Some? && NaNResult(f, flush, defaultNaN, [op1, op2, op3], before, r.value, after)
      else r.None? && after == before
    ensures SNaN !in Kinds(f, flush, [op1, op2, op3]) ==> after == before
  {
    var kind1, kind2, kind3 := Unpack(f, false, flush, op1).0, Unpack(f, false, flush, op2).0,
      Unpack(f, false, flush, op3).0;
    ghost var ops := [op1, op2, op3];
    ghost var kinds := Kinds(f, flush, ops);
    assert kinds == [kind1, kind2, kind3];
    hide Unpack, Kinds, QuietFrom;
    var bits: nat;
    if kind1 == SNaN {
      bits, after := ProcessNaN(f, flush, defaultNaN, kind1, op1, before);
      assert Chosen(kinds, 0) && QuietFrom(f, flush, defaultNaN, ops[0], bits);
    } else if kind2 == SNaN {
      bits, after := ProcessNaN(f, flush, defaultNaN, kind2, op2, before);
      assert Chosen(kinds, 1) && QuietFrom(f, flush, defaultNaN, ops[1], bits);
    } else if kind3 == SNaN {
      bits, after := ProcessNaN(f, flush, defaultNaN, kind3, op3, before);
      assert Chosen(kinds, 2) && QuietFrom(f, flush, defaultNaN, ops[2], bits);
    } else if kind1 == QNaN {
      bits, after := ProcessNaN(f, flush, defaultNaN, kind1, op1, before);
      assert Chosen(kinds, 0) && QuietFrom(f, flush, defaultNaN, ops[0], bits);
    } else if kind2 == QNaN {
      bits, after := ProcessNaN(f, flush, defaultNaN, kind2, op2, before);
      assert Chosen(kinds, 1) && QuietFrom(f, flush, defaultNaN, ops[1], bits);
    } else if kind3 == QNaN {
      bits, after := ProcessNaN(f, flush, defaultNaN, kind3, op3, before);
      assert Chosen(kinds, 2) && QuietFrom(f, flush, defaultNaN, ops[2], bits);
    } else {
      return None, before;
    }
    r := Some(bits);
  }
}
