/** Folding constants in additions and multiplications of the intermediate representation. */
module ConstantFolding {
  import opened Arithmetic
  import opened Wrappers

  /** A constant, or the result of an instruction. */
  datatype Operand = Imm(bits: nat) | Result(inst: Inst)

  /** An addition with carry or a multiplication in 32 or 64 bits, or any other instruction, of a word
      or a single bit. */
  datatype Inst =
    | Add(is32: bool, lhs: Operand, rhs: Operand, carry: Operand)
    | Mul(is32: bool, lhs: Operand, rhs: Operand)
    | Word(is32: bool, id: nat)
    | Bit(id: nat)

  function Modulus(is32: bool): (m: nat)
    ensures m > 1
  {
    if is32 then TWO32 else TWO64
  }

  function Wrap(is32: bool, x: nat): (w: nat)
    ensures w < Modulus(is32)
  {
    x % Modulus(is32)
  }

  /** The value of an instruction, given those of the others. */
  function Value(env: nat -> nat, inst: Inst): nat {
    match inst
    case Add(is32, lhs, rhs, carry) =>
      Wrap(is32, OperandValue(env, lhs) + OperandValue(env, rhs) + OperandValue(env, carry))
    case Mul(is32, lhs, rhs) => Wrap(is32, Times(OperandValue(env, lhs), OperandValue(env, rhs)))
    case Word(is32, id) => Wrap(is32, env(id))
    case Bit(id) => env(id) % 2
  }

  function OperandValue(env: nat -> nat, operand: Operand): nat {
    match operand
    case Imm(bits) => bits
    case Result(inst) => Value(env, inst)
  }

  /** Operands have the width of their instruction, carries are single bits. */
  predicate IsWord(operand: Operand, is32: bool) {
    match operand
    case Imm(bits) => bits < Modulus(is32)
    case Result(inst) => !inst.Bit? && inst.is32 == is32 && WellTyped(inst)
  }

  predicate IsBit(operand: Operand) {
    match operand
    case Imm(bits) => bits < 2
    case Result(inst) => inst.Bit?
  }

  predicate WellTyped(inst: Inst) {
    match inst
    case Add(is32, lhs, rhs, carry) => IsWord(lhs, is32) && IsWord(rhs, is32) && IsBit(carry)
    case Mul(is32, lhs, rhs) => IsWord(lhs, is32) && IsWord(rhs, is32)
    case _ => true
  }

  lemma WordBelow(env: nat -> nat, operand: Operand, is32: bool)
    requires IsWord(operand, is32)
    ensures OperandValue(env, operand) < Modulus(is32)
  {
  }

  lemma BitBelow(env: nat -> nat, operand: Operand)
    requires IsBit(operand)
    ensures OperandValue(env, operand) < 2
  {
  }

  // ----- folding

  /** The instruction stays, with the operands it has now, or its uses are replaced. */
  datatype Outcome = Stays(inst: Inst) | Replaced(operand: Operand)

  function OutcomeValue(env: nat -> nat, outcome: Outcome): nat {
    match outcome
    case Stays(inst) => Value(env, inst)
    case Replaced(operand) => OperandValue(env, operand)
  }

  /** A constant of the instruction's width, computed in 64 bits. */
  function Constant(is32: bool, value: nat): Operand {
    Imm(Wrap(is32, value))
  }

  /** The left operand adds a constant itself. */
  predicate Nested(inst: Inst)
    requires inst.Add?
  {
    && inst.lhs.Result? && inst.lhs.inst.Add? && inst.lhs.inst.is32 == inst.is32
    && inst.lhs.inst.rhs.Imm? && inst.lhs.inst.carry.Imm?
  }

  function Combined(inst: Inst): nat
    requires inst.Add? && inst.rhs.Imm? && Nested(inst)
  {
    Wrap(false, inst.rhs.bits + inst.lhs.inst.rhs.bits + inst.lhs.inst.carry.bits)
  }

  function FoldAdd(inst: Inst, pseudo: bool): Outcome
    requires inst.Add?
    decreases inst.lhs.Imm? && inst.rhs.Result?
  {
    if inst.lhs.Imm? && inst.rhs.Result? then FoldAdd(Add(inst.is32, inst.rhs, inst.lhs, inst.carry), pseudo)
    else if pseudo then Stays(inst)
    else if inst.lhs.Result? && inst.rhs.Imm? && Nested(inst) then
      if Combined(inst) == 0 then Replaced(inst.lhs.inst.lhs)
      else Stays(Add(inst.is32, inst.lhs.inst.lhs, Constant(inst.is32, Combined(inst)), inst.carry))
    else if inst.lhs.Result? && inst.rhs == Imm(0) && inst.carry == Imm(0) then Replaced(inst.lhs)
    else if inst.lhs.Imm? && inst.rhs.Imm? && inst.carry.Imm? then
      Replaced(Constant(inst.is32, Wrap(false, inst.lhs.bits + inst.rhs.bits + inst.carry.bits)))
    else Stays(inst)
  }

  /** Constants that cancel out, on one side or the other, where no flags are taken from the addition. */
  predicate Cancels(inst: Inst, pseudo: bool)
    requires inst.Add?
  {
    var turned := if inst.lhs.Imm? && inst.rhs.Result? then Add(inst.is32, inst.rhs, inst.lhs, inst.carry) else inst;
    !pseudo && turned.rhs.Imm? && Nested(turned) && Combined(turned) == 0
  }

  lemma WrapTwice(x: nat, is32: bool)
    ensures Wrap(is32, Wrap(false, x)) == Wrap(is32, x)
  {
    if is32 {
      var q, r := x / TWO64, x % TWO64;
      RemainderUnique(x, TWO32, q * TWO32 + r / TWO32, r % TWO32);
    }
  }

  /** A sum in steps. */
  lemma SumSteps(a: nat, b: nat, is32: bool)
    ensures Wrap(is32, Wrap(is32, a) + b) == Wrap(is32, a + b)
  {
    AddRemainder(a, b, Modulus(is32));
  }

  lemma NestedTyped(inst: Inst)
    requires inst.Add? && WellTyped(inst) && Nested(inst)
    ensures IsWord(inst.lhs.inst.lhs, inst.is32) && IsBit(inst.carry)
  {
    assert WellTyped(inst.lhs.inst);
  }

  lemma CombinedSum(x: nat, a: nat, b: nat, d: nat, c: nat, is32: bool)
    ensures
      var combined := Wrap(false, d + a + b);
      && Wrap(is32, Wrap(is32, x + a + b) + d + c) == Wrap(is32, x + combined + c)
      && Wrap(is32, x + combined + c) == Wrap(is32, x + Wrap(is32, combined) + c)
  {
    hide Wrap, Modulus;
    var combined := Wrap(false, d + a + b);
    SumSteps(x + a + b, d + c, is32);
    assert Wrap(is32, x + a + b) + (d + c) == Wrap(is32, x + a + b) + d + c;
    SumSteps(d + a + b, x + c, is32);
    WrapTwice(d + a + b, is32);
    SumSteps(combined, x + c, is32);
    assert x + a + b + (d + c) == d + a + b + (x + c);
    assert combined + (x + c) == x + combined + c;
    assert Wrap(is32, combined) + (x + c) == x + Wrap(is32, combined) + c;
  }

  lemma AddValue(env: nat -> nat, inst: Inst)
    requires inst.Add?
    ensures
      var a, b, c := OperandValue(env, inst.lhs), OperandValue(env, inst.rhs), OperandValue(env, inst.carry);
      Value(env, inst) == Wrap(inst.is32, a + b + c)
  {
  }

  lemma NestedValue(env: nat -> nat, inst: Inst)
    requires inst.Add? && inst.rhs.Imm? && Nested(inst)
    ensures
      var x, c := OperandValue(env, inst.lhs.inst.lhs), OperandValue(env, inst.carry);
      && Value(env, inst) == Wrap(inst.is32, x + Combined(inst) + c)
      && Value(env, inst) == Wrap(inst.is32, x + Wrap(inst.is32, Combined(inst)) + c)
  {
    hide Value, Modulus, Wrap;
    var inner := inst.lhs.inst;
    var x := OperandValue(env, inner.lhs);
    AddValue(env, inner);
    AddValue(env, inst);
    CombinedSum(x, inner.rhs.bits, inner.carry.bits, inst.rhs.bits, OperandValue(env, inst.carry), inst.is32);
  }

  /** What is folded of an addition to a constant already added. */
  lemma NestedIff(env: nat -> nat, inst: Inst)
    requires inst.Add? && WellTyped(inst) && inst.rhs.Imm? && Nested(inst)
    ensures OutcomeValue(env, FoldAdd(inst, false)) == Value(env, inst)
            <==> !(Combined(inst) == 0 && OperandValue(env, inst.carry) == 1)
  {
    var x, c := OperandValue(env, inst.lhs.inst.lhs), OperandValue(env, inst.carry);
    NestedTyped(inst);
    NestedValue(env, inst);
    WordBelow(env, inst.lhs.inst.lhs, inst.is32);
    BitBelow(env, inst.carry);
    if Combined(inst) == 0 {
      OneMore(x, c, inst.is32);
    } else {
      AddValue(env, Add(inst.is32, inst.lhs.inst.lhs, Constant(inst.is32, Combined(inst)), inst.carry));
    }
    hide Value, Modulus, WellTyped, Wrap;
  }

  lemma OneMore(x: nat, c: nat, is32: bool)
    requires x < Modulus(is32) && c < 2
    ensures Wrap(is32, x + c) == x <==> c == 0
  {
    if x + c < Modulus(is32) {
      RemainderUnique(x + c, Modulus(is32), 0, x + c);
    } else {
      RemainderUnique(x + c, Modulus(is32), 1, 0);
    }
  }

  /** The addition keeps its value, except that constants that cancel out take its own carry with them. */
  lemma {:induction false} FoldAddIff(env: nat -> nat, inst: Inst, pseudo: bool)
    requires inst.Add? && WellTyped(inst)
    ensures OutcomeValue(env, FoldAdd(inst, pseudo)) == Value(env, inst)
            <==> !(Cancels(inst, pseudo) && OperandValue(env, inst.carry) == 1)
    decreases inst.lhs.Imm? && inst.rhs.Result?
  {
    hide Value, OperandValue, Modulus, WellTyped;
    if inst.lhs.Imm? && inst.rhs.Result? {
      TurnedSame(env, inst);
      FoldAddIff(env, Add(inst.is32, inst.rhs, inst.lhs, inst.carry), pseudo);
    } else if !pseudo && inst.rhs.Imm? && Nested(inst) {
      NestedIff(env, inst);
    } else if !pseudo && inst.lhs.Result? && inst.rhs == Imm(0) && inst.carry == Imm(0) {
      ZeroAdded(env, inst);
    } else if !pseudo && inst.lhs.Imm? && inst.rhs.Imm? && inst.carry.Imm? {
      AllConstant(env, inst);
    }
  }

  lemma TurnedSame(env: nat -> nat, inst: Inst)
    requires inst.Add? && WellTyped(inst)
    ensures
      var turned := Add(inst.is32, inst.rhs, inst.lhs, inst.carry);
      WellTyped(turned) && Value(env, turned) == Value(env, inst)
  {
    hide Value, OperandValue, Wrap, Modulus;
    AddValue(env, inst);
    AddValue(env, Add(inst.is32, inst.rhs, inst.lhs, inst.carry));
  }

  lemma ZeroAdded(env: nat -> nat, inst: Inst)
    requires inst.Add? && WellTyped(inst) && inst.rhs == Imm(0) && inst.carry == Imm(0)
    ensures OperandValue(env, inst.lhs) == Value(env, inst)
  {
    WordBelow(env, inst.lhs, inst.is32);
    AddValue(env, inst);
    OneMore(OperandValue(env, inst.lhs), 0, inst.is32);
    hide Value;
  }

  lemma AllConstant(env: nat -> nat, inst: Inst)
    requires inst.Add? && inst.lhs.Imm? && inst.rhs.Imm? && inst.carry.Imm?
    ensures OperandValue(env, Constant(inst.is32, Wrap(false, inst.lhs.bits + inst.rhs.bits + inst.carry.bits)))
            == Value(env, inst)
  {
    AddValue(env, inst);
    hide Value;
    WrapTwice(inst.lhs.bits + inst.rhs.bits + inst.carry.bits, inst.is32);
  }

  /** In whatever surroundings: the value is kept if and only if the constants do not cancel out or the
      carry is the constant zero. */
  lemma FoldAddAlwaysIff(inst: Inst, pseudo: bool)
    requires inst.Add? && WellTyped(inst)
    ensures (forall env: nat -> nat :: OutcomeValue(env, FoldAdd(inst, pseudo)) == Value(env, inst))
            <==> !(Cancels(inst, pseudo) && inst.carry != Imm(0))
  {
    var ones: nat -> nat := _ => 1;
    FoldAddIff(ones, inst, pseudo);
    CarrySet(ones, inst);
    hide OutcomeValue, FoldAdd, Value, Cancels, WellTyped;
    if inst.carry == Imm(0) || !Cancels(inst, pseudo) {
      forall env: nat -> nat
        ensures OutcomeValue(env, FoldAdd(inst, pseudo)) == Value(env, inst)
      {
        FoldAddIff(env, inst, pseudo);
      }
    }
  }

  lemma CarrySet(env: nat -> nat, inst: Inst)
    requires inst.Add? && WellTyped(inst) && forall id :: env(id) == 1
    ensures OperandValue(env, inst.carry) == 1 <==> inst.carry != Imm(0)
  {
  }

  /** x + 0, plus 0 and a carry of one, folds to x. */
  lemma CarryExample(env: nat -> nat, inst: Inst)
    requires inst == Add(true, Result(Add(true, Result(Word(true, 0)), Imm(0), Imm(0))), Imm(0), Imm(1)) && env(0) == 7
    ensures WellTyped(inst) && Value(env, inst) == 8 && OutcomeValue(env, FoldAdd(inst, false)) == 7
  {
  }

  /** A result and two zeros, none of which can be combined with a constant added before. */
  predicate AddsNothing(inst: Inst)
    requires inst.Add?
  {
    && inst.carry == Imm(0)
    && ((inst.lhs.Result? && inst.rhs == Imm(0) && !Nested(inst))
        || (inst.lhs == Imm(0) && inst.rhs.Result? && !Nested(Add(inst.is32, inst.rhs, inst.lhs, inst.carry))))
  }

  /** Where no flags are taken, three constants become their sum; an addition goes away in no other
      case than these. */
  lemma FoldAddReplacedIff(inst: Inst, pseudo: bool)
    requires inst.Add?
    ensures
      var constant := inst.lhs.Imm? && inst.rhs.Imm? && inst.carry.Imm?;
      && (FoldAdd(inst, pseudo).Replaced? <==> !pseudo && (constant || Cancels(inst, pseudo) || AddsNothing(inst)))
      && (!pseudo && constant ==>
            FoldAdd(inst, pseudo) ==
            Replaced(Imm((inst.lhs.bits + inst.rhs.bits + inst.carry.bits) % Modulus(inst.is32))))
      && (!pseudo && AddsNothing(inst) ==>
            FoldAdd(inst, pseudo) == Replaced(if inst.lhs.Imm? then inst.rhs else inst.lhs))
  {
    if inst.lhs.Imm? && inst.rhs.Imm? && inst.carry.Imm? {
      WrapTwice(inst.lhs.bits + inst.rhs.bits + inst.carry.bits, inst.is32);
      hide Modulus;
    }
  }

  // ----- multiplication

  /** The operand is a product with a constant, in the same width. */
  predicate Product(operand: Operand, is32: bool) {
    operand.Result? && operand.inst.Mul? && operand.inst.is32 == is32 && operand.inst.rhs.Imm?
  }

  /** Constants are combined, or at least put on the right. */
  function Regrouped(inst: Inst): Inst
    requires inst.Mul?
  {
    if inst.lhs.Imm? && inst.rhs.Result? then
      if Product(inst.rhs, inst.is32) then
        Mul(inst.is32, inst.rhs.inst.lhs,
            Constant(inst.is32, Wrap(false, Times(inst.lhs.bits, inst.rhs.inst.rhs.bits))))
      else Mul(inst.is32, inst.rhs, inst.lhs)
    else if inst.lhs.Result? && inst.rhs.Imm? && Product(inst.lhs, inst.is32) then
      Mul(inst.is32, inst.lhs.inst.lhs, Constant(inst.is32, Wrap(false, Times(inst.rhs.bits, inst.lhs.inst.rhs.bits))))
    else inst
  }

  function FoldMultiply(inst: Inst): Outcome
    requires inst.Mul?
  {
    if inst.lhs.Imm? && inst.rhs.Imm? then
      Replaced(Constant(inst.is32, Wrap(false, Times(inst.lhs.bits, inst.rhs.bits))))
    else
      var r := Regrouped(inst);
      if r.rhs == Imm(0) then Replaced(Constant(inst.is32, 0))
      else if r.rhs == Imm(1) then Replaced(r.lhs)
      else Stays(r)
  }

  lemma TimesRemainder(a: nat, b: nat, is32: bool)
    ensures Wrap(is32, Times(Wrap(is32, a), b)) == Wrap(is32, Times(a, b))
  {
    var m := Modulus(is32);
    var q, r := a / m, a % m;
    var k, s := r * b / m, r * b % m;
    assert a * b == (q * m + r) * b == q * b * m + r * b;
    assert r * b == k * m + s;
    assert a * b == (q * b + k) * m + s;
    RemainderUnique(a * b, m, q * b + k, s);
  }

  lemma TimesTurned(a: nat, b: nat)
    ensures Times(a, b) == Times(b, a)
  {
  }

  /** A product with two constants, and with their product. */
  lemma TimesSteps(x: nat, a: nat, b: nat, is32: bool)
    ensures Wrap(is32, Times(Wrap(is32, Times(x, a)), b)) == Wrap(is32, Times(x, Wrap(is32, Wrap(false, Times(b, a)))))
  {
    hide Wrap, Modulus;
    TimesRemainder(Times(x, a), b, is32);
    WrapTwice(Times(b, a), is32);
    TimesTurned(x, Wrap(is32, Times(b, a)));
    TimesRemainder(Times(b, a), x, is32);
    assert Times(Times(x, a), b) == Times(Times(b, a), x) by { Associate(x, a, b); }
  }

  lemma ProductValue(env: nat -> nat, operand: Operand, is32: bool)
    requires Product(operand, is32) && IsWord(operand, is32)
    ensures
      var x, k := operand.inst.lhs, operand.inst.rhs.bits;
      IsWord(x, is32) && OperandValue(env, operand) == Wrap(is32, Times(OperandValue(env, x), k))
  {
    assert WellTyped(operand.inst);
    MulValue(env, is32, operand.inst.lhs, operand.inst.rhs);
    assert OperandValue(env, operand) == Value(env, operand.inst);
  }

  lemma MulValue(env: nat -> nat, is32: bool, lhs: Operand, rhs: Operand)
    ensures Value(env, Mul(is32, lhs, rhs)) == Wrap(is32, Times(OperandValue(env, lhs), OperandValue(env, rhs)))
  {
  }

  lemma MulTyped(is32: bool, lhs: Operand, rhs: Operand)
    ensures WellTyped(Mul(is32, lhs, rhs)) <==> IsWord(lhs, is32) && IsWord(rhs, is32)
  {
  }

  lemma RegroupedValue(env: nat -> nat, inst: Inst)
    requires inst.Mul? && WellTyped(inst)
    ensures Value(env, Regrouped(inst)) == Value(env, inst) && WellTyped(Regrouped(inst))
  {
    var r := Regrouped(inst);
    MulTyped(inst.is32, inst.lhs, inst.rhs);
    MulTyped(r.is32, r.lhs, r.rhs);
    MulValue(env, inst.is32, inst.lhs, inst.rhs);
    MulValue(env, r.is32, r.lhs, r.rhs);
    if inst.lhs.Imm? && Product(inst.rhs, inst.is32) {
      ProductValue(env, inst.rhs, inst.is32);
      hide Times, Value, WellTyped, Modulus, Wrap;
      TimesTurned(inst.lhs.bits, OperandValue(env, inst.rhs));
      TimesSteps(OperandValue(env, inst.rhs.inst.lhs), inst.rhs.inst.rhs.bits, inst.lhs.bits, inst.is32);
    } else if inst.rhs.Imm? && Product(inst.lhs, inst.is32) {
      ProductValue(env, inst.lhs, inst.is32);
      hide Times, Value, WellTyped, Modulus, Wrap;
      TimesSteps(OperandValue(env, inst.lhs.inst.lhs), inst.lhs.inst.rhs.bits, inst.rhs.bits, inst.is32);
    } else {
      hide Times, Value, WellTyped, Modulus, Wrap;
      TimesTurned(OperandValue(env, inst.lhs), OperandValue(env, inst.rhs));
    }
  }

  /** The multiplication keeps its value. */
  lemma FoldMultiplyKeeps(env: nat -> nat, inst: Inst)
    requires inst.Mul? && WellTyped(inst)
    ensures OutcomeValue(env, FoldMultiply(inst)) == Value(env, inst)
  {
    if inst.lhs.Imm? && inst.rhs.Imm? {
      MulValue(env, inst.is32, inst.lhs, inst.rhs);
      hide Times, Value, WellTyped, Modulus, Wrap;
      WrapTwice(Times(inst.lhs.bits, inst.rhs.bits), inst.is32);
    } else {
      var r := Regrouped(inst);
      RegroupedValue(env, inst);
      MulTyped(r.is32, r.lhs, r.rhs);
      MulValue(env, r.is32, r.lhs, r.rhs);
      WordBelow(env, r.lhs, r.is32);
      var x := OperandValue(env, r.lhs);
      assert Times(x, 0) == 0 && Times(x, 1) == x;
      OneMore(x, 0, r.is32);
      OneMore(0, 0, r.is32);
      assert r.is32 == inst.is32;
      hide Times, Regrouped, Value, WellTyped, Modulus, Wrap;
    }
  }

  /** The constant factor, together with the one of the product it multiplies. */
  function Factor(inst: Inst): Option<nat>
    requires inst.Mul?
  {
    var m := Modulus(inst.is32);
    if inst.lhs.Imm? == inst.rhs.Imm? then None
    else
      var (k, other) := if inst.lhs.Imm? then (inst.lhs.bits, inst.rhs) else (inst.rhs.bits, inst.lhs);
      Some(if Product(other, inst.is32) then Times(k, other.inst.rhs.bits) % m else k)
  }

  /** Two constants become their product; a multiplication stays, in all other cases, exactly when it
      has no constant factor or one beyond one. */
  lemma FoldMultiplyStaysIff(inst: Inst)
    requires inst.Mul?
    ensures
      var constant := inst.lhs.Imm? && inst.rhs.Imm?;
      && (constant ==>
            FoldMultiply(inst) == Replaced(Imm(Times(inst.lhs.bits, inst.rhs.bits) % Modulus(inst.is32))))
      && (FoldMultiply(inst).Stays? <==> !constant && (Factor(inst).None? || Factor(inst).value > 1))
      && (Factor(inst) == Some(0) ==> FoldMultiply(inst) == Replaced(Imm(0)))
  {
    var m := Modulus(inst.is32);
    hide Modulus, Times;
    if inst.lhs.Imm? && inst.rhs.Imm? {
      WrapTwice(Times(inst.lhs.bits, inst.rhs.bits), inst.is32);
    } else if inst.lhs.Imm? && Product(inst.rhs, inst.is32) {
      WrapTwice(Times(inst.lhs.bits, inst.rhs.inst.rhs.bits), inst.is32);
    } else if inst.rhs.Imm? && Product(inst.lhs, inst.is32) {
      WrapTwice(Times(inst.rhs.bits, inst.lhs.inst.rhs.bits), inst.is32);
    }
    OneMore(0, 0, inst.is32);
  }
}
