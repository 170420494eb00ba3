/** Which blocks the elimination of register accesses keeps in every run: a condition on the widths of
    the values in the block alone. */
module ForwardedWidths {
  import opened Arithmetic
  import opened Wrappers
  import opened RegisterBlocks
  import opened GetSetElimination

  // ----- the widths of values

  /** A value is a constant, or anything of a width. */
  datatype Shape = Constant(bits: nat) | Anything(level: nat)

  /** What an access of a width makes of it. */
  function Narrow(level: nat, shape: Shape): Shape {
    match shape
    case Constant(bits) => Constant(Cut(level, bits))
    case Anything(l) => Anything(if l < level then l else level)
  }

  /** The result of instruction i; a register holds anything at first, and after an instruction that
      may write it. */
  function ResultShape(block: seq<Inst>, i: nat): Shape
    requires i < |block|
    decreases i, 1
  {
    match block[i]
    case Get(loc, kind) => Narrow(Level(kind), ContentShape(block, i, loc))
    case Set(_, _, _) => Constant(0)
    case Identity(value) => OperandShape(block, i, value)
    case Void => Constant(0)
    case Other(_, _, _, _, level) => Anything(level)
  }

  /** What a location holds before instruction i. */
  function ContentShape(block: seq<Inst>, i: nat, loc: Loc): Shape
    requires i <= |block|
    decreases i, 0
  {
    if i == 0 then Anything(4)
    else if !Touches(block[i - 1], loc) then ContentShape(block, i - 1, loc)
    else match block[i - 1]
      case Set(_, kind, value) => Narrow(Level(kind), OperandShape(block, i - 1, value))
      case Get(_, _) => ContentShape(block, i - 1, loc)
      case _ => Anything(4)
  }

  /** An operand of instruction i. */
  function OperandShape(block: seq<Inst>, i: nat, v: Value): Shape
    requires i <= |block|
    decreases i, 0
  {
    match v
    case Imm(bits) => Constant(bits)
    case Ref(index) => if index < i then ResultShape(block, index) else Constant(0)
  }

  /** An access of the width takes in the value whole. */
  predicate Whole(level: nat, shape: Shape) {
    match shape
    case Constant(bits) => Cut(level, bits) == bits
    case Anything(l) => l <= level
  }

  /** More ones than any access keeps. */
  const ONES: nat := 2 * TWO128 - 1

  // ----- runs

  /** A value of the shape; in an exact run, the one with all its bits set. */
  predicate Has(shape: Shape, x: nat, exact: bool) {
    match shape
    case Constant(bits) => x == bits
    case Anything(level) => if exact then x == Cut(level, ONES) else Cut(level, x) == x
  }

  lemma NarrowHas(level: nat, shape: Shape, x: nat, exact: bool)
    requires Has(shape, x, exact)
    ensures Has(Narrow(level, shape), Cut(level, x), exact)
  {
    if shape.Anything? {
      CutTwice(level, shape.level, if exact then ONES else x);
      CutTwice(if shape.level < level then shape.level else level, level, x);
      CutTwice(level, shape.level, x);
    }
    hide Cut;
  }

  lemma AnythingHas(x: nat, exact: bool)
    requires exact ==> x == ONES
    ensures Has(Anything(4), x, exact)
  {
  }

  function Locations(block: seq<Inst>): set<Loc> {
    set i | 0 <= i < |block| && block[i].Get? :: block[i].loc
  }

  /** The run in which everything unknown has all its bits set. */
  ghost predicate AllOnes(sem: Semantics, regs: map<Loc, nat>, block: seq<Inst>) {
    && (forall loc :: loc in Locations(block) ==> loc in regs && regs[loc] == ONES)
    && forall op, args, seen, world :: sem(op, args, seen, world) == (ONES, regs, world)
  }

  lemma {:induction false} ResultHas(sem: Semantics, block: seq<Inst>, i: nat, regs: map<Loc, nat>, world: seq<nat>,
                                     exact: bool)
    requires i < |block| && Ordered(block) && (exact ==> AllOnes(sem, regs, block))
    ensures |Run(sem, block, Start(regs, world)).env| == |block|
    ensures Has(ResultShape(block, i), Run(sem, block, Start(regs, world)).env[i], exact)
    decreases i, 1
  {
    EnvAt(sem, block, i, regs, world);
    assert OperandsEarlier(block[i], i);
    hide Run, Has, Narrow;
    var s := Run(sem, block[..i], Start(regs, world));
    match block[i] {
      case Get(loc, kind) =>
        ContentHas(sem, block, i, loc, regs, world, exact);
        NarrowHas(Level(kind), ContentShape(block, i, loc), Lookup(s.regs, loc), exact);
      case Identity(value) =>
        OperandHas(sem, block, i, value, regs, world, exact);
      case Other(op, args, flags, core, level) =>
        OtherHas(sem, block[i], s, regs, block, exact);
      case _ =>
        ZeroHas(exact);
    }
  }

  lemma ZeroHas(exact: bool)
    ensures Has(Constant(0), 0, exact)
  {
  }

  lemma OtherHas(sem: Semantics, inst: Inst, s: State, regs: map<Loc, nat>, block: seq<Inst>, exact: bool)
    requires inst.Other? && (exact ==> AllOnes(sem, regs, block))
    ensures Has(Anything(inst.level), Step(sem, inst, s).env[|s.env|], exact)
    ensures exact ==> forall loc :: loc in Locations(block) && Touches(inst, loc) ==>
                        Lookup(Step(sem, inst, s).regs, loc) == ONES
  {
    var (value, r, w) := sem(inst.op, EvalAll(s.env, inst.args), Inside(s.regs, inst.flags, inst.core), s.world);
    CutTwice(inst.level, inst.level, value);
    hide Cut;
  }

  lemma {:induction false} ContentHas(sem: Semantics, block: seq<Inst>, i: nat, loc: Loc, regs: map<Loc, nat>,
                                      world: seq<nat>, exact: bool)
    requires i <= |block| && Ordered(block) && (exact ==> AllOnes(sem, regs, block) && loc in Locations(block))
    ensures Has(ContentShape(block, i, loc), Lookup(Run(sem, block[..i], Start(regs, world)).regs, loc), exact)
    decreases i, 0
  {
    var start := Start(regs, world);
    if i == 0 {
      assert Run(sem, block[..0], start) == start;
      AnythingHas(Lookup(regs, loc), exact);
    } else {
      var s, inst := Run(sem, block[..i - 1], start), block[i - 1];
      RunNext(sem, block, i - 1, start);
      assert OperandsEarlier(inst, i - 1);
      hide Run, Has, Narrow, AllOnes;
      if !Touches(inst, loc) {
        ContentHas(sem, block, i - 1, loc, regs, world, exact);
        StepLeaves(sem, inst, s, loc);
      } else if inst.Set? {
        OperandHas(sem, block, i - 1, inst.value, regs, world, exact);
        NarrowHas(Level(inst.kind), OperandShape(block, i - 1, inst.value), Eval(s.env, inst.value), exact);
      } else if inst.Get? {
        ContentHas(sem, block, i - 1, loc, regs, world, exact);
      } else {
        OtherHas(sem, inst, s, regs, block, exact);
        AnythingHas(Lookup(Step(sem, inst, s).regs, loc), exact);
      }
    }
  }

  lemma {:induction false} OperandHas(sem: Semantics, block: seq<Inst>, i: nat, v: Value, regs: map<Loc, nat>,
                                      world: seq<nat>, exact: bool)
    requires i <= |block| && Ordered(block) && Earlier(v, i) && (exact ==> AllOnes(sem, regs, block))
    ensures Has(OperandShape(block, i, v), Eval(Run(sem, block[..i], Start(regs, world)).env, v), exact)
    decreases i, 0
  {
    if v.Ref? {
      ResultHas(sem, block, v.index, regs, world, exact);
      EnvGrows(sem, block, i, Start(regs, world));
      EnvGrows(sem, block[..i], 0, Start(regs, world));
    }
  }

  // ----- what is kept in every run

  /** A get that becomes the operand of a set. */
  predicate TakesOperand(block: seq<Inst>, i: nat)
    requires i < |block|
  {
    && block[i].Get? && Forwarded(Track(block, i, block[i].loc), block[i].kind)
    && Track(block, i, block[i].loc).lastSet.Some?
  }

  /** Such a get takes in the operand whole. */
  predicate Static(block: seq<Inst>, i: nat)
    requires i < |block|
  {
    TakesOperand(block, i) ==>
      Whole(Level(block[i].kind), OperandShape(block, i, Track(block, i, block[i].loc).known.value.0))
  }

  ghost predicate Kept(sem: Semantics, block: seq<Inst>, regs: map<Loc, nat>, world: seq<nat>) {
    Run(sem, Eliminated(block, |block|), Start(regs, world)) == Run(sem, block, Start(regs, world))
  }

  lemma OnesApart(a: nat, b: nat)
    requires a < 4 && a < b
    ensures Cut(a, ONES) < Cut(b, ONES)
  {
  }

  /** Whole shapes are those whose every value, or whose value of all ones, is taken in whole. */
  lemma WholeTakesIn(level: nat, shape: Shape, x: nat, exact: bool)
    requires level < 4 && Has(shape, x, exact)
    ensures Whole(level, shape) ==> Cut(level, x) == x
    ensures exact && Cut(level, x) == x ==> Whole(level, shape)
  {
    if shape.Anything? {
      CutTwice(level, shape.level, if exact then ONES else x);
      if level < shape.level {
        OnesApart(level, shape.level);
      }
    }
    hide Cut;
  }

  lemma StaticFaithful(sem: Semantics, block: seq<Inst>, i: nat, regs: map<Loc, nat>, world: seq<nat>, exact: bool)
    requires i < |block| && Ordered(block) && (exact ==> AllOnes(sem, regs, block))
    ensures Static(block, i) ==> Faithful(block, i, Run(sem, block, Start(regs, world)).env)
    ensures exact && Faithful(block, i, Run(sem, block, Start(regs, world)).env) ==> Static(block, i)
  {
    if block[i].Get? && Forwarded(Track(block, i, block[i].loc), block[i].kind) {
      var v, s := Track(block, i, block[i].loc).known.value.0, Run(sem, block[..i], Start(regs, world));
      StaysOrdered(block, i);
      TrackIsSummary(block, i, block[i].loc);
      KnownEarlier(Eliminated(block, i), i, block[i].loc);
      OperandHas(sem, block, i, v, regs, world, exact);
      EnvAt(sem, block, i, regs, world);
      EvalStable(s.env, Run(sem, block, Start(regs, world)).env, v, i);
      WholeTakesIn(Level(block[i].kind), OperandShape(block, i, v), Eval(s.env, v), exact);
      hide Run, Track, OperandShape, Whole, Cut, Has;
    }
  }

  /** A block is kept whatever the other instructions do and the registers hold if and only if each get
      that becomes the operand of a set takes it in whole, by the widths of the values in the block. */
  lemma KeptIff(block: seq<Inst>)
    requires Ordered(block)
    ensures (forall sem, regs, world :: Kept(sem, block, regs, world))
            <==> forall i :: 0 <= i < |block| ==> Static(block, i)
  {
    if forall i :: 0 <= i < |block| ==> Static(block, i) {
      forall sem, regs, world
        ensures Kept(sem, block, regs, world)
      {
        forall i | 0 <= i < |block|
          ensures Faithful(block, i, Run(sem, block, Start(regs, world)).env)
        {
          StaticFaithful(sem, block, i, regs, world, false);
        }
        PreservesIff(sem, block, regs, world);
      }
    }
    if forall sem, regs, world :: Kept(sem, block, regs, world) {
      var regs := map loc | loc in Locations(block) :: ONES;
      var sem: Semantics := (op, args, seen, w) => (ONES, regs, w);
      assert Kept(sem, block, regs, []);
      PreservesIff(sem, block, regs, []);
      forall i | 0 <= i < |block|
        ensures Static(block, i)
      {
        StaticFaithful(sem, block, i, regs, [], true);
      }
    }
  }

  // ----- typed blocks

  /** The type of the operand of a set, and of the result of a get: scalars are 128-bit values, raw flags
      32-bit ones. */
  function TypeLevel(kind: Kind): nat {
    match kind
    case NZCV => 0
    case W | NZCVRaw => 1
    case X | SP => 2
    case S | D | Q => 3
  }

  /** An operand of instruction i is of the type; sets give no value. */
  predicate OfType(block: seq<Inst>, i: nat, v: Value, level: nat)
    requires i <= |block|
    decreases i
  {
    match v
    case Imm(bits) => Cut(level, bits) == bits
    case Ref(j) =>
      j < i && match block[j]
               case Get(_, kind) => TypeLevel(kind) == level
               case Identity(value) => OfType(block, j, value, level)
               case Other(_, _, _, _, l) => l == level
               case _ => false
  }

  /** What is checked of a block before it is compiled, for the operands of sets. */
  predicate SetsTyped(block: seq<Inst>) {
    forall i :: 0 <= i < |block| && block[i].Set? ==> OfType(block, i, block[i].value, TypeLevel(block[i].kind))
  }

  lemma {:induction false} TypedWhole(block: seq<Inst>, i: nat, v: Value, level: nat)
    requires i <= |block| && OfType(block, i, v, level)
    ensures Whole(level, OperandShape(block, i, v))
    decreases i
  {
    if v.Ref? {
      match block[v.index] {
        case Identity(value) => TypedWhole(block, v.index, value, level);
        case Get(loc, kind) => NarrowWhole(Level(kind), level, ContentShape(block, v.index, loc));
        case _ =>
      }
    }
  }

  lemma NarrowWhole(level: nat, wider: nat, shape: Shape)
    requires level <= wider
    ensures Whole(wider, Narrow(level, shape))
  {
    if shape.Constant? {
      CutTwice(wider, level, shape.bits);
    }
    hide Cut;
  }

  /** The operand known is that of the last set. */
  lemma {:induction false} KnownOperand(block: seq<Inst>, i: nat, loc: Loc)
    requires i <= |block| && Track(block, i, loc).lastSet.Some?
    ensures
      var info := Track(block, i, loc);
      var j := info.lastSet.value;
      j < i && block[j].Set? && info.known == Some((block[j].value, block[j].kind))
  {
    if !Touches(block[i - 1], loc) || block[i - 1].Get? {
      KnownOperand(block, i - 1, loc);
    }
  }

  lemma OperandLater(block: seq<Inst>, j: nat, i: nat, v: Value)
    requires j <= i <= |block| && Earlier(v, j)
    ensures OperandShape(block, i, v) == OperandShape(block, j, v)
  {
  }

  /** In a typed block only scalars and raw flags can go wrong: a block without gets of them after a set
      is kept in every run. */
  lemma WholeKinds(block: seq<Inst>)
    requires Ordered(block) && SetsTyped(block)
    requires forall i :: 0 <= i < |block| && TakesOperand(block, i) ==> block[i].kind !in {S, D, NZCVRaw}
    ensures forall sem, regs, world :: Kept(sem, block, regs, world)
  {
    forall i | 0 <= i < |block|
      ensures Static(block, i)
    {
      if TakesOperand(block, i) {
        KnownOperand(block, i, block[i].loc);
        var j := Track(block, i, block[i].loc).lastSet.value;
        assert OperandsEarlier(block[j], j);
        TypedWhole(block, j, block[j].value, TypeLevel(block[j].kind));
        OperandLater(block, j, i, block[j].value);
      }
    }
    KeptIff(block);
  }
}
