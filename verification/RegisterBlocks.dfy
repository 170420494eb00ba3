/** Blocks of the intermediate representation that access registers, their meaning, and the two
    changes that keep it: erasing a set that is overwritten unread, and taking a known value for a get. */
module RegisterBlocks {
  import opened Arithmetic

  // ----- blocks

  datatype Loc = Reg(number: nat) | Vec(number: nat) | StackPointer | Flags

  /** How a location is accessed. */
  datatype Kind = W | X | S | D | Q | SP | NZCV | NZCVRaw

  datatype Value = Imm(bits: nat) | Ref(index: nat)

  /** Instructions of a block. `flags` and `core` tell whether any other instruction reads or writes the
      status flags and the other registers, `level` how wide its result is; an erased instruction stays
      behind as Void. */
  datatype Inst =
    | Get(loc: Loc, kind: Kind)
    | Set(loc: Loc, kind: Kind, value: Value)
    | Identity(value: Value)
    | Void
    | Other(op: nat, args: seq<Value>, flags: bool, core: bool, level: nat)

  // ----- their meaning

  /** Widths in ascending order, each part of the next: status flags, which are the top four of 32 bits,
      then 32, 64 and 128 bits, then any. */
  function Cut(level: nat, x: nat): nat {
    if level == 0 then TopFour(x)
    else if level == 1 then x % TWO32
    else if level == 2 then x % TWO64
    else if level == 3 then x % TWO128
    else x
  }

  function Level(kind: Kind): nat {
    match kind
    case NZCV | NZCVRaw => 0
    case W | S => 1
    case X | D | SP => 2
    case Q => 3
  }

  /** Of a value, what an access of the kind stores or loads. */
  function Keep(kind: Kind, x: nat): nat {
    Cut(Level(kind), x)
  }

  function TopFour(x: nat): nat {
    x % TWO32 / 0x1000_0000 * 0x1000_0000
  }

  /** The values so far, the registers, and everything else. */
  datatype State = State(env: seq<nat>, regs: map<Loc, nat>, world: seq<nat>)

  /** What other instructions do: with operands, the registers they touch and the world, they give a
      value, new registers and a new world. */
  type Semantics = (nat, seq<nat>, map<Loc, nat>, seq<nat>) -> (nat, map<Loc, nat>, seq<nat>)

  function Lookup(regs: map<Loc, nat>, loc: Loc): nat {
    if loc in regs then regs[loc] else 0
  }

  function Eval(env: seq<nat>, v: Value): nat {
    match v
    case Imm(bits) => bits
    case Ref(index) => if index < |env| then env[index] else 0
  }

  predicate InGroup(loc: Loc, flags: bool, core: bool) {
    if loc == Flags then flags else core
  }

  function Inside(regs: map<Loc, nat>, flags: bool, core: bool): map<Loc, nat> {
    map loc | loc in regs && InGroup(loc, flags, core) :: regs[loc]
  }

  function Outside(regs: map<Loc, nat>, flags: bool, core: bool): map<Loc, nat> {
    map loc | loc in regs && !InGroup(loc, flags, core) :: regs[loc]
  }

  function EvalAll(env: seq<nat>, args: seq<Value>): seq<nat> {
    seq(|args|, i requires 0 <= i < |args| => Eval(env, args[i]))
  }

  function Step(sem: Semantics, inst: Inst, s: State): State {
    match inst
    case Get(loc, kind) => s.(env := s.env + [Keep(kind, Lookup(s.regs, loc))])
    case Set(loc, kind, value) =>
      s.(env := s.env + [0], regs := s.regs[loc := Keep(kind, Eval(s.env, value))])
    case Identity(value) => s.(env := s.env + [Eval(s.env, value)])
    case Void => s.(env := s.env + [0])
    case Other(op, args, flags, core, level) =>
      var (value, regs, world) := sem(op, EvalAll(s.env, args), Inside(s.regs, flags, core), s.world);
      State(s.env + [Cut(level, value)], Outside(s.regs, flags, core) + Inside(regs, flags, core), world)
  }

  function Run(sem: Semantics, block: seq<Inst>, s: State): State {
    if block == [] then s else Step(sem, block[|block| - 1], Run(sem, block[..|block| - 1], s))
  }

  function Start(regs: map<Loc, nat>, world: seq<nat>): State {
    State([], regs, world)
  }

  /** Operands are values of earlier instructions. */
  predicate Earlier(v: Value, i: nat) {
    v.Imm? || v.index < i
  }

  predicate OperandsEarlier(inst: Inst, i: nat) {
    match inst
    case Set(_, _, value) => Earlier(value, i)
    case Identity(value) => Earlier(value, i)
    case Other(_, args, _, _, _) => forall a :: a in args ==> Earlier(a, i)
    case _ => true
  }

  predicate Ordered(block: seq<Inst>) {
    forall i :: 0 <= i < |block| ==> OperandsEarlier(block[i], i)
  }

  predicate Touches(inst: Inst, loc: Loc) {
    match inst
    case Get(l, _) => l == loc
    case Set(l, _, _) => l == loc
    case Other(_, _, flags, core, _) => InGroup(loc, flags, core)
    case _ => false
  }

  // ----- runs

  lemma KeepTwice(kind: Kind, x: nat)
    ensures Keep(kind, Keep(kind, x)) == Keep(kind, x)
  {
    CutTwice(Level(kind), Level(kind), x);
  }

  /** Cut twice is cut to the narrower width. */
  lemma CutTwice(a: nat, b: nat, x: nat)
    ensures Cut(a, Cut(b, x)) == Cut(if a < b then a else b, x)
  {
    hide Cut, TopFour;
    if a >= 4 || b >= 4 {
      CutWide(a, Cut(b, x));
      CutWide(b, x);
    } else if b == 0 {
      CutFlags(a, x);
    } else if a == 0 {
      FlagsCut(b, x);
    } else {
      RemainderCut(a, b, x);
    }
  }

  lemma CutWide(a: nat, x: nat)
    ensures a >= 4 ==> Cut(a, x) == x
  {
  }

  lemma CutFlags(a: nat, x: nat)
    ensures Cut(a, Cut(0, x)) == Cut(0, x)
  {
    TopFourTwice(x);
    var y := TopFour(x);
    assert y < TWO32;
    hide TopFour;
    RemainderUnique(y, TWO32, 0, y);
    RemainderUnique(y, TWO64, 0, y);
    RemainderUnique(y, TWO128, 0, y);
  }

  lemma FlagsCut(b: nat, x: nat)
    requires b > 0
    ensures Cut(0, Cut(b, x)) == Cut(0, x)
  {
    NestedRemainder(x, TWO32, 1);
    NestedRemainder(x, TWO32, TWO32);
    NestedRemainder(x, TWO32, TWO32 * TWO64);
  }

  lemma RemainderCut(a: nat, b: nat, x: nat)
    requires 0 < a < 4 && 0 < b < 4
    ensures Cut(a, Cut(b, x)) == Cut(if a < b then a else b, x)
  {
    if a <= b {
      NestedRemainder(x, TWO32, 1);
      NestedRemainder(x, TWO32, TWO32);
      NestedRemainder(x, TWO32, TWO32 * TWO64);
      NestedRemainder(x, TWO64, 1);
      NestedRemainder(x, TWO64, TWO64);
      NestedRemainder(x, TWO128, 1);
    } else {
      var y := Cut(b, x);
      assert y < if b == 1 then TWO32 else TWO64;
      RemainderUnique(y, TWO64, 0, y);
      RemainderUnique(y, TWO128, 0, y);
    }
  }

  lemma NestedRemainder(x: nat, m: nat, k: nat)
    requires m > 0 && k > 0
    ensures m * k > 0 && x % (m * k) % m == x % m
  {
    var q, r := x / (m * k), x % (m * k);
    assert x == q * (m * k) + r == (q * k) * m + r;
    var p, s := r / m, r % m;
    assert r == p * m + s;
    RemainderUnique(x, m, q * k + p, s);
  }

  lemma TopFourTwice(x: nat)
    ensures TopFour(TopFour(x)) == TopFour(x)
  {
    var k := x % TWO32 / 0x1000_0000;
    assert 0 <= k < 16;
    assert k * 0x1000_0000 % TWO32 == k * 0x1000_0000;
  }

  lemma RunNext(sem: Semantics, block: seq<Inst>, i: nat, s: State)
    requires i < |block|
    ensures Run(sem, block[..i + 1], s) == Step(sem, block[i], Run(sem, block[..i], s))
  {
    assert block[..i + 1][..i] == block[..i];
  }

  lemma {:induction false} EnvGrows(sem: Semantics, block: seq<Inst>, i: nat, s: State)
    requires i <= |block|
    ensures |Run(sem, block, s).env| == |s.env| + |block|
    ensures Run(sem, block[..i], s).env <= Run(sem, block, s).env
    decreases |block|
  {
    assert block[..|block|] == block;
    if i < |block| {
      EnvGrows(sem, block[..|block| - 1], i, s);
      assert block[..|block| - 1][..i] == block[..i];
    } else if block != [] {
      EnvGrows(sem, block[..|block| - 1], i - 1, s);
    }
  }

  /** What instruction i gives, in the values of the whole run. */
  lemma EnvAt(sem: Semantics, block: seq<Inst>, i: nat, regs: map<Loc, nat>, world: seq<nat>)
    requires i < |block|
    ensures
      var all, at := Run(sem, block, Start(regs, world)).env, Run(sem, block[..i], Start(regs, world));
      |at.env| == i && |all| == |block| && at.env <= all && all[i] == Step(sem, block[i], at).env[i]
  {
    var s := Start(regs, world);
    EnvGrows(sem, block, i, s);
    EnvGrows(sem, block, i + 1, s);
    EnvGrows(sem, block[..i], 0, s);
    RunNext(sem, block, i, s);
  }

  lemma EvalStable(env: seq<nat>, more: seq<nat>, v: Value, i: nat)
    requires Earlier(v, i) && i <= |env| && env <= more
    ensures Eval(more, v) == Eval(env, v)
  {
  }

  lemma {:induction false} SuffixSame(sem: Semantics, a: seq<Inst>, b: seq<Inst>, i: nat, s: State)
    requires i <= |a| == |b| && a[i..] == b[i..] && Run(sem, a[..i], s) == Run(sem, b[..i], s)
    ensures Run(sem, a, s) == Run(sem, b, s)
    decreases |a| - i
  {
    if i == |a| {
      assert a[..i] == a && b[..i] == b;
    } else {
      assert a[i] == a[i..][0] && b[i] == b[i..][0];
      RunNext(sem, a, i, s);
      RunNext(sem, b, i, s);
      assert a[i + 1..] == a[i..][1..] && b[i + 1..] == b[i..][1..];
      SuffixSame(sem, a, b, i + 1, s);
    }
  }

  lemma StepLeaves(sem: Semantics, inst: Inst, s: State, loc: Loc)
    requires !Touches(inst, loc)
    ensures Lookup(Step(sem, inst, s).regs, loc) == Lookup(s.regs, loc)
  {
  }

  lemma StepExtends(sem: Semantics, inst: Inst, s: State)
    ensures s.env <= Step(sem, inst, s).env && |Step(sem, inst, s).env| == |s.env| + 1
  {
  }

  // ----- erasing a set

  /** Two states that differ in one location at most. */
  ghost predicate Apart(s: State, t: State, loc: Loc) {
    && s.env == t.env && s.world == t.world
    && forall l :: l != loc ==> (l in s.regs <==> l in t.regs) && (l in s.regs ==> s.regs[l] == t.regs[l])
  }

  lemma StepApart(sem: Semantics, inst: Inst, s: State, t: State, loc: Loc)
    requires Apart(s, t, loc) && !Touches(inst, loc)
    ensures Apart(Step(sem, inst, s), Step(sem, inst, t), loc)
  {
    if inst.Other? {
      assert Inside(s.regs, inst.flags, inst.core) == Inside(t.regs, inst.flags, inst.core);
    }
  }

  lemma StepJoins(sem: Semantics, inst: Inst, s: State, t: State, loc: Loc)
    requires Apart(s, t, loc) && inst.Set? && inst.loc == loc
    ensures Step(sem, inst, s) == Step(sem, inst, t)
  {
    var v := Keep(inst.kind, Eval(s.env, inst.value));
    assert s.regs[loc := v] == t.regs[loc := v];
  }

  lemma {:induction false} ErasedApart(sem: Semantics, block: seq<Inst>, j: nat, i: nat, loc: Loc, s: State)
    requires j < i <= |block| && block[j].Set? && block[j].loc == loc
    requires forall t :: j < t < i ==> !Touches(block[t], loc)
    ensures Apart(Run(sem, block[..i], s), Run(sem, block[j := Void][..i], s), loc)
    decreases i
  {
    var erased := block[j := Void];
    RunNext(sem, block, i - 1, s);
    RunNext(sem, erased, i - 1, s);
    if j == i - 1 {
      assert erased[..j] == block[..j];
    } else {
      ErasedApart(sem, block, j, i - 1, loc, s);
      StepApart(sem, block[i - 1], Run(sem, block[..i - 1], s), Run(sem, erased[..i - 1], s), loc);
    }
  }

  /** A set that is overwritten before anything reads it can go. */
  lemma EraseSame(sem: Semantics, block: seq<Inst>, j: nat, i: nat, loc: Loc, s: State)
    requires j < i < |block| && block[j].Set? && block[j].loc == loc && block[i].Set? && block[i].loc == loc
    requires forall t :: j < t < i ==> !Touches(block[t], loc)
    ensures Run(sem, block[j := Void], s) == Run(sem, block, s)
  {
    var erased := block[j := Void];
    ErasedApart(sem, block, j, i, loc, s);
    RunNext(sem, block, i, s);
    RunNext(sem, erased, i, s);
    StepJoins(sem, block[i], Run(sem, block[..i], s), Run(sem, erased[..i], s), loc);
    assert erased[i + 1..] == block[i + 1..];
    SuffixSame(sem, block, erased, i + 1, s);
  }

  /** A get that loads a known value can be that value. */
  lemma ForwardSame(sem: Semantics, block: seq<Inst>, i: nat, v: Value, s: State)
    requires i < |block| && block[i].Get?
    requires
      var at := Run(sem, block[..i], s);
      Keep(block[i].kind, Lookup(at.regs, block[i].loc)) == Eval(at.env, v)
    ensures Run(sem, block[i := Identity(v)], s) == Run(sem, block, s)
  {
    var other := block[i := Identity(v)];
    assert other[..i] == block[..i] && other[i + 1..] == block[i + 1..];
    RunNext(sem, block, i, s);
    RunNext(sem, other, i, s);
    SuffixSame(sem, block, other, i + 1, s);
  }
}
