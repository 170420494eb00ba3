/** The register-stack code generator of the calculator, against the stack machine. */
module CalculatorJit {
  import opened Calculator
  import opened Wrappers

  /** The 64-bit build keeps x in xmm7; the 32-bit build reads it from the caller's stack. */
  datatype Build = Bits32 | Bits64

  datatype Instr =
    | SaveX                               // movaps xmm7, xmm0
    | LoadConst(dst: nat, index: nat)     // movsd dst, [tbl + 8 * index]
    | LoadX(dst: nat)                     // movsd dst, xmm7 or [varTbl]
    | Arith(op: BinOp, dst: nat, src: nat)
    | FlipSign(dst: nat)                  // xorpd dst, [tbl + 8 * 32]

  const MAX_CONST_NUM := 32
  const REGISTERS := 16

  // ----- running the code

  function Exec<C, V>(m: Meaning<C, V>, build: Build, x: V, tbl: seq<C>, regs: seq<V>, i: Instr): (r: seq<V>)
    requires |regs| == REGISTERS
    ensures |r| == REGISTERS
  {
    match i
    case SaveX => regs[7 := regs[0]]
    case LoadConst(d, k) => if d < REGISTERS && k < |tbl| then regs[d := m.lit(tbl[k])] else regs
    case LoadX(d) => if d < REGISTERS then regs[d := if build == Bits64 then regs[7] else x] else regs
    case Arith(op, d, s) => if d < REGISTERS && s < REGISTERS then regs[d := m.bin(op, regs[d], regs[s])] else regs
    case FlipSign(d) => if d < REGISTERS then regs[d := m.neg(regs[d])] else regs
  }

  function ExecAll<C, V>(m: Meaning<C, V>, build: Build, x: V, tbl: seq<C>, regs: seq<V>, code: seq<Instr>): (r: seq<V>)
    requires |regs| == REGISTERS
    ensures |r| == REGISTERS
    decreases |code|
  {
    if code == [] then regs else ExecAll(m, build, x, tbl, Exec(m, build, x, tbl, regs, code[0]), code[1..])
  }

  // ----- what is emitted, for `depth` values alive and `pos` constants used

  function Emit<C>(depth: nat, pos: nat, c: Code<C>): Instr
    requires NextDepth(depth, c) >= 1
  {
    match c
    case Imm(_) => LoadConst(depth, pos)
    case VarX => LoadX(depth)
    case Neg => FlipSign(depth - 1)
    case Binary(op) => Arith(op, depth - 2, depth - 1)
  }

  function Consts<C>(code: seq<Code<C>>): seq<C>
    decreases |code|
  {
    if code == [] then [] else (if code[0].Imm? then [code[0].val] else []) + Consts(code[1..])
  }

  /** No instruction lacks an operand. */
  predicate WellFormed<C>(depth: nat, code: seq<Code<C>>)
    decreases |code|
  {
    code == [] || (NextDepth(depth, code[0]) >= 1 && WellFormed(NextDepth(depth, code[0]), code[1..]))
  }

  function NextPos<C>(pos: nat, c: Code<C>): nat {
    if c.Imm? then pos + 1 else pos
  }

  function Emitted<C>(depth: nat, pos: nat, code: seq<Code<C>>): seq<Instr>
    requires WellFormed(depth, code)
    decreases |code|
  {
    if code == [] then []
    else [Emit(depth, pos, code[0])] + Emitted(NextDepth(depth, code[0]), NextPos(pos, code[0]), code[1..])
  }

  /** Which pushes are let through: the guards compare with one register index only. */
  predicate Lets<C>(build: Build, depth: nat, pos: nat, c: Code<C>) {
    match c
    case Imm(_) => pos < MAX_CONST_NUM && depth != 8 && depth < REGISTERS
    case VarX => depth != (if build == Bits64 then 7 else 8) && depth < REGISTERS
    case _ => true
  }

  predicate Accepted<C>(build: Build, depth: nat, pos: nat, code: seq<Code<C>>)
    requires WellFormed(depth, code)
    decreases |code|
  {
    code == [] ||
    (Lets(build, depth, pos, code[0]) && Accepted(build, NextDepth(depth, code[0]), NextPos(pos, code[0]), code[1..]))
  }

  class Jit<C(0)> {
    const build: Build
    var code: seq<Instr>
    const constTbl: array<C>
    var constTblPos: nat
    var regIdx: int

    ghost predicate Valid()
      reads this, constTbl
    {
      constTbl.Length == MAX_CONST_NUM && constTblPos <= MAX_CONST_NUM && -1 <= regIdx
    }

    constructor (build: Build)
      ensures Valid() && fresh(constTbl) && this.build == build
      ensures code == (if build == Bits64 then [SaveX] else []) && constTblPos == 0 && regIdx == -1
    {
      this.build := build;
      code := if build == Bits64 then [SaveX] else [];
      constTbl := new C[MAX_CONST_NUM];
      constTblPos, regIdx := 0, -1;
    }

    /** What one generator call is to do. */
    twostate predicate Generated(c: Code<C>, ok: bool)
      reads this, constTbl
      requires old(Valid())
    {
      var depth := old(regIdx) + 1;
      && Valid() && NextDepth(depth, c) >= 1
      && ok == Lets(build, depth, old(constTblPos), c)
      && (ok ==>
            && code == old(code) + [Emit(depth, old(constTblPos), c)]
            && constTblPos == NextPos(old(constTblPos), c)
            && constTbl[..constTblPos] == old(constTbl[..constTblPos]) + Consts([c])
            && regIdx + 1 == NextDepth(depth, c))
    }

    method GenPush(n: C) returns (ok: bool)
      requires Valid()
      modifies this, constTbl
      ensures Generated(Imm(n), ok)
    {
      if constTblPos >= MAX_CONST_NUM {
        return false;
      }
      constTbl[constTblPos] := n;
      if regIdx == 7 {
        return false;
      }
      regIdx := regIdx + 1;
      if regIdx >= REGISTERS {
        return false;
      }
      code := code + [LoadConst(regIdx, constTblPos)];
      constTblPos := constTblPos + 1;
      return true;
    }

    method GenVarX() returns (ok: bool)
      requires Valid()
      modifies this
      ensures Generated(VarX, ok)
    {
      if regIdx == (if build == Bits64 then 6 else 7) {
        return false;
      }
      regIdx := regIdx + 1;
      if regIdx >= REGISTERS {
        return false;
      }
      code := code + [LoadX(regIdx)];
      return true;
    }

    method GenBinary(op: BinOp)
      requires Valid() && regIdx >= 1
      modifies this
      ensures Generated(Binary(op), true)
    {
      code := code + [Arith(op, regIdx - 1, regIdx)];
      regIdx := regIdx - 1;
    }

    method GenNeg()
      requires Valid() && regIdx >= 0
      modifies this
      ensures Generated(Neg, true)
    {
      code := code + [FlipSign(regIdx)];
    }

    /** The generator call that a parser action makes. */
    method Gen(c: Code<C>) returns (ok: bool)
      requires Valid() && NextDepth(regIdx + 1, c) >= 1
      modifies this, constTbl
      ensures Generated(c, ok)
    {
      ok := true;
      match c {
        case Imm(v) => ok := GenPush(v);
        case VarX => ok := GenVarX();
        case Binary(op) => GenBinary(op);
        case Neg => GenNeg();
      }
    }
  }

  function Prologue(build: Build): seq<Instr> {
    if build == Bits64 then [SaveX] else []
  }

  /** The generator driven by postfix code, as the parser's actions drive it. */
  method Generate<C(0)>(build: Build, code: seq<Code<C>>) returns (jit: Jit<C>, ok: bool)
    requires WellFormed(0, code)
    ensures fresh(jit) && fresh(jit.constTbl) && jit.Valid() && jit.build == build
    ensures ok <==> Accepted(build, 0, 0, code)
    ensures ok ==> jit.code == Prologue(build) + Emitted(0, 0, code)
    ensures ok ==> Consts(code) <= jit.constTbl[..]
  {
    jit := new Jit(build);
    assert Consts(code) == jit.constTbl[..0] + Consts(code[0..]);
    hide Emitted, Accepted, WellFormed;
    var i := 0;
    while i < |code|
      invariant 0 <= i <= |code| && jit.Valid() && jit.build == build && fresh(jit) && fresh(jit.constTbl)
      invariant WellFormed(jit.regIdx + 1, code[i..])
      invariant Accepted(build, 0, 0, code) == Accepted(build, jit.regIdx + 1, jit.constTblPos, code[i..])
      invariant Prologue(build) + Emitted(0, 0, code) == jit.code + Emitted(jit.regIdx + 1, jit.constTblPos, code[i..])
      invariant Consts(code) == jit.constTbl[..jit.constTblPos] + Consts(code[i..])
    {
      ghost var depth, pos, rest, emitted := jit.regIdx + 1, jit.constTblPos, code[i..], jit.code;
      ghost var used := jit.constTbl[..pos];
      assert rest[0] == code[i] && rest[1..] == code[i + 1..];
      OneGenerated(build, depth, pos, rest, emitted, used);
      ok := jit.Gen(code[i]);
      if !ok {
        return;
      }
      i := i + 1;
    }
    assert Emitted(jit.regIdx + 1, jit.constTblPos, code[i..]) == []
      && Accepted(build, jit.regIdx + 1, jit.constTblPos, code[i..]) by {
      NothingLeft(build, jit.regIdx + 1, jit.constTblPos, code[i..]);
    }
    ok := true;
  }

  lemma NothingLeft<C>(build: Build, depth: nat, pos: nat, rest: seq<Code<C>>)
    requires rest == []
    ensures WellFormed(depth, rest) && Emitted(depth, pos, rest) == [] && Accepted(build, depth, pos, rest)
  {
  }

  lemma Associate<T>(a: seq<T>, b: seq<T>, c: seq<T>)
    ensures a + (b + c) == a + b + c
  {
  }

  lemma OneGenerated<C>(build: Build, depth: nat, pos: nat, rest: seq<Code<C>>, emitted: seq<Instr>, used: seq<C>)
    requires rest != [] && WellFormed(depth, rest)
    ensures NextDepth(depth, rest[0]) >= 1 && WellFormed(NextDepth(depth, rest[0]), rest[1..])
    ensures Accepted(build, depth, pos, rest) ==
            (Lets(build, depth, pos, rest[0])
             && Accepted(build, NextDepth(depth, rest[0]), NextPos(pos, rest[0]), rest[1..]))
    ensures emitted + Emitted(depth, pos, rest)
            == emitted + [Emit(depth, pos, rest[0])]
               + Emitted(NextDepth(depth, rest[0]), NextPos(pos, rest[0]), rest[1..])
    ensures used + Consts(rest) == used + Consts([rest[0]]) + Consts(rest[1..])
  {
    var d, p := NextDepth(depth, rest[0]), NextPos(pos, rest[0]);
    Associate(emitted, [Emit(depth, pos, rest[0])], Emitted(d, p, rest[1..]));
    assert Consts([rest[0]]) == if rest[0].Imm? then [rest[0].val] else [];
    Associate(used, Consts([rest[0]]), Consts(rest[1..]));
  }

  // ----- agreement

  /** x is never read after a constant went to xmm7. */
  predicate Safe<C>(build: Build, depth: nat, intact: bool, code: seq<Code<C>>)
    requires WellFormed(depth, code)
    decreases |code|
  {
    code == [] ||
    ((code[0].VarX? && build == Bits64 ==> intact) &&
     Safe(build, NextDepth(depth, code[0]), intact && !(code[0].Imm? && depth == 7), code[1..]))
  }

  /** The registers hold the stack, and xmm7 holds x while it is intact. */
  ghost predicate Holds<V(!new)>(build: Build, x: V, intact: bool, st: seq<V>, regs: seq<V>) {
    && |regs| == REGISTERS && |st| <= REGISTERS && st == regs[..|st|]
    && (build == Bits64 && intact ==> regs[7] == x && |st| <= 7)
  }

  lemma StepAgrees<C, V(!new)>(m: Meaning<C, V>, build: Build, x: V, intact: bool, st: seq<V>,
                               regs: seq<V>, pos: nat, tbl: seq<C>, c: Code<C>)
    requires NextDepth(|st|, c) >= 1 && Lets(build, |st|, pos, c) && Holds(build, x, intact, st, regs)
    requires c.VarX? && build == Bits64 ==> intact
    requires c.Imm? ==> pos < |tbl| && tbl[pos] == c.val
    ensures
      var st' := StepStack(m, x, st, c);
      var regs' := Exec(m, build, x, tbl, regs, Emit(|st|, pos, c));
      && st'.Some? && |st'.value| == NextDepth(|st|, c)
      && Holds(build, x, intact && !(c.Imm? && |st| == 7), st'.value, regs')
  {
  }

  lemma {:induction false} CodeAgrees<C, V(!new)>(m: Meaning<C, V>, build: Build, x: V, intact: bool, st: seq<V>,
                                                  regs: seq<V>, pos: nat, tbl: seq<C>, code: seq<Code<C>>)
    requires WellFormed(|st|, code) && Accepted(build, |st|, pos, code) && Safe(build, |st|, intact, code)
    requires Holds(build, x, intact, st, regs)
    requires pos <= |tbl| && Consts(code) <= tbl[pos..]
    ensures
      var r := RunStack(m, x, st, code);
      var regs' := ExecAll(m, build, x, tbl, regs, Emitted(|st|, pos, code));
      && r.Some? && |r.value| <= REGISTERS && r.value == regs'[..|r.value|]
      && (build == Bits64 && intact && Deepest(|st|, code) <= 7 ==> regs'[7] == x)
    decreases |code|
  {
    if code != [] {
      var c := code[0];
      StepAgrees(m, build, x, intact, st, regs, pos, tbl, c);
      assert Consts(code[1..]) <= tbl[NextPos(pos, c)..];
      var st', regs' := StepStack(m, x, st, c).value, Exec(m, build, x, tbl, regs, Emit(|st|, pos, c));
      CodeAgrees(m, build, x, intact && !(c.Imm? && |st| == 7), st', regs', NextPos(pos, c), tbl, code[1..]);
    }
  }

  /** What the finished code leaves in xmm0, and what the stack machine returns for an expression. */
  function JitValue<C, V>(m: Meaning<C, V>, build: Build, x: V, regs: seq<V>, tbl: seq<C>, code: seq<Code<C>>): V
    requires WellFormed(0, code) && |regs| == REGISTERS
  {
    ExecAll(m, build, x, tbl, regs, Prologue(build) + Emitted(0, 0, code))[0]
  }

  function VmValue<C, V>(m: Meaning<C, V>, x: V, code: seq<Code<C>>): V
    requires WellFormed(0, code) && code != []
  {
    RunsToValue(m, x, [], code);
    var st := RunStack(m, x, [], code).value;
    st[|st| - 1]
  }

  /** Registers as the caller leaves them: the 64-bit convention passes x in xmm0. */
  predicate Entry<V(==)>(build: Build, x: V, regs: seq<V>) {
    |regs| == REGISTERS && (build == Bits64 ==> regs[0] == x)
  }

  lemma AfterPrologue<C, V>(m: Meaning<C, V>, build: Build, x: V, regs: seq<V>, tbl: seq<C>, code: seq<Code<C>>)
    requires WellFormed(0, code) && Entry(build, x, regs)
    ensures
      var regs' := if build == Bits64 then regs[7 := x] else regs;
      JitValue(m, build, x, regs, tbl, code) == ExecAll(m, build, x, tbl, regs', Emitted(0, 0, code))[0]
  {
    assert (Prologue(build) + Emitted(0, 0, code))[|Prologue(build)|..] == Emitted(0, 0, code);
  }

  /** Generated code that is safe computes what the stack machine computes, for any arithmetic. */
  lemma JitAgrees<C, V(!new)>(m: Meaning<C, V>, build: Build, x: V, regs: seq<V>, tbl: seq<C>, code: seq<Code<C>>)
    requires WellFormed(0, code) && FinalDepth(0, code) == 1 && Accepted(build, 0, 0, code) && Consts(code) <= tbl
    requires Safe(build, 0, true, code) && Entry(build, x, regs)
    ensures JitValue(m, build, x, regs, tbl, code) == VmValue(m, x, code)
  {
    var regs' := if build == Bits64 then regs[7 := x] else regs;
    assert tbl[0..] == tbl;
    CodeAgrees(m, build, x, true, [], regs', 0, tbl, code);
    RunsToValue(m, x, [], code);
    AfterPrologue(m, build, x, regs, tbl, code);
  }

  function FinalDepth<C>(depth: nat, code: seq<Code<C>>): nat
    requires WellFormed(depth, code)
    decreases |code|
  {
    if code == [] then depth else FinalDepth(NextDepth(depth, code[0]), code[1..])
  }

  lemma {:induction false} RunsToValue<C, V>(m: Meaning<C, V>, x: V, st: seq<V>, code: seq<Code<C>>)
    requires WellFormed(|st|, code)
    ensures
      var r := RunStack(m, x, st, code);
      r.Some? && |r.value| == FinalDepth(|st|, code) && (code != [] ==> r.value != [])
    decreases |code|
  {
    if code != [] {
      RunsToValue(m, x, StepStack(m, x, st, code[0]).value, code[1..]);
    }
  }

  // ----- disagreement

  /** Counts how often x enters a value. */
  function Counting<C>(): Meaning<C, int> {
    Meaning((c: C) => 0, (op: BinOp, a: int, b: int) => a + b, (a: int) => a)
  }

  /** Registers against the stack once xmm7 is lost: no slot counts more, slot k counts less. */
  ghost predicate Lost(st: seq<int>, regs: seq<int>, k: int) {
    && |regs| == REGISTERS && |st| <= REGISTERS
    && regs[7] == 0 && (forall i :: 7 <= i < |st| ==> regs[i] == 0)
    && (forall i :: 0 <= i < |st| ==> 0 <= regs[i] <= st[i])
    && (0 <= k ==> k < |st| && regs[k] < st[k])
  }

  lemma StepLost<C>(st: seq<int>, regs: seq<int>, k: int, pos: nat, tbl: seq<C>, c: Code<C>) returns (k': int)
    requires NextDepth(|st|, c) >= 1 && Lets(Bits64, |st|, pos, c) && Lost(st, regs, k)
    requires c.Imm? ==> pos < |tbl|
    ensures
      var st' := StepStack(Counting(), 1, st, c);
      var regs' := Exec(Counting(), Bits64, 1, tbl, regs, Emit(|st|, pos, c));
      && st'.Some? && |st'.value| == NextDepth(|st|, c)
      && Lost(st'.value, regs', k') && (0 <= k || c.VarX? ==> 0 <= k')
  {
    k' := if c.VarX? then |st| else if c.Binary? && k == |st| - 1 then k - 1 else k;
  }

  lemma {:induction false} CodeLost<C>(st: seq<int>, regs: seq<int>, k: int, pos: nat, tbl: seq<C>, code: seq<Code<C>>)
    requires WellFormed(|st|, code) && Accepted(Bits64, |st|, pos, code) && Lost(st, regs, k)
    requires 0 <= k || !Safe(Bits64, |st|, false, code)
    requires pos <= |tbl| && Consts(code) <= tbl[pos..]
    ensures
      var r := RunStack(Counting(), 1, st, code);
      var regs' := ExecAll(Counting(), Bits64, 1, tbl, regs, Emitted(|st|, pos, code));
      r.Some? && exists k' :: 0 <= k' < |r.value| <= REGISTERS && regs'[k'] < r.value[k']
    decreases |code|
  {
    if code != [] {
      var c := code[0];
      var k' := StepLost(st, regs, k, pos, tbl, c);
      assert Consts(code[1..]) <= tbl[NextPos(pos, c)..];
      var st', regs' := StepStack(Counting(), 1, st, c).value,
          Exec(Counting(), Bits64, 1, tbl, regs, Emit(|st|, pos, c));
      CodeLost(st', regs', k', NextPos(pos, c), tbl, code[1..]);
    }
  }

  predicate Counts(st: seq<int>) {
    forall i :: 0 <= i < |st| ==> st[i] >= 0
  }

  lemma StepClobbers<C>(st: seq<int>, regs: seq<int>, pos: nat, tbl: seq<C>, c: Code<C>)
    requires NextDepth(|st|, c) >= 1 && Lets(Bits64, |st|, pos, c) && Holds(Bits64, 1, true, st, regs) && Counts(st)
    requires c.Imm? ==> pos < |tbl| && tbl[pos] == c.val
    ensures
      var st' := StepStack(Counting(), 1, st, c);
      var regs' := Exec(Counting(), Bits64, 1, tbl, regs, Emit(|st|, pos, c));
      && st'.Some? && |st'.value| == NextDepth(|st|, c)
      && (if c.Imm? && |st| == 7 then Lost(st'.value, regs', -1)
          else Holds(Bits64, 1, true, st'.value, regs') && Counts(st'.value))
  {
    StepAgrees(Counting(), Bits64, 1, true, st, regs, pos, tbl, c);
  }

  /** The same from a state in which xmm7 still holds x. */
  lemma {:induction false} CodeClobbers<C>(st: seq<int>, regs: seq<int>, pos: nat, tbl: seq<C>, code: seq<Code<C>>)
    requires WellFormed(|st|, code) && Accepted(Bits64, |st|, pos, code) && !Safe(Bits64, |st|, true, code)
    requires |regs| == REGISTERS && Holds(Bits64, 1, true, st, regs) && Counts(st)
    requires pos <= |tbl| && Consts(code) <= tbl[pos..]
    ensures
      var r := RunStack(Counting(), 1, st, code);
      var regs' := ExecAll(Counting(), Bits64, 1, tbl, regs, Emitted(|st|, pos, code));
      r.Some? && exists k' :: 0 <= k' < |r.value| <= REGISTERS && regs'[k'] < r.value[k']
    decreases |code|
  {
    hide Holds, Counts, Lost, StepStack, Exec, Lets, Counting;
    var c := code[0];
    StepClobbers(st, regs, pos, tbl, c);
    assert Consts(code[1..]) <= tbl[NextPos(pos, c)..];
    var st', regs' := StepStack(Counting(), 1, st, c).value, Exec(Counting(), Bits64, 1, tbl, regs, Emit(|st|, pos, c));
    if c.Imm? && |st| == 7 {
      CodeLost(st', regs', -1, NextPos(pos, c), tbl, code[1..]);
    } else {
      CodeClobbers(st', regs', NextPos(pos, c), tbl, code[1..]);
    }
  }

  /** When x is read after xmm7 was overwritten, some arithmetic tells the two evaluators apart. */
  lemma JitDisagrees<C>(regs: seq<int>, tbl: seq<C>, code: seq<Code<C>>)
    requires WellFormed(0, code) && FinalDepth(0, code) == 1 && Accepted(Bits64, 0, 0, code) && Consts(code) <= tbl
    requires !Safe(Bits64, 0, true, code) && Entry(Bits64, 1, regs)
    ensures JitValue(Counting(), Bits64, 1, regs, tbl, code) < VmValue(Counting(), 1, code)
  {
    assert tbl[0..] == tbl;
    CodeClobbers([], regs[7 := 1], 0, tbl, code);
    RunsToValue(Counting(), 1, [], code);
    AfterPrologue(Counting(), Bits64, 1, regs, tbl, code);
  }

  /** Eight nested constants, two sums, then x. */
  const CLOBBERING: seq<Code<int>> :=
    seq(8, i => Imm(i)) + [Binary(Add), Binary(Add), VarX] + seq(6, i => Binary(Add))

  lemma ClobberingCode()
    ensures WellFormed(0, CLOBBERING) && FinalDepth(0, CLOBBERING) == 1
    ensures Accepted(Bits64, 0, 0, CLOBBERING) && !Safe(Bits64, 0, true, CLOBBERING)
  {
    var code := CLOBBERING;
    var k := 17;
    while k > 0
      invariant 0 <= k <= 17
      invariant var d, p := DepthAt(k), if k < 8 then k else 8;
                && WellFormed(d, code[k..]) && FinalDepth(d, code[k..]) == 1 && Accepted(Bits64, d, p, code[k..])
                && (k <= 10 ==> !Safe(Bits64, d, k < 8, code[k..]))
    {
      k := k - 1;
      assert code[k..][0] == code[k] && code[k..][1..] == code[k + 1..];
      assert code[k] == if k < 8 then Imm(k) else if k == 10 then VarX else Binary(Add);
      assert NextDepth(DepthAt(k), code[k]) == DepthAt(k + 1);
    }
    assert code[0..] == code;
  }

  /** Such code exists: the generator accepts it, and it does not compute what the stack machine does. */
  lemma ClobberExample(regs: seq<int>)
    requires Entry(Bits64, 1, regs)
    ensures WellFormed(0, CLOBBERING) && CLOBBERING != [] && Accepted(Bits64, 0, 0, CLOBBERING)
    ensures JitValue(Counting(), Bits64, 1, regs, Consts(CLOBBERING), CLOBBERING) != VmValue(Counting(), 1, CLOBBERING)
  {
    ClobberingCode();
    hide WellFormed, FinalDepth, Accepted, Safe, Consts, JitValue, VmValue;
    JitDisagrees(regs, Consts(CLOBBERING), CLOBBERING);
  }

  function DepthAt(k: nat): nat
    requires k <= 17
  {
    if k <= 8 then k else if k <= 10 then 16 - k else 18 - k
  }

  /** The 64-bit code agrees with the stack machine in every arithmetic and on every x exactly when
      no x is read after a constant went to xmm7. */
  lemma JitAgreesIff<C>(tbl: seq<C>, code: seq<Code<C>>)
    requires WellFormed(0, code) && FinalDepth(0, code) == 1 && Accepted(Bits64, 0, 0, code) && Consts(code) <= tbl
    ensures Safe(Bits64, 0, true, code) <==>
            forall m: Meaning<C, int>, x, regs | Entry(Bits64, x, regs) ::
              JitValue(m, Bits64, x, regs, tbl, code) == VmValue(m, x, code)
  {
    if Safe(Bits64, 0, true, code) {
      forall m: Meaning<C, int>, x, regs | Entry(Bits64, x, regs)
        ensures JitValue(m, Bits64, x, regs, tbl, code) == VmValue(m, x, code)
      {
        JitAgrees(m, Bits64, x, regs, tbl, code);
      }
    } else {
      var regs := seq(REGISTERS, i => 1);
      assert Entry(Bits64, 1, regs);
      JitDisagrees(regs, tbl, code);
    }
  }

  // ----- whole expressions

  function Max(a: nat, b: nat): nat {
    if a > b then a else b
  }

  /** Values alive at once while an expression is computed. */
  function Need<C>(e: Expr<C>): (n: nat)
    ensures n >= 1
  {
    match e
    case Const(_) => 1
    case X => 1
    case Minus(a) => Need(a)
    case Op(_, a, b) => Max(Need(a), 1 + Need(b))
  }

  lemma OneCode<C>(depth: nat, c: Code<C>, rest: seq<Code<C>>)
    requires NextDepth(depth, c) >= 1
    ensures WellFormed(depth, [c] + rest) == WellFormed(NextDepth(depth, c), rest)
    ensures WellFormed(depth, [c] + rest) ==> FinalDepth(depth, [c] + rest) == FinalDepth(NextDepth(depth, c), rest)
    ensures Deepest(depth, [c] + rest) == Max(depth, Deepest(NextDepth(depth, c), rest))
  {
    assert ([c] + rest)[1..] == rest;
  }

  lemma {:induction false} PostfixShape<C>(depth: nat, e: Expr<C>, rest: seq<Code<C>>)
    requires WellFormed(depth + 1, rest)
    ensures WellFormed(depth, Postfix(e) + rest) && FinalDepth(depth, Postfix(e) + rest) == FinalDepth(depth + 1, rest)
    ensures Deepest(depth, Postfix(e) + rest) == Max(depth + Need(e), Deepest(depth + 1, rest))
    decreases e
  {
    hide WellFormed, FinalDepth, Deepest;
    match e
    case Const(c) => OneCode(depth, Imm(c), rest);
    case X => OneCode(depth, VarX, rest);
    case Minus(a) =>
      OneCode(depth + 1, Neg, rest);
      PostfixShape(depth, a, [Neg] + rest);
      assert Postfix(e) + rest == Postfix(a) + ([Neg] + rest);
    case Op(op, a, b) =>
      var tail := [Binary(op)] + rest;
      OneCode(depth + 2, Binary(op), rest);
      PostfixShape(depth + 1, b, tail);
      PostfixShape(depth, a, Postfix(b) + tail);
      assert Postfix(e) + rest == Postfix(a) + (Postfix(b) + tail);
  }

  /** Seven values and the table's size are enough, and then x is never lost. */
  lemma {:induction false} ShallowAccepted<C>(build: Build, depth: nat, pos: nat, code: seq<Code<C>>)
    requires WellFormed(depth, code) && Deepest(depth, code) <= 7 && pos + |Consts(code)| <= MAX_CONST_NUM
    ensures Accepted(build, depth, pos, code) && Safe(build, depth, true, code)
    decreases |code|
  {
    if code != [] {
      ShallowAccepted(build, NextDepth(depth, code[0]), NextPos(pos, code[0]), code[1..]);
    }
  }

  /** Every expression of at most seven live values and 32 constants is compiled, and both
      evaluators return its value. */
  lemma ExpressionCompiled<C, V(!new)>(m: Meaning<C, V>, build: Build, x: V, regs: seq<V>, tbl: seq<C>, e: Expr<C>)
    requires Need(e) <= 7 && |Consts(Postfix(e))| <= MAX_CONST_NUM
    requires Entry(build, x, regs) && Consts(Postfix(e)) <= tbl
    ensures WellFormed(0, Postfix(e)) && Postfix(e) != [] && Accepted(build, 0, 0, Postfix(e))
    ensures JitValue(m, build, x, regs, tbl, Postfix(e)) == VmValue(m, x, Postfix(e)) == Eval(m, x, e)
  {
    var code := Postfix(e);
    assert code + [] == code;
    PostfixShape(0, e, []);
    ShallowAccepted(build, 0, 0, code);
    JitAgrees(m, build, x, regs, tbl, code);
    PostfixEvaluates(m, x, [], e, []);
  }
}
