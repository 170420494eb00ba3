/** The two evaluators of the tiny calculator: the stack machine and the register-stack code
    generator. Values and arithmetic are parameters, so nothing here depends on rounding. */
module Calculator {
  import opened Wrappers

  datatype BinOp = Add | Sub | Mul | Div

  datatype Code<C> = Binary(op: BinOp) | Neg | Imm(val: C) | VarX

  /** What a constant and an operator mean. */
  datatype Meaning<!C, !V> = Meaning(lit: C -> V, bin: (BinOp, V, V) -> V, neg: V -> V)

  // ----- expressions and their postfix form

  datatype Expr<C> = Const(c: C) | X | Op(op: BinOp, left: Expr<C>, right: Expr<C>) | Minus(arg: Expr<C>)

  function Eval<C, V>(m: Meaning<C, V>, x: V, e: Expr<C>): V {
    match e
    case Const(c) => m.lit(c)
    case X => x
    case Op(op, a, b) => m.bin(op, Eval(m, x, a), Eval(m, x, b))
    case Minus(a) => m.neg(Eval(m, x, a))
  }

  function Postfix<C>(e: Expr<C>): seq<Code<C>> {
    match e
    case Const(c) => [Imm(c)]
    case X => [VarX]
    case Op(op, a, b) => Postfix(a) + (Postfix(b) + [Binary(op)])
    case Minus(a) => Postfix(a) + [Neg]
  }

  // ----- the stack machine

  function StepStack<C, V>(m: Meaning<C, V>, x: V, st: seq<V>, c: Code<C>): Option<seq<V>> {
    var n := |st|;
    match c
    case VarX => Some(st + [x])
    case Imm(v) => Some(st + [m.lit(v)])
    case Neg => if n < 1 then None else Some(st[..n - 1] + [m.neg(st[n - 1])])
    case Binary(op) => if n < 2 then None else Some(st[..n - 2] + [m.bin(op, st[n - 2], st[n - 1])])
  }

  function RunStack<C, V>(m: Meaning<C, V>, x: V, st: seq<V>, code: seq<Code<C>>): Option<seq<V>>
    decreases |code|
  {
    if code == [] then Some(st)
    else
      match StepStack(m, x, st, code[0])
      case None => None
      case Some(st') => RunStack(m, x, st', code[1..])
  }

  /** The machine evaluates: an expression's code pushes its value, whatever follows. */
  lemma {:induction false} PostfixEvaluates<C, V>(m: Meaning<C, V>, x: V, st: seq<V>, e: Expr<C>, rest: seq<Code<C>>)
    ensures RunStack(m, x, st, Postfix(e) + rest) == RunStack(m, x, st + [Eval(m, x, e)], rest)
    decreases e
  {
    match e
    case Const(c) => assert ([Imm(c)] + rest)[1..] == rest;
    case X => assert ([VarX] + rest)[1..] == rest;
    case Minus(a) =>
      assert Postfix(e) + rest == Postfix(a) + ([Neg] + rest);
      PostfixEvaluates(m, x, st, a, [Neg] + rest);
      assert ([Neg] + rest)[1..] == rest && (st + [Eval(m, x, a)])[..|st|] == st;
    case Op(op, a, b) =>
      var tail := [Binary(op)] + rest;
      assert Postfix(e) + rest == Postfix(a) + (Postfix(b) + tail);
      PostfixEvaluates(m, x, st, a, Postfix(b) + tail);
      PostfixEvaluates(m, x, st + [Eval(m, x, a)], b, tail);
      assert tail[1..] == rest && (st + [Eval(m, x, a)] + [Eval(m, x, b)])[..|st|] == st;
  }

  function NextDepth<C>(depth: nat, c: Code<C>): int {
    match c
    case Binary(_) => depth - 1
    case Neg => depth
    case _ => depth + 1
  }

  /** The largest number of values alive at any point. */
  function Deepest<C>(depth: nat, code: seq<Code<C>>): (d: nat)
    ensures d >= depth
    decreases |code|
  {
    if code == [] || NextDepth(depth, code[0]) < 0 then depth
    else
      var rest := Deepest(NextDepth(depth, code[0]), code[1..]);
      if depth < rest then rest else depth
  }

  lemma OneStep<C, V>(m: Meaning<C, V>, x: V, st: seq<V>, code: seq<Code<C>>)
    requires code != [] && RunStack(m, x, st, code).Some?
    ensures StepStack(m, x, st, code[0]).Some? && |StepStack(m, x, st, code[0]).value| == NextDepth(|st|, code[0])
    ensures RunStack(m, x, st, code) == RunStack(m, x, StepStack(m, x, st, code[0]).value, code[1..])
    ensures |st| < MAX_STACK ==>
              (Deepest(|st|, code) >= MAX_STACK <==> Deepest(NextDepth(|st|, code[0]), code[1..]) >= MAX_STACK)
  {
  }

  lemma NoSteps<C, V>(m: Meaning<C, V>, x: V, st: seq<V>, code: seq<Code<C>>)
    requires code == []
    ensures RunStack(m, x, st, code) == Some(st) && Deepest(|st|, code) == |st|
  {
  }

  const MAX_STACK := 16

  class Vm<C> {
    var code: seq<Code<C>>

    constructor (code: seq<Code<C>>)
      ensures this.code == code
    {
      this.code := code;
    }

    /** One case of the switch. */
    static method Step<V>(m: Meaning<C, V>, x: V, stack: array<V>, p: nat, c: Code<C>) returns (p': nat)
      requires p < stack.Length && StepStack(m, x, stack[..p], c).Some?
      modifies stack
      ensures p' <= stack.Length && stack[..p'] == StepStack(m, x, old(stack[..p]), c).value
    {
      match c {
        case VarX =>
          stack[p] := x;
          p' := p + 1;
        case Imm(v) =>
          stack[p] := m.lit(v);
          p' := p + 1;
        case Neg =>
          stack[p - 1] := m.neg(stack[p - 1]);
          p' := p;
        case Binary(op) =>
          p' := p - 1;
          stack[p' - 1] := m.bin(op, stack[p' - 1], stack[p']);
      }
    }

    /** Postfix code that leaves a value; None is the failed assertion on the stack's size. */
    method Call<V(0)>(m: Meaning<C, V>, x: V) returns (r: Option<V>)
      requires RunStack(m, x, [], code).Some? && RunStack(m, x, [], code).value != []
      ensures r == None <==> Deepest(0, code) >= MAX_STACK
      ensures r.Some? ==> var st := RunStack(m, x, [], code).value; r.value == st[|st| - 1]
    {
      var stack := new V[MAX_STACK];
      assert code[0..] == code;
      hide RunStack, Deepest;
      var p, pc := 0, 0;
      while pc < |code|
        invariant 0 <= p < MAX_STACK && 0 <= pc <= |code|
        invariant RunStack(m, x, stack[..p], code[pc..]) == RunStack(m, x, [], code)
        invariant Deepest(0, code) >= MAX_STACK <==> Deepest(p, code[pc..]) >= MAX_STACK
      {
        ghost var st, rest := stack[..p], code[pc..];
        assert rest[0] == code[pc] && rest[1..] == code[pc + 1..];
        OneStep(m, x, st, rest);
        p := Step(m, x, stack, p, code[pc]);
        pc := pc + 1;
        if p >= MAX_STACK {
          return None;
        }
      }
      NoSteps(m, x, stack[..p], code[pc..]);
      r := Some(stack[p - 1]);
    }
  }
}
