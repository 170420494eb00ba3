/** The compile loop: one pass over the source with two label stacks. */
module BrainfuckCompiler {
  import opened Brainfuck
  import opened Wrappers

  /** Open brackets after the first i characters; none once a closing bracket has no partner. */
  function Nesting(src: string, i: nat): Option<nat>
    requires i <= |src|
  {
    if i == 0 then Some(0)
    else
      match Nesting(src, i - 1)
      case None => None
      case Some(n) =>
        if src[i - 1] == '[' then Some(n + 1)
        else if src[i - 1] == ']' then if n == 0 then None else Some(n - 1)
        else Some(n)
  }

  predicate Balanced(src: string) {
    Nesting(src, |src|) == Some(0)
  }

  /** The state of the compile loop, with the code position of every boundary passed and the
      positions of the brackets still open. */
  datatype Build = Build(prog: Program, at: map<nat, nat>, pos: nat, opens: seq<nat>,
                         labelB: seq<Label>, labelF: seq<Label>, nextId: Label)

  /** Code, labels and boundaries only ever grow. */
  ghost predicate Grows(b: Build, b': Build) {
    && b.prog.code <= b'.prog.code
    && (forall l :: l in b.prog.labels ==> l in b'.prog.labels && b'.prog.labels[l] == b.prog.labels[l])
    && (forall i :: i in b.at ==> i in b'.at && b'.at[i] == b.at[i])
  }

  ghost predicate TokensEmitted(src: string, b: Build) {
    forall i :: i in b.at && i < b.pos ==> Emitted(src, b.prog, b.at, i)
  }

  ghost predicate LoopsBound(src: string, b: Build)
    requires TokensEmitted(src, b) && b.pos <= |src|
  {
    && (forall i :: i in b.at && i < b.pos && src[i] == '[' ==> i in b.opens || ExitBound(src, b.prog, b.at, i))
    && (forall i :: i in b.at && i < b.pos && src[i] == ']' ==> BackBound(src, b.prog, b.at, i))
  }

  /** The stacks: entry k belongs to the k-th open bracket. */
  ghost predicate Stacked(src: string, b: Build)
    requires b.pos <= |src|
  {
    var n := |b.opens|;
    && |b.labelB| == n && |b.labelF| == n
    && (forall k :: 0 <= k < n ==>
          && b.opens[k] < b.pos && b.opens[k] in b.at && src[b.opens[k]] == '['
          && b.labelB[k] in b.prog.labels && b.prog.labels[b.labelB[k]] == b.at[b.opens[k]]
          && b.at[b.opens[k]] + 2 < |b.prog.code| && b.prog.code[b.at[b.opens[k]] + 2] == Jz(b.labelF[k])
          && b.labelF[k] < b.nextId && b.labelF[k] !in b.prog.labels)
    && (forall k, l :: 0 <= k < l < n ==> b.labelF[k] != b.labelF[l])
    && (forall l :: l in b.prog.labels ==> l < b.nextId)
  }

  /** Scanning from an open bracket or back from the position meets the stack. */
  ghost predicate Scanned(src: string, pos: nat, opens: seq<nat>)
    requires pos <= |src|
  {
    var n := |opens|;
    && Nesting(src, pos) == Some(n)
    && (forall k :: 0 <= k < n ==> opens[k] < |src| && ScanClose(src, opens[k] + 1, 1) == ScanClose(src, pos, n - k))
    && (forall d :: 1 <= d <= n ==> ScanOpen(src, pos, d) == Some(opens[n - d]))
  }

  ghost predicate Building(src: string, b: Build) {
    && b.pos <= |src| && b.pos in b.at && b.at[b.pos] == |b.prog.code|
    && 0 in b.at && b.at[0] == 0
    && (forall i :: i in b.at ==> i <= b.pos)
    && TokensEmitted(src, b) && LoopsBound(src, b) && Stacked(src, b) && Scanned(src, b.pos, b.opens)
  }

  // ----- growth keeps what was established

  lemma EmittedGrows(src: string, b: Build, b': Build, i: nat)
    requires Grows(b, b') && Emitted(src, b.prog, b.at, i)
    ensures Emitted(src, b'.prog, b'.at, i)
    ensures src[i] == '[' && ExitBound(src, b.prog, b.at, i) ==> ExitBound(src, b'.prog, b'.at, i)
    ensures src[i] == ']' && BackBound(src, b.prog, b.at, i) ==> BackBound(src, b'.prog, b'.at, i)
  {
    hide RunEnd, RunCount, ScanClose, ScanOpen;
  }

  /** Extending by one token that starts at b.pos and ends at b'.pos. */
  lemma TokensGrow(src: string, b: Build, b': Build)
    requires Building(src, b) && Grows(b, b')
    requires b.pos < b'.pos <= |src| && b'.at.Keys == b.at.Keys + {b'.pos}
    requires Emitted(src, b'.prog, b'.at, b.pos)
    ensures TokensEmitted(src, b')
  {
    hide Emitted, ExitBound, BackBound, Stacked, Scanned;
    forall i | i in b.at && i < b.pos
      ensures Emitted(src, b'.prog, b'.at, i)
    {
      EmittedGrows(src, b, b', i);
    }
  }

  lemma LoopsGrow(src: string, b: Build, b': Build)
    requires Building(src, b) && Grows(b, b') && b'.pos <= |src| && b'.at.Keys == b.at.Keys + {b'.pos}
    requires TokensEmitted(src, b') && b.pos < b'.pos
    requires src[b.pos] == '[' ==> b.pos in b'.opens
    requires src[b.pos] == ']' ==> BackBound(src, b'.prog, b'.at, b.pos)
    requires forall i :: i in b.opens && i in b.at && i < b.pos && src[i] == '[' ==>
        i in b'.opens || ExitBound(src, b'.prog, b'.at, i)
    ensures LoopsBound(src, b')
  {
    hide Emitted, ExitBound, BackBound, Stacked, Scanned;
    forall i | i in b'.at && i < b'.pos
      ensures src[i] == '[' ==> i in b'.opens || ExitBound(src, b'.prog, b'.at, i)
      ensures src[i] == ']' ==> BackBound(src, b'.prog, b'.at, i)
    {
      if i != b.pos {
        assert i in b.at && i < b.pos;
        EmittedGrows(src, b, b', i);
      }
    }
  }

  lemma TokenBuilt(src: string, b: Build, b': Build)
    requires Building(src, b) && Grows(b, b')
    requires b.pos < b'.pos <= |src| && b'.at.Keys == b.at.Keys + {b'.pos} && b'.at[b'.pos] == |b'.prog.code|
    requires Emitted(src, b'.prog, b'.at, b.pos)
    requires TokensEmitted(src, b') && LoopsBound(src, b') && Stacked(src, b') && Scanned(src, b'.pos, b'.opens)
    ensures Building(src, b')
  {
    hide Emitted, ExitBound, BackBound, Stacked, Scanned, TokensEmitted, LoopsBound;
  }

  lemma StackKept(src: string, b: Build, b': Build)
    requires Building(src, b) && Grows(b, b')
    requires b.pos <= b'.pos <= |src| && b'.opens == b.opens && b'.labelB == b.labelB && b'.labelF == b.labelF
    requires b'.prog.labels == b.prog.labels && b'.nextId == b.nextId
    ensures Stacked(src, b')
  {
  }

  // ----- tokens without brackets

  predicate Bracket(c: char) {
    c == '[' || c == ']'
  }

  lemma {:induction false} ScanSkips(src: string, i: nat, e: nat)
    requires i <= e <= |src| && forall k :: i <= k < e ==> !Bracket(src[k])
    ensures Nesting(src, e) == Nesting(src, i)
    ensures forall d :: d > 0 ==> ScanClose(src, i, d) == ScanClose(src, e, d)
    ensures forall d :: d > 0 ==> ScanOpen(src, e, d) == ScanOpen(src, i, d)
    decreases e - i
  {
    if i < e {
      ScanSkips(src, i + 1, e);
    }
  }

  lemma PlainToken(src: string, b: Build, b': Build)
    requires Building(src, b) && Grows(b, b')
    requires b.pos < b'.pos <= |src| && b'.at.Keys == b.at.Keys + {b'.pos} && b'.at[b'.pos] == |b'.prog.code|
    requires Emitted(src, b'.prog, b'.at, b.pos)
    requires forall k :: b.pos <= k < b'.pos ==> !Bracket(src[k])
    requires b'.opens == b.opens && b'.labelB == b.labelB && b'.labelF == b.labelF
    requires b'.prog.labels == b.prog.labels && b'.nextId == b.nextId
    ensures Building(src, b')
  {
    hide Emitted, ExitBound, BackBound, ScanClose, ScanOpen, Nesting, Stacked, LoopsBound, TokensEmitted;
    assert Scanned(src, b'.pos, b'.opens) by { ScanSkips(src, b.pos, b'.pos); }
    hide Scanned;
    StackKept(src, b, b');
    TokensGrow(src, b, b');
    LoopsGrow(src, b, b');
    TokenBuilt(src, b, b');
  }

  lemma {:induction false} RunHasNoBracket(src: string, c: char, j: nat)
    requires j <= |src| && !Bracket(c)
    ensures forall k :: j <= k < RunEnd(src, c, j) ==> !Bracket(src[k])
    decreases |src| - j
  {
    if j < |src| && (src[j] == c || Blank(src[j])) {
      RunHasNoBracket(src, c, j + 1);
    }
  }

  /** What the loop does at any other character. */
  function AtPlain(b: Build, ops: seq<Op>, e: nat): Build {
    b.(prog := Program(b.prog.code + ops, b.prog.labels), at := b.at[e := |b.prog.code| + |ops|], pos := e)
  }

  lemma AppendToken(src: string, b: Build, ops: seq<Op>, e: nat)
    requires Building(src, b) && b.pos < e <= |src|
    requires Emitted(src, AtPlain(b, ops, e).prog, AtPlain(b, ops, e).at, b.pos)
    requires forall k :: b.pos <= k < e ==> !Bracket(src[k])
    ensures Building(src, AtPlain(b, ops, e))
  {
    hide Emitted, ExitBound, BackBound, Stacked, Scanned, LoopsBound, TokensEmitted;
    PlainToken(src, b, AtPlain(b, ops, e));
  }

  lemma SingleToken(src: string, b: Build, ops: seq<Op>)
    requires Building(src, b) && b.pos < |src| && !Bracket(src[b.pos]) && src[b.pos] !in {'+', '-', '>', '<'}
    requires ops == if src[b.pos] == '.' then [LoadEdi, CallPutchar]
                    else if src[b.pos] == ',' then [CallGetchar, StoreEax] else []
    ensures Building(src, AtPlain(b, ops, b.pos + 1))
  {
    hide ExitBound, BackBound, Stacked, Scanned, LoopsBound, TokensEmitted;
    AppendToken(src, b, ops, b.pos + 1);
  }

  lemma RunToken(src: string, b: Build, op: Op)
    requires Building(src, b) && b.pos < |src| && src[b.pos] in {'+', '-', '>', '<'}
    requires
      var c := src[b.pos];
      var n := 1 + RunCount(src, c, b.pos + 1);
      op == if c == '>' || c == '<' then AddStack(4 * (Sign(c) * n))
            else if n == 1 then (if c == '+' then IncCur else DecCur) else AddCur(Sign(c) * n)
    ensures Building(src, AtPlain(b, [op], RunEnd(src, src[b.pos], b.pos + 1)))
  {
    hide ExitBound, BackBound, Stacked, Scanned, LoopsBound, TokensEmitted, RunEnd, RunCount;
    RunHasNoBracket(src, src[b.pos], b.pos + 1);
    AppendToken(src, b, [op], RunEnd(src, src[b.pos], b.pos + 1));
  }

  // ----- brackets

  /** What the loop does at an opening bracket. */
  function AtOpen(b: Build): Build {
    var pc := |b.prog.code|;
    Build(Program(b.prog.code + [LoadEax, TestEax, Jz(b.nextId + 1)], b.prog.labels[b.nextId := pc]),
          b.at[b.pos + 1 := pc + 3], b.pos + 1,
          b.opens + [b.pos], b.labelB + [b.nextId], b.labelF + [b.nextId + 1], b.nextId + 2)
  }

  lemma OpenGrows(src: string, b: Build)
    requires Building(src, b)
    ensures Grows(b, AtOpen(b))
  {
    hide Scanned, LoopsBound, TokensEmitted;
  }

  lemma OpenStacked(src: string, b: Build)
    requires Building(src, b) && b.pos < |src| && src[b.pos] == '['
    ensures Stacked(src, AtOpen(b))
  {
    hide Scanned, LoopsBound, TokensEmitted;
  }

  lemma OpenScanned(src: string, pos: nat, opens: seq<nat>)
    requires pos < |src| && src[pos] == '[' && Scanned(src, pos, opens)
    ensures Scanned(src, pos + 1, opens + [pos])
  {
    var next, opens', n := pos + 1, opens + [pos], |opens|;
    forall k | 0 <= k < n + 1
      ensures ScanClose(src, opens'[k] + 1, 1) == ScanClose(src, pos + 1, n + 1 - k)
    {
      if k < n {
        assert ScanClose(src, opens[k] + 1, 1) == ScanClose(src, pos, n - k);
      }
    }
    forall d | 1 <= d <= n + 1
      ensures ScanOpen(src, next, d) == Some(opens'[n + 1 - d])
    {
      if d > 1 {
        assert ScanOpen(src, pos, d - 1) == Some(opens[n - (d - 1)]);
      }
    }
  }

  lemma OpenToken(src: string, b: Build)
    requires Building(src, b) && b.pos < |src| && src[b.pos] == '['
    ensures Building(src, AtOpen(b))
  {
    var b' := AtOpen(b);
    OpenStacked(src, b);
    OpenScanned(src, b.pos, b.opens);
    hide Stacked, Scanned, LoopsBound, TokensEmitted;
    assert Grows(b, b') by { OpenGrows(src, b); }
    assert Emitted(src, b'.prog, b'.at, b.pos);
    hide Emitted, ExitBound, BackBound;
    TokensGrow(src, b, b');
    assert b.pos in b'.opens && forall i :: i in b.opens ==> i in b'.opens;
    LoopsGrow(src, b, b');
    TokenBuilt(src, b, b');
  }

  /** What it does at a closing bracket that has a partner. */
  function AtClose(b: Build): Build
    requires b.opens != [] && |b.labelB| == |b.labelF| == |b.opens|
  {
    var pc, n := |b.prog.code|, |b.opens| - 1;
    Build(Program(b.prog.code + [Jmp(b.labelB[n])], b.prog.labels[b.labelF[n] := pc + 1]),
          b.at[b.pos + 1 := pc + 1], b.pos + 1,
          b.opens[..n], b.labelB[..n], b.labelF[..n], b.nextId)
  }

  lemma CloseStacked(src: string, b: Build)
    requires Building(src, b) && b.pos < |src| && src[b.pos] == ']' && b.opens != []
    ensures |b.labelB| == |b.labelF| == |b.opens|
    ensures Stacked(src, AtClose(b))
  {
    hide Scanned, LoopsBound, TokensEmitted;
  }

  lemma PastClose(src: string, pos: nat, d: nat)
    requires pos < |src| && src[pos] == ']' && d > 0
    ensures ScanClose(src, pos, d) == if d == 1 then pos else ScanClose(src, pos + 1, d - 1)
    ensures ScanOpen(src, pos + 1, d) == ScanOpen(src, pos, d + 1)
  {
  }

  lemma CloseScanned(src: string, pos: nat, opens: seq<nat>)
    requires pos < |src| && src[pos] == ']' && opens != [] && Scanned(src, pos, opens)
    ensures Scanned(src, pos + 1, opens[..|opens| - 1])
    ensures var o := opens[|opens| - 1];
            ScanClose(src, o + 1, 1) == pos && ScanOpen(src, pos, 1) == Some(o)
  {
    var next, opens', n := pos + 1, opens[..|opens| - 1], |opens| - 1;
    assert Nesting(src, pos + 1) == Some(n);
    hide ScanClose, Nesting;
    forall k | 0 <= k < n
      ensures opens'[k] < |src| && ScanClose(src, opens'[k] + 1, 1) == ScanClose(src, pos + 1, n - k)
    {
      assert ScanClose(src, opens[k] + 1, 1) == ScanClose(src, pos, n + 1 - k);
      PastClose(src, pos, n + 1 - k);
    }
    forall d | 1 <= d <= n
      ensures ScanOpen(src, next, d) == Some(opens'[n - d])
    {
      PastClose(src, pos, d);
      assert ScanOpen(src, pos, d + 1) == Some(opens[n + 1 - (d + 1)]);
    }
    PastClose(src, pos, 1);
    assert ScanClose(src, opens[n] + 1, 1) == ScanClose(src, pos, 1);
  }

  lemma CloseGrows(src: string, b: Build)
    requires Building(src, b) && b.opens != []
    ensures |b.labelB| == |b.labelF| == |b.opens| && Grows(b, AtClose(b))
  {
    hide Scanned, LoopsBound, TokensEmitted;
  }

  /** What the stacks say of the innermost open loop. */
  ghost predicate Innermost(src: string, b: Build, o: nat, begin: Label, end: Label) {
    && b.opens != [] && |b.labelB| == |b.labelF| == |b.opens|
    && o == b.opens[|b.opens| - 1] && begin == b.labelB[|b.opens| - 1] && end == b.labelF[|b.opens| - 1]
    && o < b.pos < |src| && src[o] == '[' && src[b.pos] == ']'
    && o in b.at && b.pos in b.at && b.at[b.pos] == |b.prog.code|
    && begin in b.prog.labels && b.prog.labels[begin] == b.at[o] && end !in b.prog.labels
    && b.at[o] + 2 < |b.prog.code| && b.prog.code[b.at[o] + 2] == Jz(end)
    && ScanClose(src, o + 1, 1) == b.pos && ScanOpen(src, b.pos, 1) == Some(o)
  }

  lemma InnermostLoop(src: string, b: Build) returns (o: nat, begin: Label, end: Label)
    requires Building(src, b) && b.pos < |src| && src[b.pos] == ']' && b.opens != []
    ensures Innermost(src, b, o, begin, end)
  {
    CloseScanned(src, b.pos, b.opens);
    hide Scanned, LoopsBound, TokensEmitted, ScanClose, ScanOpen, Nesting;
    var n := |b.opens| - 1;
    o, begin, end := b.opens[n], b.labelB[n], b.labelF[n];
  }

  /** The closing bracket jumps back to its partner. */
  lemma CloseBack(src: string, b: Build, o: nat, begin: Label, end: Label)
    requires Innermost(src, b, o, begin, end)
    ensures
      var b' := AtClose(b);
      Emitted(src, b'.prog, b'.at, b.pos) && BackBound(src, b'.prog, b'.at, b.pos)
  {
    hide ScanClose, ScanOpen, RunEnd, RunCount;
  }

  /** And its partner's exit is bound just past it. */
  lemma CloseExit(src: string, b: Build, o: nat, begin: Label, end: Label)
    requires Innermost(src, b, o, begin, end) && Emitted(src, b.prog, b.at, o)
    ensures
      var b' := AtClose(b);
      Emitted(src, b'.prog, b'.at, o) && ExitBound(src, b'.prog, b'.at, o)
  {
    hide ScanClose, ScanOpen, RunEnd, RunCount;
  }

  lemma CloseLoops(src: string, b: Build, o: nat, begin: Label, end: Label)
    requires Building(src, b) && Innermost(src, b, o, begin, end) && Grows(b, AtClose(b))
    ensures
      var b' := AtClose(b);
      Emitted(src, b'.prog, b'.at, b.pos) && TokensEmitted(src, b') && LoopsBound(src, b')
  {
    hide Emitted, ExitBound, BackBound, Stacked, Scanned, LoopsBound, Grows;
    assert Emitted(src, b.prog, b.at, o);
    hide TokensEmitted;
    CloseBack(src, b, o, begin, end);
    CloseExit(src, b, o, begin, end);
    var b' := AtClose(b);
    TokensGrow(src, b, b');
    OnlyInnermost(b.opens);
    LoopsGrow(src, b, b');
  }

  lemma CloseToken(src: string, b: Build)
    requires Building(src, b) && b.pos < |src| && src[b.pos] == ']' && b.opens != []
    ensures |b.labelB| == |b.labelF| == |b.opens|
    ensures Building(src, AtClose(b))
  {
    hide Emitted, ExitBound, BackBound, Stacked, Scanned, LoopsBound, TokensEmitted, Grows, ScanClose, ScanOpen;
    CloseGrows(src, b);
    CloseStacked(src, b);
    CloseScanned(src, b.pos, b.opens);
    var o, begin, end := InnermostLoop(src, b);
    hide Innermost;
    CloseLoops(src, b, o, begin, end);
    TokenBuilt(src, b, AtClose(b));
  }

  lemma OnlyInnermost(opens: seq<nat>)
    requires opens != []
    ensures forall i :: i in opens ==> i in opens[..|opens| - 1] || i == opens[|opens| - 1]
  {
  }

  // ----- the loop

  method GetContinuousChar(src: string, pos: nat, c: char) returns (count: int, next: nat)
    requires pos <= |src| && !Blank(c)
    ensures count == 1 + RunCount(src, c, pos) && next == RunEnd(src, c, pos)
  {
    count, next := 1, pos;
    while next < |src|
      invariant pos <= next <= |src|
      invariant RunEnd(src, c, next) == RunEnd(src, c, pos)
      invariant count + RunCount(src, c, next) == 1 + RunCount(src, c, pos)
    {
      if !Blank(src[next]) {
        if src[next] != c {
          break;
        }
        count := count + 1;
      }
      next := next + 1;
    }
  }

  lemma {:induction false} NestingStuck(src: string, i: nat)
    requires i <= |src| && Nesting(src, i) == None
    ensures Nesting(src, |src|) == None
    decreases |src| - i
  {
    if i < |src| {
      NestingStuck(src, i + 1);
    }
  }

  /** A closing bracket without a partner. */
  lemma Unopened(src: string, b: Build)
    requires Building(src, b) && b.pos < |src| && src[b.pos] == ']' && b.opens == []
    ensures Nesting(src, |src|) == None
  {
    hide Stacked, LoopsBound, TokensEmitted;
    NestingStuck(src, b.pos + 1);
  }

  /** Some jump has no target. */
  ghost predicate Unpatched(prog: Program) {
    exists pc :: 0 <= pc < |prog.code| && prog.code[pc].Jz? && prog.code[pc].target !in prog.labels
  }

  lemma Finished(src: string, b: Build)
    requires Building(src, b) && b.pos == |src|
    ensures Nesting(src, |src|) == Some(|b.opens|)
    ensures b.opens == [] ==> Compiled(src, b.prog, b.at)
    ensures b.opens != [] ==> Unpatched(b.prog)
  {
    hide Emitted, ExitBound, BackBound, ScanClose, ScanOpen, Nesting;
    if b.opens != [] {
      var pc := b.at[b.opens[0]] + 2;
      assert b.prog.code[pc] == Jz(b.labelF[0]);
    }
  }

  /** From any tape, input and output the code ends exactly when the interpreter does, with the same
      cells, pointer, remaining input and output. */
  ghost predicate Behaves(src: string, prog: Program) {
    forall ptr, eax, edi, zf, store, sp, final ::
      MachineReaches(prog, StartMachine(ptr, eax, edi, zf, store), sp, final)
      <==> SourceReaches(src, StartSource(ptr, store), sp, final)
  }

  lemma CompiledBehaves(src: string, prog: Program, at: map<nat, nat>)
    requires Compiled(src, prog, at)
    ensures Behaves(src, prog)
  {
    hide Compiled, MachineReaches, SourceReaches;
    forall ptr, eax, edi, zf, store, sp, final
      ensures MachineReaches(prog, StartMachine(ptr, eax, edi, zf, store), sp, final)
              <==> SourceReaches(src, StartSource(ptr, store), sp, final)
    {
      CompiledCorrect(src, prog, at, ptr, eax, edi, zf, store, sp, final);
    }
  }

  lemma NothingBuilt(src: string)
    ensures Building(src, Build(Program([], map[]), map[0 := 0], 0, [], [], [], 0))
  {
  }

  /** Code for every source in which each closing bracket has a partner. If each opening one has too,
      the code behaves like the source; otherwise some jump is left without a target. */
  method Compile(src: string) returns (r: Option<Program>)
    ensures r.Some? <==> Nesting(src, |src|).Some?
    ensures Balanced(src) ==> Behaves(src, r.value)
    ensures r.Some? && !Balanced(src) ==> Unpatched(r.value)
  {
    hide Building, Compiled, Behaves, Unpatched, Nesting, RunEnd, RunCount;
    ghost var at: map<nat, nat>;
    var code: seq<Op>, labels: map<Label, nat> := [], map[];
    var labelB: seq<Label>, labelF: seq<Label>, nextId: Label := [], [], 0;
    var pos := 0;
    ghost var opens: seq<nat>;
    opens, at := [], map[0 := 0];
    NothingBuilt(src);
    while pos < |src|
      invariant Building(src, Build(Program(code, labels), at, pos, opens, labelB, labelF, nextId))
      invariant pos <= |src| && |opens| == |labelB| == |labelF|
    {
      ghost var b := Build(Program(code, labels), at, pos, opens, labelB, labelF, nextId);
      var c := src[pos];
      if c == '+' || c == '-' {
        var count, next := GetContinuousChar(src, pos + 1, c);
        var op := if count == 1 then (if c == '+' then IncCur else DecCur)
            else AddCur(if c == '+' then count else -count);
        RunToken(src, b, op);
        code, pos := code + [op], next;
      } else if c == '>' || c == '<' {
        var count, next := GetContinuousChar(src, pos + 1, c);
        var op := AddStack(4 * (if c == '>' then count else -count));
        RunToken(src, b, op);
        code, pos := code + [op], next;
      } else if c == '[' {
        OpenToken(src, b);
        var begin, end := nextId, nextId + 1;
        nextId := nextId + 2;
        labels, labelB := labels[begin := |code|], labelB + [begin];
        code, labelF := code + [LoadEax, TestEax, Jz(end)], labelF + [end];
        opens, pos := opens + [pos], pos + 1;
      } else if c == ']' {
        if labelB == [] {
          Unopened(src, b);
          return None;
        }
        CloseToken(src, b);
        var n := |labelB| - 1;
        code, labelB := code + [Jmp(labelB[n])], labelB[..n];
        labels, labelF := labels[labelF[n] := |code|], labelF[..n];
        opens, pos := opens[..n], pos + 1;
      } else {
        var ops := if c == '.' then [LoadEdi, CallPutchar] else if c == ',' then [CallGetchar, StoreEax] else [];
        SingleToken(src, b, ops);
        code, pos := code + ops, pos + 1;
      }
      at := at[pos := |code|];
    }
    Finished(src, Build(Program(code, labels), at, pos, opens, labelB, labelF, nextId));
    if labelF == [] {
      CompiledBehaves(src, Program(code, labels), at);
    }
    r := Some(Program(code, labels));
  }
}
