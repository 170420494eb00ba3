/** The language and the machine of the Brainfuck compiler: an interpreter that steps over source
    characters, the generated instructions, and the relation between a source and its code. */
module Brainfuck {
  import opened Arithmetic
  import opened Wrappers

  // ----- state shared by both sides

  /** Cells are 32-bit words, cell i at byte address 4 * i; cells never written hold zero. */
  datatype Store = Store(cells: map<int, int>, input: seq<int>, output: seq<int>)

  function Cell(s: Store, address: int): int {
    if address in s.cells then s.cells[address] else 0
  }

  function SetCell(s: Store, address: int, v: int): Store {
    s.(cells := s.cells[address := v % TWO32])
  }

  /** getchar: the next input character, or -1 at the end. */
  function NextInput(s: Store): int {
    if s.input == [] then -1 else s.input[0]
  }

  function DropInput(s: Store): Store {
    if s.input == [] then s else s.(input := s.input[1..])
  }

  // ----- the source language

  /** Position of the bracket that closes a nesting of depth d, scanning from j; |src| if none. */
  function ScanClose(src: string, j: nat, d: nat): (k: nat)
    requires j <= |src| && d > 0
    ensures j <= k <= |src|
    decreases |src| - j
  {
    if j == |src| then |src|
    else if src[j] == '[' then ScanClose(src, j + 1, d + 1)
    else if src[j] == ']' then if d == 1 then j else ScanClose(src, j + 1, d - 1)
    else ScanClose(src, j + 1, d)
  }

  /** Position of the bracket that opens a nesting of depth d, scanning down from j - 1. */
  function ScanOpen(src: string, j: nat, d: nat): Option<nat>
    requires j <= |src| && d > 0
  {
    if j == 0 then None
    else if src[j - 1] == ']' then ScanOpen(src, j - 1, d + 1)
    else if src[j - 1] == '[' then if d == 1 then Some(j - 1) else ScanOpen(src, j - 1, d - 1)
    else ScanOpen(src, j - 1, d)
  }

  datatype Source = Source(pos: nat, ptr: int, store: Store)

  /** One source character. Characters outside the language do nothing. */
  function StepSource(src: string, s: Source): Option<Source> {
    if s.pos >= |src| then None
    else
      var here := 4 * s.ptr;
      var next := s.(pos := s.pos + 1);
      match src[s.pos]
      case '+' => Some(next.(store := SetCell(s.store, here, Cell(s.store, here) + 1)))
      case '-' => Some(next.(store := SetCell(s.store, here, Cell(s.store, here) - 1)))
      case '>' => Some(next.(ptr := s.ptr + 1))
      case '<' => Some(next.(ptr := s.ptr - 1))
      case '.' => Some(next.(store := s.store.(output := s.store.output + [Cell(s.store, here)])))
      case ',' => Some(next.(store := SetCell(DropInput(s.store), here, NextInput(s.store))))
      case '[' =>
        if Cell(s.store, here) != 0 then Some(next)
        else
          var k := ScanClose(src, s.pos + 1, 1);
          if k == |src| then None else Some(s.(pos := k + 1))
      case ']' =>
        var o := ScanOpen(src, s.pos, 1);
        if o.None? then None else Some(s.(pos := o.value))
      case _ => Some(next)
  }

  function RunSource(src: string, s: Source, n: nat): Option<Source>
    decreases n
  {
    if n == 0 then Some(s)
    else match StepSource(src, s)
         case None => None
         case Some(s') => RunSource(src, s', n - 1)
  }

  // ----- the generated code

  type Label = nat

  datatype Op =
    | IncCur | DecCur | AddCur(n: int)
    | AddStack(bytes: int)
    | LoadEdi | CallPutchar
    | CallGetchar | StoreEax
    | LoadEax | TestEax | Jz(target: Label) | Jmp(target: Label)

  datatype Program = Program(code: seq<Op>, labels: map<Label, nat>)

  datatype Machine = Machine(pc: nat, sp: int, eax: int, edi: int, zf: bool, store: Store)

  function StepMachine(prog: Program, m: Machine): Option<Machine> {
    if m.pc >= |prog.code| then None
    else
      var cur := Cell(m.store, m.sp);
      var next := m.(pc := m.pc + 1);
      match prog.code[m.pc]
      case IncCur => Some(next.(store := SetCell(m.store, m.sp, cur + 1)))
      case DecCur => Some(next.(store := SetCell(m.store, m.sp, cur - 1)))
      case AddCur(n) => Some(next.(store := SetCell(m.store, m.sp, cur + n)))
      case AddStack(bytes) => Some(next.(sp := m.sp + bytes))
      case LoadEdi => Some(next.(edi := cur))
      case CallPutchar => Some(next.(eax := m.edi, store := m.store.(output := m.store.output + [m.edi])))
      case CallGetchar => Some(next.(eax := NextInput(m.store), store := DropInput(m.store)))
      case StoreEax => Some(next.(store := SetCell(m.store, m.sp, m.eax)))
      case LoadEax => Some(next.(eax := cur))
      case TestEax => Some(next.(zf := m.eax == 0))
      case Jz(l) =>
        if !m.zf then Some(next) else if l in prog.labels then Some(m.(pc := prog.labels[l])) else None
      case Jmp(l) => if l in prog.labels then Some(m.(pc := prog.labels[l])) else None
  }

  function RunMachine(prog: Program, m: Machine, n: nat): Option<Machine>
    decreases n
  {
    if n == 0 then Some(m)
    else match StepMachine(prog, m)
         case None => None
         case Some(m') => RunMachine(prog, m', n - 1)
  }

  lemma {:induction false} RunSourceMore(src: string, s: Source, a: nat, b: nat)
    ensures RunSource(src, s, a + b) ==
            if RunSource(src, s, a).None? then None else RunSource(src, RunSource(src, s, a).value, b)
    decreases a
  {
    hide StepSource;
    if a > 0 && StepSource(src, s).Some? {
      RunSourceMore(src, StepSource(src, s).value, a - 1, b);
    }
  }

  lemma {:induction false} RunMachineMore(prog: Program, m: Machine, a: nat, b: nat)
    ensures RunMachine(prog, m, a + b) ==
            if RunMachine(prog, m, a).None? then None else RunMachine(prog, RunMachine(prog, m, a).value, b)
    decreases a
  {
    hide StepMachine;
    if a > 0 && StepMachine(prog, m).Some? {
      RunMachineMore(prog, StepMachine(prog, m).value, a - 1, b);
    }
  }

  // ----- folded runs

  predicate Blank(c: char) {
    c == ' ' || c == '\t' || c == '\n' || c == '\r' || c == '\U{0B}' || c == '\U{0C}'
  }

  /** Where a run of `c`, blanks skipped, ends. */
  function RunEnd(src: string, c: char, j: nat): (k: nat)
    requires j <= |src|
    ensures j <= k <= |src|
    decreases |src| - j
  {
    if j < |src| && (src[j] == c || Blank(src[j])) then RunEnd(src, c, j + 1) else j
  }

  /** How many `c` it has. */
  function RunCount(src: string, c: char, j: nat): nat
    requires j <= |src|
    decreases |src| - j
  {
    if j < |src| && (src[j] == c || Blank(src[j])) then (if src[j] == c then 1 else 0) + RunCount(src, c, j + 1)
    else 0
  }

  function Sign(c: char): int {
    if c == '+' || c == '>' then 1 else -1
  }

  // ----- how code corresponds to source

  /** The instructions of the token that starts at i, without regard to label targets. */
  ghost predicate Emitted(src: string, prog: Program, at: map<nat, nat>, i: nat) {
    && i < |src| && i in at
    && var c, code, pc := src[i], prog.code, at[i];
       if c == '+' || c == '-' then
         var e, n := RunEnd(src, c, i + 1), 1 + RunCount(src, c, i + 1);
         && e in at && at[e] == pc + 1 <= |code|
         && code[pc] == if n == 1 then (if c == '+' then IncCur else DecCur) else AddCur(Sign(c) * n)
       else if c == '>' || c == '<' then
         var e, n := RunEnd(src, c, i + 1), 1 + RunCount(src, c, i + 1);
         && e in at && at[e] == pc + 1 <= |code|
         && code[pc] == AddStack(4 * (Sign(c) * n))
       else if c == '.' then
         i + 1 in at && at[i + 1] == pc + 2 <= |code| && code[pc] == LoadEdi && code[pc + 1] == CallPutchar
       else if c == ',' then
         i + 1 in at && at[i + 1] == pc + 2 <= |code| && code[pc] == CallGetchar && code[pc + 1] == StoreEax
       else if c == '[' then
         && i + 1 in at && at[i + 1] == pc + 3 <= |code|
         && code[pc] == LoadEax && code[pc + 1] == TestEax && code[pc + 2].Jz?
       else if c == ']' then
         i + 1 in at && at[i + 1] == pc + 1 <= |code| && code[pc].Jmp?
       else
         i + 1 in at && at[i + 1] == pc
  }

  /** A loop's exit goes just past its own closing bracket. */
  ghost predicate ExitBound(src: string, prog: Program, at: map<nat, nat>, i: nat)
    requires Emitted(src, prog, at, i) && src[i] == '['
  {
    var f, k := prog.code[at[i] + 2].target, ScanClose(src, i + 1, 1);
    k < |src| && k + 1 in at && f in prog.labels && prog.labels[f] == at[k + 1]
  }

  /** A loop's end goes back to its own opening bracket. */
  ghost predicate BackBound(src: string, prog: Program, at: map<nat, nat>, i: nat)
    requires Emitted(src, prog, at, i) && src[i] == ']'
  {
    var l, o := prog.code[at[i]].target, ScanOpen(src, i, 1);
    o.Some? && o.value in at && l in prog.labels && prog.labels[l] == at[o.value]
  }

  /** `at` gives the code position of every token boundary of a compiled source. */
  ghost predicate Compiled(src: string, prog: Program, at: map<nat, nat>) {
    && 0 in at && at[0] == 0
    && |src| in at && at[|src|] == |prog.code|
    && (forall i :: i in at && i < |src| ==> Emitted(src, prog, at, i))
    && (forall i :: i in at && i < |src| && src[i] == '[' ==> ExitBound(src, prog, at, i))
    && (forall i :: i in at && i < |src| && src[i] == ']' ==> BackBound(src, prog, at, i))
    && (forall i :: i in at ==> i <= |src|)
  }

  // ----- simulation of one token

  ghost predicate Matches(s: Source, m: Machine, at: map<nat, nat>) {
    s.pos in at && m.pc == at[s.pos] && m.sp == 4 * s.ptr && m.store == s.store
  }

  /** The interpreter through a run of c: blanks are skipped, each c acts once. */
  function Moved(s: Source, c: char, n: int): Source {
    if c == '+' || c == '-' then
      if n == 0 then s
      else s.(store := SetCell(s.store, 4 * s.ptr, Cell(s.store, 4 * s.ptr) + Sign(c) * n))
    else s.(ptr := s.ptr + Sign(c) * n)
  }

  lemma CellTwice(s: Store, a: int, x: int, y: int)
    ensures SetCell(SetCell(s, a, Cell(s, a) + x), a, Cell(SetCell(s, a, Cell(s, a) + x), a) + y)
            == SetCell(s, a, Cell(s, a) + x + y)
  {
    var v := Cell(s, a) + x;
    assert (v % TWO32 + y) % TWO32 == (v + y) % TWO32;
    assert s.cells[a := v % TWO32][a := (v + y) % TWO32] == s.cells[a := (v + y) % TWO32];
  }

  lemma StepOfRun(src: string, s: Source, c: char)
    requires s.pos < |src| && c in {'+', '-', '>', '<'}
    ensures src[s.pos] == c ==> StepSource(src, s) == Some(Moved(s, c, 1).(pos := s.pos + 1))
    ensures Blank(src[s.pos]) ==> StepSource(src, s) == Some(s.(pos := s.pos + 1))
  {
  }

  lemma MovedMore(s: Source, c: char, n: nat, k: nat)
    ensures Moved(Moved(s, c, 1).(pos := k), c, n) == Moved(s, c, n + 1).(pos := k)
  {
    if c == '+' || c == '-' {
      CellTwice(s.store, 4 * s.ptr, Sign(c), Sign(c) * n);
    }
  }

  lemma {:induction false} RunOfSource(src: string, s: Source, c: char)
    requires s.pos <= |src| && c in {'+', '-', '>', '<'}
    ensures
      var e, n := RunEnd(src, c, s.pos), RunCount(src, c, s.pos);
      RunSource(src, s, e - s.pos) == Some(Moved(s, c, n).(pos := e))
    decreases |src| - s.pos
  {
    hide StepSource;
    if s.pos < |src| && (src[s.pos] == c || Blank(src[s.pos])) {
      StepOfRun(src, s, c);
      var s1 := StepSource(src, s).value;
      RunOfSource(src, s1, c);
      if src[s.pos] == c {
        MovedMore(s, c, RunCount(src, c, s1.pos), s1.pos);
        assert !Blank(c);
      }
    }
  }

  lemma RunMachineOne(prog: Program, m: Machine)
    ensures RunMachine(prog, m, 1) == StepMachine(prog, m)
  {
    hide StepMachine;
    if StepMachine(prog, m).Some? {
      assert RunMachine(prog, StepMachine(prog, m).value, 0) == StepMachine(prog, m);
    }
  }

  lemma RunSourceOne(src: string, s: Source)
    ensures RunSource(src, s, 1) == StepSource(src, s)
  {
    hide StepSource;
    if StepSource(src, s).Some? {
      assert RunSource(src, StepSource(src, s).value, 0) == StepSource(src, s);
    }
  }

  /** A run folded into one instruction. */
  lemma FoldedRun(src: string, prog: Program, at: map<nat, nat>, s: Source, m: Machine)
    returns (k: nat, s': Source, m': Machine)
    requires Matches(s, m, at) && Emitted(src, prog, at, s.pos)
    requires src[s.pos] in {'+', '-', '>', '<'}
    ensures k >= 1 && RunSource(src, s, k) == Some(s')
    ensures RunMachine(prog, m, 1) == Some(m') && Matches(s', m', at)
  {
    var c := src[s.pos];
    var e, n := RunEnd(src, c, s.pos + 1), 1 + RunCount(src, c, s.pos + 1);
    k, s' := e - s.pos, Moved(s, c, n).(pos := e);
    assert RunEnd(src, c, s.pos) == e && RunCount(src, c, s.pos) == n;
    RunOfSource(src, s, c);
    hide RunSource, RunEnd, RunCount, RunMachine;
    RunMachineOne(prog, m);
    m' := m.(pc := m.pc + 1, sp := 4 * s'.ptr, store := s'.store);
    assert StepMachine(prog, m) == Some(m');
  }

  /** Input and output. */
  lemma InOut(src: string, prog: Program, at: map<nat, nat>, s: Source, m: Machine)
    returns (s': Source, m': Machine)
    requires Matches(s, m, at) && Emitted(src, prog, at, s.pos)
    requires src[s.pos] == '.' || src[s.pos] == ','
    ensures RunSource(src, s, 1) == Some(s')
    ensures RunMachine(prog, m, 2) == Some(m') && Matches(s', m', at)
  {
    hide RunSource, RunMachine, RunEnd, RunCount;
    RunSourceOne(src, s);
    RunMachineMore(prog, m, 1, 1);
    RunMachineOne(prog, m);
    var m1 := StepMachine(prog, m).value;
    RunMachineOne(prog, m1);
    s' := StepSource(src, s).value;
    m' := StepMachine(prog, m1).value;
  }

  /** The test at the head of a loop. */
  lemma LoopHead(src: string, prog: Program, at: map<nat, nat>, s: Source, m: Machine)
    returns (s': Source, m': Machine)
    requires Matches(s, m, at) && Emitted(src, prog, at, s.pos)
    requires src[s.pos] == '[' && ExitBound(src, prog, at, s.pos)
    ensures RunSource(src, s, 1) == Some(s')
    ensures RunMachine(prog, m, 3) == Some(m') && Matches(s', m', at)
  {
    hide RunSource, RunMachine, RunEnd, RunCount, ScanClose, ScanOpen;
    RunSourceOne(src, s);
    RunMachineMore(prog, m, 1, 2);
    RunMachineOne(prog, m);
    var m1 := StepMachine(prog, m).value;
    RunMachineMore(prog, m1, 1, 1);
    RunMachineOne(prog, m1);
    var m2 := StepMachine(prog, m1).value;
    RunMachineOne(prog, m2);
    s' := StepSource(src, s).value;
    m' := StepMachine(prog, m2).value;
  }

  lemma LoopTail(src: string, prog: Program, at: map<nat, nat>, s: Source, m: Machine)
    returns (s': Source, m': Machine)
    requires Matches(s, m, at) && Emitted(src, prog, at, s.pos)
    requires src[s.pos] == ']' && BackBound(src, prog, at, s.pos)
    ensures RunSource(src, s, 1) == Some(s')
    ensures RunMachine(prog, m, 1) == Some(m') && Matches(s', m', at)
  {
    hide RunSource, RunMachine, RunEnd, RunCount, ScanClose, ScanOpen;
    RunSourceOne(src, s);
    RunMachineOne(prog, m);
    s' := StepSource(src, s).value;
    m' := StepMachine(prog, m).value;
  }

  /** From matching states one token leads to matching states; a token without code moves on. */
  lemma TokenSimulates(src: string, prog: Program, at: map<nat, nat>, s: Source, m: Machine)
    returns (k: nat, j: nat, s': Source, m': Machine)
    requires Compiled(src, prog, at) && Matches(s, m, at) && s.pos < |src|
    ensures k >= 1 && RunSource(src, s, k) == Some(s')
    ensures RunMachine(prog, m, j) == Some(m') && Matches(s', m', at)
    ensures j == 0 ==> s.pos < s'.pos
  {
    assert Emitted(src, prog, at, s.pos);
    var c := src[s.pos];
    if c in {'+', '-', '>', '<'} {
      k, s', m' := FoldedRun(src, prog, at, s, m);
      j := 1;
    } else if c == '.' || c == ',' {
      s', m' := InOut(src, prog, at, s, m);
      k, j := 1, 2;
    } else if c == '[' {
      s', m' := LoopHead(src, prog, at, s, m);
      k, j := 1, 3;
    } else if c == ']' {
      s', m' := LoopTail(src, prog, at, s, m);
      k, j := 1, 1;
    } else {
      RunSourceOne(src, s);
      k, j, s', m' := 1, 0, s.(pos := s.pos + 1), m;
    }
  }

  // ----- whole runs

  /** The interpreter reaches the end of the source in n steps with this final state. */
  ghost predicate SourceEnds(src: string, s: Source, n: nat, f: Source) {
    RunSource(src, s, n) == Some(f) && f.pos == |src|
  }

  ghost predicate MachineEnds(prog: Program, m: Machine, n: nat, f: Machine) {
    RunMachine(prog, m, n) == Some(f) && f.pc == |prog.code|
  }

  /** If the interpreter ends, so does the code, in the same state. */
  lemma {:induction false} SourceEndsMachineEnds(src: string, prog: Program, at: map<nat, nat>,
                                                 s: Source, m: Machine, n: nat, f: Source)
    returns (n': nat, f': Machine)
    requires Compiled(src, prog, at) && Matches(s, m, at) && SourceEnds(src, s, n, f)
    ensures MachineEnds(prog, m, n', f') && Matches(f, f', at)
    decreases n
  {
    hide Compiled, Emitted, StepSource, StepMachine;
    if s.pos == |src| {
      EndOfCode(src, prog, at);
      StuckAtEnd(src, s, n);
      n', f' := 0, m;
    } else {
      BoundaryInRange(src, prog, at, s.pos);
      var k, j, s1, m1 := TokenSimulates(src, prog, at, s, m);
      if n < k {
        PrefixNotEnd(src, s, n, k, f);
      }
      RunSourceMore(src, s, k, n - k);
      n', f' := SourceEndsMachineEnds(src, prog, at, s1, m1, n - k, f);
      RunMachineMore(prog, m, j, n');
      n' := j + n';
    }
  }

  lemma EndOfCode(src: string, prog: Program, at: map<nat, nat>)
    requires Compiled(src, prog, at)
    ensures |src| in at && at[|src|] == |prog.code|
  {
  }

  lemma BoundaryInRange(src: string, prog: Program, at: map<nat, nat>, i: nat)
    requires Compiled(src, prog, at) && i in at
    ensures i <= |src|
  {
  }

  lemma StuckAtEnd(src: string, s: Source, n: nat)
    requires s.pos == |src| && RunSource(src, s, n).Some?
    ensures n == 0
  {
  }

  /** A run that can go on has not ended. */
  lemma PrefixNotEnd(src: string, s: Source, n: nat, k: nat, f: Source)
    requires n < k && RunSource(src, s, k).Some?
    ensures !SourceEnds(src, s, n, f)
  {
    hide StepSource;
    RunSourceMore(src, s, n, k - n);
    if SourceEnds(src, s, n, f) {
      StuckAtEnd(src, f, k - n);
    }
  }

  /** If the code ends, so does the interpreter, in the same state. */
  lemma {:induction false} MachineEndsSourceEnds(src: string, prog: Program, at: map<nat, nat>,
                                                 s: Source, m: Machine, n: nat, f: Machine)
    returns (n': nat, f': Source)
    requires Compiled(src, prog, at) && Matches(s, m, at) && MachineEnds(prog, m, n, f)
    ensures SourceEnds(src, s, n', f') && Matches(f', f, at)
    decreases n, |src| - s.pos
  {
    hide Compiled, Emitted, StepSource, StepMachine;
    BoundaryInRange(src, prog, at, s.pos);
    if s.pos == |src| {
      EndOfCode(src, prog, at);
      StuckMachine(prog, m, n);
      n', f' := 0, s;
    } else {
      var k, j, s1, m1 := TokenSimulates(src, prog, at, s, m);
      if n < j {
        RunMachineMore(prog, m, n, j - n);
        StuckMachine(prog, f, j - n);
      }
      RunMachineMore(prog, m, j, n - j);
      BoundaryInRange(src, prog, at, s1.pos);
      n', f' := MachineEndsSourceEnds(src, prog, at, s1, m1, n - j, f);
      RunSourceMore(src, s, k, n');
      n' := k + n';
    }
  }

  lemma StuckMachine(prog: Program, m: Machine, n: nat)
    requires m.pc == |prog.code| && RunMachine(prog, m, n).Some?
    ensures n == 0
  {
  }

  function StartSource(ptr: int, store: Store): Source {
    Source(0, ptr, store)
  }

  function StartMachine(ptr: int, eax: int, edi: int, zf: bool, store: Store): Machine {
    Machine(0, 4 * ptr, eax, edi, zf, store)
  }

  /** The code ends with this pointer and store. */
  ghost predicate MachineReaches(prog: Program, m: Machine, sp: int, final: Store) {
    exists n, f :: MachineEnds(prog, m, n, f) && f.sp == 4 * sp && f.store == final
  }

  /** The interpreter ends with this pointer and store. */
  ghost predicate SourceReaches(src: string, s: Source, ptr: int, final: Store) {
    exists n, f :: SourceEnds(src, s, n, f) && f.ptr == ptr && f.store == final
  }

  /** From any tape, input and output, the compiled code ends exactly when the interpreter does,
      and with the same cells, pointer, remaining input and output. */
  lemma CompiledCorrect(src: string, prog: Program, at: map<nat, nat>, ptr: int, eax: int, edi: int, zf: bool,
                        store: Store, sp: int, final: Store)
    requires Compiled(src, prog, at)
    ensures MachineReaches(prog, StartMachine(ptr, eax, edi, zf, store), sp, final)
       <==> SourceReaches(src, StartSource(ptr, store), sp, final)
  {
    var s, m := StartSource(ptr, store), StartMachine(ptr, eax, edi, zf, store);
    hide RunSource, RunMachine;
    assert Matches(s, m, at);
    if n, f :| MachineEnds(prog, m, n, f) && f.sp == 4 * sp && f.store == final {
      var n', f' := MachineEndsSourceEnds(src, prog, at, s, m, n, f);
      assert f'.ptr == sp;
    }
    if n, f :| SourceEnds(src, s, n, f) && f.ptr == sp && f.store == final {
      var n', f' := SourceEndsMachineEnds(src, prog, at, s, m, n, f);
    }
  }

  /** A run that never ends is followed forever: however many tokens are executed, both sides stand
      at the same token boundary with the same state. */
  lemma {:induction false} FollowsForever(src: string, prog: Program, at: map<nat, nat>,
                                          s: Source, m: Machine, tokens: nat)
    returns (k: nat, j: nat, s': Source, m': Machine)
    requires Compiled(src, prog, at) && Matches(s, m, at)
    ensures RunSource(src, s, k) == Some(s') && RunMachine(prog, m, j) == Some(m') && Matches(s', m', at)
    ensures k >= tokens || s'.pos == |src|
    decreases tokens
  {
    hide Compiled, Emitted, StepSource, StepMachine;
    BoundaryInRange(src, prog, at, s.pos);
    if tokens == 0 || s.pos == |src| {
      k, j, s', m' := 0, 0, s, m;
    } else {
      var k1, j1, s1, m1 := TokenSimulates(src, prog, at, s, m);
      k, j, s', m' := FollowsForever(src, prog, at, s1, m1, tokens - 1);
      RunSourceMore(src, s, k1, k);
      RunMachineMore(prog, m, j1, j);
      k, j := k1 + k, j1 + j;
    }
  }
}
