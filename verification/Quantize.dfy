/** The run-time generated quantizer: a code generator that replaces 64 divisions by fixed
    table entries with multiply-and-shift sequences, and the x86 subset those sequences use. */
module Quantize {
  import opened Arithmetic
  import opened MagicNumbers
  import opened Wrappers

  const TABLE_SIZE: nat := 64

  // ----- the target machine

  datatype Instr =
    | LoadEax(offset: int)   // mov eax, [esi + offset]
    | ShrEax(count: int)
    | MovEdx(imm: int)
    | MulEdx                 // edx:eax = eax * edx
    | AddEax(imm: int)
    | AdcEdx0                // adc edx, 0
    | ShrEdx(count: int)
    | MovEaxEdx
    | StoreEax(offset: int)  // mov [edi + offset], eax
    | PushEsi
    | PushEdi
    | LoadEdi(offset: int)   // mov edi, [esp + offset]
    | LoadEsi(offset: int)   // mov esi, [esp + offset]
    | PopEdi
    | PopEsi
    | Ret

  /** Memory maps the address of each accessible 32-bit word to its contents. */
  type Memory = map<int, int>

  datatype State = State(eax: int, edx: int, carry: bool, esi: int, edi: int, esp: int, mem: Memory)

  predicate Word(x: int) {
    0 <= x < TWO32
  }

  predicate Words(mem: Memory) {
    forall a :: a in mem ==> Word(mem[a])
  }

  ghost predicate Valid(s: State) {
    Word(s.eax) && Word(s.edx) && Words(s.mem)
  }

  function Push(s: State, v: int): Option<State> {
    if s.esp - 4 in s.mem then Some(s.(esp := s.esp - 4, mem := s.mem[s.esp - 4 := v])) else None
  }

  /** One instruction; touching a word outside memory faults. Shift counts are taken modulo 32. */
  function Step(i: Instr, s: State): (r: Option<State>) {
    match i
    case LoadEax(offset) =>
      if s.esi + offset in s.mem then Some(s.(eax := s.mem[s.esi + offset])) else None
    case ShrEax(count) => Some(s.(eax := s.eax / Pow2(count % 32)))
    case MovEdx(imm) => Some(s.(edx := imm % TWO32))
    case MulEdx =>
      var p := s.eax * s.edx;
      Some(s.(eax := p % TWO32, edx := p / TWO32, carry := p >= TWO32))
    case AddEax(imm) =>
      var p := s.eax + imm % TWO32;
      Some(s.(eax := p % TWO32, carry := p >= TWO32))
    case AdcEdx0 =>
      var p := s.edx + if s.carry then 1 else 0;
      Some(s.(edx := p % TWO32, carry := p >= TWO32))
    case ShrEdx(count) => Some(s.(edx := s.edx / Pow2(count % 32)))
    case MovEaxEdx => Some(s.(eax := s.edx))
    case StoreEax(offset) =>
      if s.edi + offset in s.mem then Some(s.(mem := s.mem[s.edi + offset := s.eax])) else None
    case PushEsi => Push(s, s.esi)
    case PushEdi => Push(s, s.edi)
    case LoadEdi(offset) =>
      if s.esp + offset in s.mem then Some(s.(edi := s.mem[s.esp + offset])) else None
    case LoadEsi(offset) =>
      if s.esp + offset in s.mem then Some(s.(esi := s.mem[s.esp + offset])) else None
    case PopEdi => if s.esp in s.mem then Some(s.(edi := s.mem[s.esp], esp := s.esp + 4)) else None
    case PopEsi => if s.esp in s.mem then Some(s.(esi := s.mem[s.esp], esp := s.esp + 4)) else None
    case Ret => if s.esp in s.mem then Some(s.(esp := s.esp + 4)) else None
  }

  function Run(code: seq<Instr>, s: State): (r: Option<State>)
    decreases |code|
  {
    if code == [] then Some(s)
    else
      match Step(code[0], s)
      case None => None
      case Some(s') => Run(code[1..], s')
  }

  lemma {:induction false} RunConcat(a: seq<Instr>, b: seq<Instr>, s: State)
    ensures Run(a + b, s) == if Run(a, s).None? then None else Run(b, Run(a, s).value)
    decreases |a|
  {
    if a == [] {
      assert a + b == b;
    } else {
      assert (a + b)[1..] == a[1..] + b;
      if Step(a[0], s).Some? {
        RunConcat(a[1..], b, Step(a[0], s).value);
      }
    }
  }

  // ----- what a generated division must do

  /** The divisors the generator is defined for: a positive int whose odd part is below 2^30. */
  predicate Divisor(d: int) {
    0 < d < 0x8000_0000 && OddPart(d) < 0x4000_0000
  }

  function OddPart(d: nat): (odd: nat)
    requires d > 0
    ensures odd % 2 == 1
  {
    if d % 2 == 1 then d else OddPart(d / 2)
  }

  /** Running `code` leaves the quotient of the word at `esi + offset` by `d` in eax and
      touches nothing but eax, edx and the carry. */
  ghost predicate Divides(code: seq<Instr>, d: int, offset: int)
    requires d > 0
  {
    forall s: State :: Valid(s) && s.esi + offset in s.mem ==> QuotientIn(Run(code, s), s, d, offset)
  }

  predicate QuotientIn(r: Option<State>, s: State, d: int, offset: int)
    requires d > 0 && s.esi + offset in s.mem
  {
    && r.Some?
    && r.value.eax == s.mem[s.esi + offset] / d
    && Word(r.value.edx)
    && r.value == s.(eax := r.value.eax, edx := r.value.edx, carry := r.value.carry)
  }

  // ----- the emitted shapes, executed

  lemma TrivialCode(d: nat, offset: int, exponent: nat)
    requires exponent < 32 && d == Pow2(exponent)
    ensures Divides([LoadEax(offset)] + if exponent != 0 then [ShrEax(exponent)] else [], d, offset)
  {
    var tail := if exponent != 0 then [ShrEax(exponent)] else [];
    forall s: State | Valid(s) && s.esi + offset in s.mem
      ensures QuotientIn(Run([LoadEax(offset)] + tail, s), s, d, offset)
    {
      assert ([LoadEax(offset)] + tail)[1..] == tail;
      var s1 := s.(eax := s.mem[s.esi + offset]);
      assert Run(tail, s1) == Some(s1.(eax := s1.eax / d)) by {
        if exponent != 0 {
          assert tail[1..] == [];
        }
      }
    }
  }

  function CarryAndShift(m: int, add: bool, shift: int): seq<Instr> {
    (if add then [AddEax(m), AdcEdx0] else [])
    + ((if shift != 0 then [ShrEdx(shift)] else []) + [MovEaxEdx])
  }

  function MultiplyCode(offset: int, m: int, add: bool, shift: int): seq<Instr> {
    [LoadEax(offset), MovEdx(m), MulEdx] + CarryAndShift(m, add, shift)
  }

  lemma RunOne(i: Instr, rest: seq<Instr>, s: State, s': State)
    requires Step(i, s) == Some(s')
    ensures Run([i] + rest, s) == Run(rest, s')
  {
    assert ([i] + rest)[1..] == rest;
  }

  lemma RunsNothing(s: State)
    ensures Run([], s) == Some(s)
  {
  }

  lemma RunLoads(offset: int, m: nat, rest: seq<Instr>, s: State)
    requires 0 < m < TWO32 && s.esi + offset in s.mem
    ensures Run([LoadEax(offset), MovEdx(m)] + rest, s) == Run(rest, s.(eax := s.mem[s.esi + offset], edx := m))
  {
    hide Run;
    var s1 := s.(eax := s.mem[s.esi + offset]);
    assert [LoadEax(offset), MovEdx(m)] + rest == [LoadEax(offset)] + ([MovEdx(m)] + rest);
    RunOne(LoadEax(offset), [MovEdx(m)] + rest, s, s1);
    RunOne(MovEdx(m), rest, s1, s1.(edx := m));
  }

  /** Load and multiply: edx:eax holds the full product. */
  lemma RunHead(offset: int, m: nat, rest: seq<Instr>, s: State)
    requires 0 < m < TWO32
    requires s.esi + offset in s.mem
    ensures
      var p := s.mem[s.esi + offset] * m;
      Run([LoadEax(offset), MovEdx(m), MulEdx] + rest, s)
      == Run(rest, s.(eax := p % TWO32, edx := p / TWO32, carry := p >= TWO32))
  {
    assert [LoadEax(offset), MovEdx(m), MulEdx] + rest == [LoadEax(offset), MovEdx(m)] + ([MulEdx] + rest);
    RunLoads(offset, m, [MulEdx] + rest, s);
    var p := s.mem[s.esi + offset] * m;
    var s1 := s.(eax := s.mem[s.esi + offset], edx := m);
    RunOne(MulEdx, rest, s1, s1.(eax := p % TWO32, edx := p / TWO32, carry := p >= TWO32));
  }

  /** The optional add/adc pair: the carry reaches the high word. */
  lemma RunCarry(p: nat, m: nat, rest: seq<Instr>, s: State) returns (low: int, carry: bool)
    requires m < TWO32 && (p + m) / TWO32 < TWO32
    requires s.eax == p % TWO32 && s.edx == p / TWO32
    ensures Run([AddEax(m), AdcEdx0] + rest, s) == Run(rest, s.(eax := low, edx := (p + m) / TWO32, carry := carry))
  {
    var q := s.eax + m;
    low, carry := q % TWO32, s.edx + (if q >= TWO32 then 1 else 0) >= TWO32;
    var s1 := s.(eax := low, carry := q >= TWO32);
    assert [AddEax(m), AdcEdx0] + rest == [AddEax(m)] + ([AdcEdx0] + rest);
    RunOne(AddEax(m), [AdcEdx0] + rest, s, s1);
    CarryIntoHigh(p, m);
    RunOne(AdcEdx0, rest, s1, s1.(edx := (p + m) / TWO32, carry := carry));
  }

  lemma RunShiftAndMove(shift: nat, s: State)
    requires shift < 32 && Word(s.edx)
    ensures
      var shr := if shift != 0 then [ShrEdx(shift)] else [];
      var v := s.edx / Pow2(shift);
      Word(v) && Run(shr + [MovEaxEdx], s) == Some(s.(eax := v, edx := v))
  {
    var v := s.edx / Pow2(shift);
    QuotientShrinks(s.edx, Pow2(shift));
    assert [MovEaxEdx] == [MovEaxEdx] + [];
    if shift != 0 {
      assert shift % 32 == shift;
      RunOne(ShrEdx(shift), [MovEaxEdx], s, s.(edx := v));
      RunOne(MovEaxEdx, [], s.(edx := v), s.(eax := v, edx := v));
    } else {
      assert [] + [MovEaxEdx] == [MovEaxEdx];
      assert v == s.edx;
      RunOne(MovEaxEdx, [], s, s.(eax := v));
    }
  }

  lemma QuotientShrinks(a: nat, b: nat)
    requires b > 0
    ensures 0 <= a / b <= a
  {
    DivisionBounds(a, b);
    if a / b > a { MulMonotonic(1, b, a / b); }
  }

  lemma RunCarryAndShift(p: nat, m: nat, add: bool, shift: nat, s: State)
    requires m < TWO32 && shift < 32
    requires p / TWO32 < TWO32 && (p + m) / TWO32 < TWO32
    requires s.eax == p % TWO32 && s.edx == p / TWO32
    ensures
      var high := (if add then p + m else p) / TWO32;
      var r := Run(CarryAndShift(m, add, shift), s);
      && r.Some? && r.value.eax == high / Pow2(shift) && Word(r.value.edx)
      && r.value == s.(eax := r.value.eax, edx := r.value.edx, carry := r.value.carry)
  {
    var tail := (if shift != 0 then [ShrEdx(shift)] else []) + [MovEaxEdx];
    if add {
      var low, carry := RunCarry(p, m, tail, s);
      RunShiftAndMove(shift, s.(eax := low, edx := (p + m) / TWO32, carry := carry));
    } else {
      assert [] + tail == tail;
      RunShiftAndMove(shift, s);
    }
  }

  /** The high word of the product, or of the incremented product, shifted. */
  lemma RunMultiply(offset: int, m: nat, add: bool, shift: nat, s: State)
    requires 0 < m < TWO32 && shift < 32
    requires Valid(s) && s.esi + offset in s.mem
    ensures
      var n := s.mem[s.esi + offset];
      var high := (if add then (n + 1) * m else n * m) / TWO32;
      var r := Run(MultiplyCode(offset, m, add, shift), s);
      && r.Some? && r.value.eax == high / Pow2(shift) && Word(r.value.edx)
      && r.value == s.(eax := r.value.eax, edx := r.value.edx, carry := r.value.carry)
  {
    hide Run, Step;
    var n := s.mem[s.esi + offset];
    var p := n * m;
    ProductFits(n, m);
    assert (n + 1) * m == p + m;
    RunHead(offset, m, CarryAndShift(m, add, shift), s);
    RunCarryAndShift(p, m, add, shift, s.(eax := p % TWO32, edx := p / TWO32, carry := p >= TWO32));
  }

  lemma ProductFits(n: nat, m: nat)
    requires n < TWO32 && 0 < m < TWO32
    ensures 0 <= n * m / TWO32 < TWO32 && 0 <= (n * m + m) / TWO32 < TWO32
  {
    MulMonotonic(n + 1, TWO32, m);
    assert (n + 1) * m == n * m + m;
  }

  lemma CarryIntoHigh(p: nat, m: nat)
    requires m < TWO32 && (p + m) / TWO32 < TWO32
    ensures (p / TWO32 + (if p % TWO32 + m >= TWO32 then 1 else 0)) % TWO32 == (p + m) / TWO32
  {
  }

  /** Dividing the high word is dividing the full product. */
  lemma HighWordQuotient(x: nat, odd: nat, exponent: nat, len: nat, n: nat)
    requires odd > 0 && x / Pow2(32 + len) == n / odd
    ensures odd * Pow2(exponent) > 0
    ensures x / TWO32 / Pow2(len + exponent) == n / (odd * Pow2(exponent))
  {
    Pow2Values();
    Pow2Add(32, len);
    Pow2Add(len, exponent);
    NestedDivision(x, TWO32, Pow2(len));
    NestedDivision(x / TWO32, Pow2(len), Pow2(exponent));
    NestedDivision(n, odd, Pow2(exponent));
  }

  /** An exact multiplier gives the quotient of every 32-bit numerator. */
  lemma MagicQuotient(n: nat, odd: nat, exponent: nat, m: nat, add: bool, len: nat)
    requires n < TWO32 && 1 < odd < 0x8000_0000 && odd % 2 == 1
    requires if add then RoundDown(odd, m, len) else RoundUp(odd, m, len)
    ensures odd * Pow2(exponent) > 0
    ensures (if add then (n + 1) * m else n * m) / TWO32 / Pow2(len + exponent) == n / (odd * Pow2(exponent))
  {
    var x := if add then (n + 1) * m else n * m;
    assert x / Pow2(32 + len) == n / odd by {
      if add {
        RoundDownExact(n, odd, m, len);
      } else {
        RoundUpExact(n, odd, m, len);
      }
    }
    HighWordQuotient(x, odd, exponent, len, n);
  }

  lemma MultiplyDivides(d: nat, offset: int, odd: nat, exponent: nat, m: nat, add: bool, len: nat)
    requires 1 < odd < 0x8000_0000 && odd % 2 == 1 && d == odd * Pow2(exponent)
    requires 0 < m < TWO32 && len + exponent < 32
    requires if add then RoundDown(odd, m, len) else RoundUp(odd, m, len)
    ensures d > 0 && Divides(MultiplyCode(offset, m, add, len + exponent), d, offset)
  {
    MagicQuotient(0, odd, exponent, m, add, len);
    forall s: State | Valid(s) && s.esi + offset in s.mem
      ensures QuotientIn(Run(MultiplyCode(offset, m, add, len + exponent), s), s, d, offset)
    {
      RunMultiply(offset, m, add, len + exponent, s);
      MagicQuotient(s.mem[s.esi + offset], odd, exponent, m, add, len);
    }
  }

  // ----- the generator

  /** floor(log2 x): a counting loop over the powers of two. */
  method ILog2(x: int) returns (r: int)
    requires 0 < x < 0x4000_0000
    ensures 0 <= r < 30 && HasBits(x, r + 1)
  {
    Pow2Values();
    var shift := 0;
    while Pow2(shift) <= x
      invariant 0 <= shift <= 30
      invariant shift > 0 ==> Pow2(shift - 1) <= x
      decreases 30 - shift
    {
      Pow2Below(shift, 30);
      shift := shift + 1;
    }
    r := shift - 1;
  }

  lemma MoveFactor(a: int, p: int)
    ensures (2 * a) * p == a * (2 * p)
  {
  }

  lemma ExponentFits(d: nat, odd: nat, exponent: nat)
    requires 0 < d < 0x8000_0000 && d == odd * Pow2(exponent)
    ensures exponent < 31
  {
    Pow2Values();
    if odd > 0 { MulMonotonic(1, odd, Pow2(exponent)); }
    Pow2Below(exponent, 31);
  }

  lemma ShiftFits(d: nat, odd: nat, exponent: nat, len: nat)
    requires 0 < d < 0x8000_0000 && d == odd * Pow2(exponent)
    requires Pow2(len) <= odd
    ensures len + exponent < 31
  {
    assert Pow2(len + exponent) <= d by {
      MulMonotonic(Pow2(len), odd, Pow2(exponent));
      Pow2Add(len, exponent);
    }
    assert Pow2(31) == 0x8000_0000 by { Pow2Values(); }
    Pow2Below(len + exponent, 31);
  }

  /** The starting bracket of the search. */
  method SearchBounds(odd: int, len: int) returns (mLow: int, mHigh: int)
    requires 1 < odd < 0x4000_0000 && odd % 2 == 1 && len >= 0 && HasBits(odd, len)
    ensures LastMultiple(odd) > 0 && Searching(odd, len, mLow, mHigh, len)
  {
    SearchStarts(odd, len);
    var roundUp := Pow2(32 + len);
    var k := roundUp / (0xFFFF_FFFF - 0xFFFF_FFFF % odd);
    mLow, mHigh := roundUp / odd, (roundUp + k) / odd;
  }

  /** The multiplier nearest to the quotient: rounded down if the remainder is in the lower half. */
  method FallBack(odd: int, len: int) returns (m: int)
    requires odd > 0 && len >= 0
    ensures -odd <= 2 * (m * odd - Pow2(32 + len)) <= odd
    ensures Pow2(32 + len) % odd <= odd / 2 ==> m == Pow2(32 + len) / odd
  {
    var roundDown := Pow2(32 + len);
    var mLow := roundDown / odd;
    var r := roundDown % odd;
    m := if r <= odd / 2 then mLow else mLow + 1;
    assert roundDown == mLow * odd + r;
    assert (mLow + 1) * odd == mLow * odd + odd;
  }

  /** The search for a multiplier: shrink an upper multiplier while a smaller one still brackets,
      and fall back to the rounded-down multiplier with an extra addition otherwise. */
  method FindMultiplier(odd: int) returns (m: int, add: bool, len: int)
    requires 1 < odd < 0x4000_0000 && odd % 2 == 1
    ensures 0 < m < TWO32 && len >= 0 && Pow2(len) <= odd
    ensures if add then RoundDown(odd, m, len) else RoundUp(odd, m, len)
  {
    var log := ILog2(odd);
    len := log + 1;
    var mLow, mHigh := SearchBounds(odd, len);
    while mLow / 2 < mHigh / 2 && len > 0
      invariant 0 <= len
      invariant Searching(odd, log + 1, mLow, mHigh, len)
      decreases len
    {
      SearchSteps(odd, log + 1, mLow, mHigh, len);
      mLow, mHigh, len := mLow / 2, mHigh / 2, len - 1;
    }
    SearchEnds(odd, log + 1, mLow, mHigh, len, Pow2(32 + log));
    if mHigh / TWO32 == 0 {
      m, add := mHigh, false;
    } else {
      len := log;
      m := FallBack(odd, len);
      add := true;
    }
  }

  /** Dropping the trailing zeros of the multiplier together with as much of the shift. */
  method StripZeros(odd: int, m0: int, add: bool, len0: int) returns (m: int, len: int)
    requires 1 < odd < 0x4000_0000 && odd % 2 == 1
    requires 0 < m0 < TWO32 && len0 >= 0 && Pow2(len0) <= odd
    requires if add then RoundDown(odd, m0, len0) else RoundUp(odd, m0, len0)
    ensures m % 2 == 1 && 0 < m < TWO32 && 0 <= len <= len0 && Pow2(len) <= odd
    ensures if add then RoundDown(odd, m, len) else RoundUp(odd, m, len)
  {
    m, len := m0, len0;
    while m % 2 == 0
      invariant 0 < m < TWO32 && 0 <= len <= len0
      invariant if add then RoundDown(odd, m, len) else RoundUp(odd, m, len)
      decreases m
    {
      if add {
        HalveRoundDown(odd, m, len);
      } else {
        HalveRoundUp(odd, m, len);
      }
      m, len := m / 2, len - 1;
    }
    Pow2Monotonic(len, len0);
  }

  /** dividend = odd * 2^exponent. */
  method SplitOdd(dividend: int) returns (odd: int, exponent: int)
    requires Divisor(dividend)
    ensures odd == OddPart(dividend) && 0 <= exponent < 31 && dividend == odd * Pow2(exponent)
  {
    exponent, odd := 0, dividend;
    while odd % 2 == 0
      invariant odd > 0 && exponent >= 0 && dividend == odd * Pow2(exponent)
      invariant OddPart(odd) == OddPart(dividend)
      decreases odd
    {
      MoveFactor(odd / 2, Pow2(exponent));
      odd, exponent := odd / 2, exponent + 1;
    }
    ExponentFits(dividend, odd, exponent);
  }

  // ----- the whole table

  predicate Table(q: seq<int>) {
    |q| == TABLE_SIZE && forall i :: 0 <= i < |q| ==> Divisor(q[i])
  }

  ghost predicate Accessible(mem: Memory, base: int) {
    forall i :: 0 <= i < TABLE_SIZE ==> base + 4 * i in mem
  }

  /** The reference loop: dest[i] = src[i] / q[i] in index order. The arrays may overlap. */
  ghost function Quantized(mem: Memory, dest: int, src: int, q: seq<int>, n: nat): (r: Memory)
    requires n <= TABLE_SIZE && Table(q)
    requires Accessible(mem, dest) && Accessible(mem, src) && Words(mem)
    ensures r.Keys == mem.Keys && Words(r)
  {
    if n == 0 then mem
    else
      var m := Quantized(mem, dest, src, q, n - 1);
      QuotientShrinks(m[src + 4 * (n - 1)], q[n - 1]);
      m[dest + 4 * (n - 1) := m[src + 4 * (n - 1)] / q[n - 1]]
  }

  /** An address outside the first n words of an array. */
  predicate Apart(a: int, base: int, n: nat) {
    forall i :: 0 <= i < n ==> a != base + 4 * i
  }

  lemma QuantizedLast(mem: Memory, dest: int, src: int, q: seq<int>, n: nat)
    requires 0 < n <= TABLE_SIZE && Table(q) && Accessible(mem, dest) && Accessible(mem, src) && Words(mem)
    ensures
      var m := Quantized(mem, dest, src, q, n - 1);
      && dest + 4 * (n - 1) in m && src + 4 * (n - 1) in m
      && Quantized(mem, dest, src, q, n) == m[dest + 4 * (n - 1) := m[src + 4 * (n - 1)] / q[n - 1]]
  {
  }

  lemma {:induction false} UntouchedApart(mem: Memory, dest: int, src: int, q: seq<int>, n: nat, a: int)
    requires n <= TABLE_SIZE && Table(q) && Accessible(mem, dest) && Accessible(mem, src) && Words(mem)
    requires a in mem && Apart(a, dest, n)
    ensures Quantized(mem, dest, src, q, n)[a] == mem[a]
  {
    if n > 0 {
      UntouchedApart(mem, dest, src, q, n - 1, a);
      QuantizedLast(mem, dest, src, q, n);
      hide Quantized;
    }
  }

  lemma {:induction false} QuotientAt(mem: Memory, dest: int, src: int, q: seq<int>, n: nat, i: nat)
    requires i < n <= TABLE_SIZE && Table(q) && Accessible(mem, dest) && Accessible(mem, src) && Words(mem)
    requires dest + 4 * TABLE_SIZE <= src || src + 4 * TABLE_SIZE <= dest
    ensures Quantized(mem, dest, src, q, n)[dest + 4 * i] == mem[src + 4 * i] / q[i]
  {
    hide Quantized;
    QuantizedLast(mem, dest, src, q, n);
    if i < n - 1 {
      QuotientAt(mem, dest, src, q, n - 1, i);
    } else {
      UntouchedApart(mem, dest, src, q, n - 1, src + 4 * i);
    }
  }

  /** Between disjoint arrays every quotient is of the original source word, and nothing but
      the destination changes. */
  lemma QuantizedPointwise(mem: Memory, dest: int, src: int, q: seq<int>, n: nat)
    requires n <= TABLE_SIZE && Table(q)
    requires Accessible(mem, dest) && Accessible(mem, src) && Words(mem)
    requires dest + 4 * TABLE_SIZE <= src || src + 4 * TABLE_SIZE <= dest
    ensures forall i :: 0 <= i < n ==> Quantized(mem, dest, src, q, n)[dest + 4 * i] == mem[src + 4 * i] / q[i]
    ensures forall a :: a in mem && Apart(a, dest, n) ==> Quantized(mem, dest, src, q, n)[a] == mem[a]
  {
    hide Quantized;
    forall i | 0 <= i < n
      ensures Quantized(mem, dest, src, q, n)[dest + 4 * i] == mem[src + 4 * i] / q[i]
    {
      QuotientAt(mem, dest, src, q, n, i);
    }
    forall a | a in mem && Apart(a, dest, n)
      ensures Quantized(mem, dest, src, q, n)[a] == mem[a]
    {
      UntouchedApart(mem, dest, src, q, n, a);
    }
  }

  /** Code for the first n entries does to memory what the reference loop does. */
  ghost predicate Quantizes(code: seq<Instr>, q: seq<int>, n: nat)
    requires n <= TABLE_SIZE && Table(q)
  {
    forall s: State :: Valid(s) && Accessible(s.mem, s.edi) && Accessible(s.mem, s.esi)
                       ==> QuantizedBy(Run(code, s), s, q, n)
  }

  ghost predicate QuantizedBy(r: Option<State>, s: State, q: seq<int>, n: nat)
    requires n <= TABLE_SIZE && Table(q)
    requires Accessible(s.mem, s.edi) && Accessible(s.mem, s.esi) && Words(s.mem)
  {
    && r.Some? && Valid(r.value) && r.value.esi == s.esi && r.value.edi == s.edi && r.value.esp == s.esp
    && r.value.mem == Quantized(s.mem, s.edi, s.esi, q, n)
  }

  lemma QuantizesNothing(q: seq<int>)
    requires Table(q)
    ensures Quantizes([], q, 0)
  {
  }

  lemma RunStore(entry: seq<Instr>, d: int, offset: int, s: State)
    requires d > 0 && Divides(entry, d, offset)
    requires Valid(s) && s.esi + offset in s.mem && s.edi + offset in s.mem
    ensures
      var r := Run(entry + [StoreEax(offset)], s);
      && r.Some? && Valid(r.value) && r.value.esi == s.esi && r.value.edi == s.edi && r.value.esp == s.esp
      && r.value.mem == s.mem[s.edi + offset := s.mem[s.esi + offset] / d]
  {
    assert QuotientIn(Run(entry, s), s, d, offset);
    hide Run, Divides;
    RunConcat(entry, [StoreEax(offset)], s);
    var s2 := Run(entry, s).value;
    var s3 := s2.(mem := s2.mem[s2.edi + offset := s2.eax]);
    QuotientShrinks(s.mem[s.esi + offset], d);
    assert Step(StoreEax(offset), s2) == Some(s3);
    hide Step, QuotientIn;
    assert [StoreEax(offset)] == [StoreEax(offset)] + [];
    RunOne(StoreEax(offset), [], s2, s3);
    RunsNothing(s3);
  }

  lemma WordInTable(mem: Memory, base: int, n: nat)
    requires n < TABLE_SIZE && Accessible(mem, base)
    ensures base + 4 * n in mem
  {
  }

  /** Storing one more quotient extends what the reference loop has done. */
  lemma RunOneMore(s1: State, s: State, entry: seq<Instr>, q: seq<int>, n: nat)
    requires n < TABLE_SIZE && Table(q) && Divides(entry, q[n], 4 * n)
    requires Valid(s) && Accessible(s.mem, s.edi) && Accessible(s.mem, s.esi)
    requires QuantizedBy(Some(s1), s, q, n)
    ensures QuantizedBy(Run(entry + [StoreEax(4 * n)], s1), s, q, n + 1)
  {
    hide Run, Step;
    WordInTable(s.mem, s.esi, n);
    WordInTable(s.mem, s.edi, n);
    RunStore(entry, q[n], 4 * n, s1);
  }

  lemma QuantizesOneMore(code: seq<Instr>, entry: seq<Instr>, q: seq<int>, n: nat)
    requires n < TABLE_SIZE && Table(q)
    requires Quantizes(code, q, n) && Divides(entry, q[n], 4 * n)
    ensures Quantizes(code + (entry + [StoreEax(4 * n)]), q, n + 1)
  {
    forall s: State | Valid(s) && Accessible(s.mem, s.edi) && Accessible(s.mem, s.esi)
      ensures QuantizedBy(Run(code + (entry + [StoreEax(4 * n)]), s), s, q, n + 1)
    {
      RunConcat(code, entry + [StoreEax(4 * n)], s);
      RunOneMore(Run(code, s).value, s, entry, q, n);
    }
  }

  // ----- the generated function

  const PROLOGUE: seq<Instr> := [PushEsi, PushEdi, LoadEdi(12), LoadEsi(16)]
  const EPILOGUE: seq<Instr> := [PopEdi, PopEsi, Ret]

  /** On entry the return address is on top of the stack, above it the two pointers; the two words
      below it are free and no part of either array, and the destination does not hold the address. */
  ghost predicate Callable(s: State) {
    && Valid(s) && Word(s.esi) && Word(s.edi)
    && s.esp - 8 in s.mem && s.esp - 4 in s.mem && s.esp in s.mem && s.esp + 4 in s.mem && s.esp + 8 in s.mem
    && var dest, src := s.mem[s.esp + 4], s.mem[s.esp + 8];
       && Accessible(s.mem, dest) && Accessible(s.mem, src)
       && Apart(s.esp - 8, dest, TABLE_SIZE) && Apart(s.esp - 4, dest, TABLE_SIZE) && Apart(s.esp, dest, TABLE_SIZE)
  }

  /** The words below the return address hold the caller's registers. */
  function Saved(s: State): Memory {
    s.mem[s.esp - 4 := s.esi][s.esp - 8 := s.edi]
  }

  /** A call returns with the caller's registers, having done to memory what the reference loop does. */
  ghost predicate Returns(r: Option<State>, s: State, q: seq<int>)
    requires Table(q) && Callable(s)
  {
    && r.Some? && r.value.esi == s.esi && r.value.edi == s.edi && r.value.esp == s.esp + 4
    && Entered(s) && r.value.mem == Quantized(Saved(s), s.mem[s.esp + 4], s.mem[s.esp + 8], q, TABLE_SIZE)
  }

  ghost predicate Entered(s: State)
    requires Callable(s)
  {
    && Words(Saved(s)) && Accessible(Saved(s), s.mem[s.esp + 4]) && Accessible(Saved(s), s.mem[s.esp + 8])
  }

  lemma RunPrologue(s: State)
    requires Callable(s)
    ensures Entered(s)
    ensures Run(PROLOGUE, s)
        == Some(s.(esi := s.mem[s.esp + 8], edi := s.mem[s.esp + 4], esp := s.esp - 8, mem := Saved(s)))
  {
    var s1 := s.(esp := s.esp - 4, mem := s.mem[s.esp - 4 := s.esi]);
    var s2 := s1.(esp := s.esp - 8, mem := Saved(s));
    var s3 := s2.(edi := s.mem[s.esp + 4]);
    var s4 := s3.(esi := s.mem[s.esp + 8]);
    assert Step(PushEsi, s) == Some(s1) && Step(PushEdi, s1) == Some(s2);
    assert Step(LoadEdi(12), s2) == Some(s3) && Step(LoadEsi(16), s3) == Some(s4);
    hide Step, Callable, Run;
    assert PROLOGUE == [PushEsi] + ([PushEdi] + ([LoadEdi(12)] + ([LoadEsi(16)] + [])));
    RunOne(PushEsi, [PushEdi] + ([LoadEdi(12)] + ([LoadEsi(16)] + [])), s, s1);
    RunOne(PushEdi, [LoadEdi(12)] + ([LoadEsi(16)] + []), s1, s2);
    RunOne(LoadEdi(12), [LoadEsi(16)] + [], s2, s3);
    RunOne(LoadEsi(16), [], s3, s4);
    RunsNothing(s4);
  }

  lemma RunEpilogue(s: State)
    requires s.esp in s.mem && s.esp + 4 in s.mem && s.esp + 8 in s.mem
    ensures Run(EPILOGUE, s) == Some(s.(edi := s.mem[s.esp], esi := s.mem[s.esp + 4], esp := s.esp + 12))
  {
    var s1 := s.(edi := s.mem[s.esp], esp := s.esp + 4);
    var s2 := s1.(esi := s.mem[s.esp + 4], esp := s.esp + 8);
    assert EPILOGUE == [PopEdi] + ([PopEsi] + ([Ret] + []));
    RunOne(PopEdi, [PopEsi] + ([Ret] + []), s, s1);
    RunOne(PopEsi, [Ret] + [], s1, s2);
    RunOne(Ret, [], s2, s2.(esp := s.esp + 12));
  }

  /** What the body leaves where the registers were saved. */
  lemma SavedSurvive(s: State, q: seq<int>)
    requires Table(q) && Callable(s) && Entered(s)
    ensures
      var mem := Quantized(Saved(s), s.mem[s.esp + 4], s.mem[s.esp + 8], q, TABLE_SIZE);
      && s.esp - 8 in mem && s.esp - 4 in mem && s.esp in mem && mem[s.esp - 8] == s.edi && mem[s.esp - 4] == s.esi
  {
    UntouchedApart(Saved(s), s.mem[s.esp + 4], s.mem[s.esp + 8], q, TABLE_SIZE, s.esp - 8);
    UntouchedApart(Saved(s), s.mem[s.esp + 4], s.mem[s.esp + 8], q, TABLE_SIZE, s.esp - 4);
  }

  lemma FunctionReturns(body: seq<Instr>, q: seq<int>, s: State)
    requires Table(q) && Quantizes(body, q, TABLE_SIZE) && Callable(s)
    ensures Returns(Run(PROLOGUE + body + EPILOGUE, s), s, q)
  {
    hide Run, Quantized, Accessible, Words, Apart;
    RunPrologue(s);
    SavedSurvive(s, q);
    var s1 := Run(PROLOGUE, s).value;
    assert QuantizedBy(Run(body, s1), s1, q, TABLE_SIZE);
    hide Quantizes;
    RunEpilogue(Run(body, s1).value);
    RunConcat(PROLOGUE, body, s);
    RunConcat(PROLOGUE + body, EPILOGUE, s);
  }

  /** Called from any state, the code quantizes. */
  ghost predicate IsQuantizer(code: seq<Instr>, q: seq<int>)
    requires Table(q)
  {
    forall s :: Callable(s) ==> Returns(Run(code, s), s, q)
  }

  lemma WholeFunction(body: seq<Instr>, q: seq<int>)
    requires Table(q) && Quantizes(body, q, TABLE_SIZE)
    ensures IsQuantizer(PROLOGUE + body + EPILOGUE, q)
  {
    hide Quantizes, Callable, Returns, Run;
    forall s | Callable(s)
      ensures Returns(Run(PROLOGUE + body + EPILOGUE, s), s, q)
    {
      FunctionReturns(body, q, s);
    }
  }

  class Generator {
    var code: seq<Instr>

    /** Appends a division of the word at esi + offset by `dividend`. */
    method Udiv(dividend: int, offset: int)
      requires Divisor(dividend)
      modifies this
      ensures old(code) <= code
      ensures Divides(code[|old(code)|..], dividend, offset)
    {
      ghost var before := code;
      code := code + [LoadEax(offset)];
      var odd, exponent := SplitOdd(dividend);
      if odd == 1 {
        if exponent != 0 {
          code := code + [ShrEax(exponent)];
        }
        assert code[|before|..] == [LoadEax(offset)] + if exponent != 0 then [ShrEax(exponent)] else [];
        TrivialCode(dividend, offset, exponent);
      } else {
        var m, add, len := FindMultiplier(odd);
        m, len := StripZeros(odd, m, add, len);
        ShiftFits(dividend, odd, exponent, len);
        MultiplyDivides(dividend, offset, odd, exponent, m, add, len);
        len := len + exponent;
        code := code + [MovEdx(m), MulEdx];
        if add {
          code := code + [AddEax(m), AdcEdx0];
        }
        if len != 0 {
          code := code + [ShrEdx(len)];
        }
        code := code + [MovEaxEdx];
        assert code[|before|..] == MultiplyCode(offset, m, add, len);
      }
    }

    /** One entry of the table: divide and store. */
    method Entry(qTbl: seq<int>, i: int)
      requires 0 <= i < TABLE_SIZE && Table(qTbl)
      requires PROLOGUE <= code && Quantizes(code[4..], qTbl, i)
      modifies this
      ensures PROLOGUE <= code && Quantizes(code[4..], qTbl, i + 1)
    {
      ghost var before := code;
      Udiv(qTbl[i], i * 4);
      QuantizesOneMore(before[4..], code[|before|..], qTbl, i);
      assert (code + [StoreEax(i * 4)])[4..] == before[4..] + (code[|before|..] + [StoreEax(4 * i)]);
      code := code + [StoreEax(i * 4)];
    }

    /** Generates the whole quantizer for one table: calling it quantizes. */
    constructor (qTbl: seq<int>)
      requires Table(qTbl)
      ensures IsQuantizer(code, qTbl)
    {
      code := PROLOGUE;
      new;
      hide Quantizes, IsQuantizer, Table;
      QuantizesNothing(qTbl);
      assert PROLOGUE[4..] == [];
      for i := 0 to TABLE_SIZE
        invariant PROLOGUE <= code && Quantizes(code[4..], qTbl, i)
      {
        Entry(qTbl, i);
      }
      ghost var body := code[4..];
      assert code == PROLOGUE + body;
      code := code + EPILOGUE;
      WholeFunction(body, qTbl);
    }
  }
}
