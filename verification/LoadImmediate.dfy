/** Materialising constants and far calls: the instruction sequences of LI and CALL, and what
    executing them does. */
module LoadImmediate {
  import opened Arithmetic
  import opened Words
  import opened RiscV
  import opened Wrappers

  // ----- single instructions

  function LuiWord(rd: Reg, imm: int): Word { EncodeU(U32(imm), rd, 0x37) }
  function AuipcWord(rd: Reg, imm: int): Word { EncodeU(U32(imm), rd, 0x17) }
  function AddiWord(rd: Reg, rs1: Reg, imm: int): Word { EncodeI(U32(imm), rs1, 0, rd, 0x13) }
  function AddiwWord(rd: Reg, rs1: Reg, imm: int): Word { EncodeI(U32(imm), rs1, 0, rd, 0x1B) }
  function SlliWord(rd: Reg, rs1: Reg, shift: int): Word { EncodeI(U32(shift % 64), rs1, 1, rd, 0x13) }
  function JalrWord(rd: Reg, imm: int, rs1: Reg): Word { EncodeI(U32(imm), rs1, 0, rd, 0x67) }

  // ----- the sequence LI emits

  /** Two's complement value of a 64-bit pattern. */
  function Value64(imm: int): int {
    if imm < 0x8000_0000_0000_0000 then imm else imm - TWO64
  }

  /** (int64_t)(imm << 32) >> 32 == imm */
  predicate FitsWord(imm: int) {
    SignedWord(imm % TWO32) % TWO64 == imm
  }

  function Hi20(imm: int): int {
    (imm % TWO32 + 0x800) % TWO32 / 4096
  }

  /** LUI and/or an add of the low 12 bits; `wide` selects ADDIW. */
  function ShortWords(rd: Reg, imm: int, wide: bool): seq<Word> {
    var hi20 := Hi20(imm);
    var lo12 := imm % 4096;
    var rs1: Reg := if hi20 != 0 then rd else 0;
    (if hi20 != 0 then [LuiWord(rd, hi20)] else [])
    + (if lo12 != 0 || hi20 == 0 then [if wide then AddiwWord(rd, rs1, lo12) else AddiWord(rd, rs1, lo12)] else [])
  }

  function Ctz(n: nat): nat
    requires n > 0
  {
    if n % 2 == 1 then 0 else 1 + Ctz(n / 2)
  }

  /** The bits of `imm` above its sign-adjusted low 12. */
  function Hi52(imm: int): int {
    (imm + 0x800) % TWO64 / 4096
  }

  function Lo12(imm: int): int {
    if imm % 4096 < 0x800 then imm % 4096 else imm % 4096 - 4096
  }

  /** (int64_t)(hi52 >> (shift - 12)) << shift >> shift, as a signed value. */
  function Upper(hi52: nat): int
    requires 0 < hi52 < 0x10_0000_0000_0000
  {
    CtzSplits(hi52);
    var c := Ctz(hi52);
    var rest := hi52 / Pow2(c) % Pow2(52 - c);
    if rest < Pow2(51 - c) then rest else rest - Pow2(52 - c)
  }

  /** How many more times the recursion can descend. */
  function Level(imm: int): nat {
    var v := Value64(imm);
    if -0x8000_0000 <= v < 0x8000_0000 then 0
    else if -0x80_0000_0000 <= v < 0x80_0000_0000 then 1
    else if -0x8_0000_0000_0000 <= v < 0x8_0000_0000_0000 then 2
    else 3
  }

  lemma {:induction false} CtzSplits(n: nat)
    requires 0 < n < 0x10_0000_0000_0000
    ensures Ctz(n) < 52 && Pow2(Ctz(n)) <= n
    ensures n == n / Pow2(Ctz(n)) * Pow2(Ctz(n))
    ensures (n / Pow2(Ctz(n))) % 2 == 1
  {
    hide Pow2, Ctz;
    var q := CtzQuotient(n);
    var p := Pow2(Ctz(n));
    ExactQuotient(n, p, q);
    MulMonotonic(1, q, p);
    Pow2Fields();
    Pow2Below(Ctz(n), 52);
  }

  lemma {:induction false} CtzQuotient(n: nat) returns (q: nat)
    requires 0 < n
    ensures n == q * Pow2(Ctz(n)) && q % 2 == 1
  {
    if n % 2 == 1 {
      q := n;
    } else {
      q := CtzQuotient(n / 2);
      Associate(q, Pow2(Ctz(n / 2)), 2);
    }
  }

  lemma FitsWordIsLevelZero(imm: int)
    requires 0 <= imm < TWO64
    ensures FitsWord(imm) <==> Level(imm) == 0
  {
    var hi, lo := imm / TWO32, imm % TWO32;
    assert imm == hi * TWO32 + lo && 0 <= hi < TWO32;
    if lo < 0x8000_0000 {
      RemainderUnique(lo, TWO64, 0, lo);
    } else {
      RemainderUnique(lo - TWO32, TWO64, -1, lo - TWO32 + TWO64);
    }
  }

  /** No carry is lost when the low 12 bits are split off. */
  lemma SplitLow12(imm: int)
    requires 0 <= imm < TWO64 && Level(imm) > 0
    ensures 0 < Hi52(imm) < 0x10_0000_0000_0000
    ensures Hi52(imm) * 4096 + Lo12(imm) == imm
  {
  }

  /** The signed upper part, with the one bit b that sign extension subtracts. */
  lemma UpperShape(u: nat) returns (c: nat, p: nat, rest: nat, b: nat)
    requires 0 < u < 0x10_0000_0000_0000
    ensures c == Ctz(u) < 52 && p == Pow2(c) && 0 < p && u == rest * p && rest % 2 == 1
    ensures b <= 1 && (b == 1 <==> u >= 0x8_0000_0000_0000)
    ensures Upper(u) * p == u - b * 0x10_0000_0000_0000
    ensures b == 0 ==> Upper(u) == rest
    ensures -0x8_0000_0000_0000 <= Upper(u) < 0x8_0000_0000_0000
  {
    hide Pow2, Ctz;
    CtzSplits(u);
    c, p, rest := Ctz(u), Pow2(Ctz(u)), u / Pow2(Ctz(u));
    var w, h := Pow2(52 - c), Pow2(51 - c);
    assert w * p == 0x10_0000_0000_0000 && h * p == 0x8_0000_0000_0000 by {
      Pow2Fields();
      Pow2Add(52 - c, c);
      Pow2Add(51 - c, c);
    }
    assert w == 2 * h by { Pow2Add(1, 51 - c); assert Pow2(1) == 2 by { Pow2Values(); } }
    UpperCases(u, p, rest, w, h);
    RemainderUnique(rest, w, 0, rest);
    b := if rest < h then 0 else 1;
  }

  lemma UpperCases(u: nat, p: nat, rest: nat, w: nat, h: nat)
    requires 0 < p && 0 < h && w == 2 * h && u == rest * p < w * p
    ensures rest < w && h <= h * p
    ensures rest < h <==> u < h * p
    ensures (rest - w) * p == u - w * p
  {
    MulMonotonic(1, p, h);
    if rest >= w { MulMonotonic(w, rest, p); }
    if rest < h { MulMonotonic(rest + 1, h, p); } else { MulMonotonic(h, rest, p); }
  }

  /** Shifting the upper part back up restores the high bits modulo 2^64. */
  lemma UpperShiftsBack(u: nat) returns (b: int)
    requires 0 < u < 0x10_0000_0000_0000
    ensures Upper(u) * Pow2(12 + Ctz(u)) == u * 4096 - b * TWO64
  {
    hide Pow2, Ctz, Upper;
    var c, p, rest, b' := UpperShape(u);
    b := b';
    Pow2Add(12, c);
    Pow2Fields();
    assert Upper(u) * (4096 * p) == 4096 * (Upper(u) * p);
  }

  /** Twelve bits fewer: an immediate within 4096 * bound leaves an upper part within bound. */
  lemma UpperNarrows(imm: int, bound: int)
    requires 0 <= imm < TWO64 && Level(imm) > 0
    requires bound % 2 == 0 && 0 < bound <= 0x80_0000_0000
    requires -4096 * bound <= Value64(imm) < 4096 * bound
    ensures 0 < Hi52(imm) < 0x10_0000_0000_0000 && -bound <= Upper(Hi52(imm)) < bound
  {
    hide Upper, Ctz, Pow2;
    SplitLow12(imm);
    var u := Hi52(imm);
    var c, p, rest, b := UpperShape(u);
    if Value64(imm) >= 0 {
      assert 0 < u <= bound;
      assert rest <= u by { MulMonotonic(1, p, rest); }
    } else {
      assert 0x10_0000_0000_0000 - bound <= u;
      NegativeQuotient(Upper(u), p, bound);
    }
  }

  lemma NegativeQuotient(v: int, p: int, bound: int)
    requires p > 0 && -bound <= v * p < 0
    ensures -bound <= v < 0
  {
    if v >= 0 {
      MulMonotonic(0, v, p);
    } else {
      MulMonotonic(1, p, -v);
      assert (-v) * p == -(v * p);
    }
  }

  lemma ValueOfSigned(v: int)
    requires -0x8_0000_0000_0000 <= v < 0x8_0000_0000_0000
    ensures 0 <= v % TWO64 < TWO64 && Value64(v % TWO64) == v
  {
    RemainderUnique(v, TWO64, if v < 0 then -1 else 0, if v < 0 then v + TWO64 else v);
  }

  lemma LevelDrops(imm: int)
    requires 0 <= imm < TWO64 && Level(imm) > 0
    ensures 0 < Hi52(imm) < 0x10_0000_0000_0000
    ensures Value64(Upper(Hi52(imm)) % TWO64) == Upper(Hi52(imm))
    ensures Level(Upper(Hi52(imm)) % TWO64) < Level(imm)
  {
    hide Upper, Ctz, Pow2, Hi52, Value64;
    SplitLow12(imm);
    var c, p, rest, b := UpperShape(Hi52(imm));
    ValueOfSigned(Upper(Hi52(imm)));
    if Level(imm) == 2 {
      UpperNarrows(imm, 0x80_0000_0000);
    } else if Level(imm) == 1 {
      UpperNarrows(imm, 0x800_0000);
    }
  }

  function TailWords(rd: Reg, shift: int, lo12: int): seq<Word> {
    [SlliWord(rd, rd, shift)] + if lo12 != 0 then [AddiWord(rd, rd, lo12)] else []
  }

  /** The words LI emits, in emission order. */
  function LiWords(x: Xlen, rd: Reg, imm: int): seq<Word>
    requires 0 <= imm < TWO64
    decreases Level(imm)
  {
    if x == RV32 then ShortWords(rd, imm, false)
    else if FitsWord(imm) then ShortWords(rd, imm, true)
    else
      FitsWordIsLevelZero(imm);
      LevelDrops(imm);
      var lo12 := Lo12(imm);
      var hi52 := Hi52(imm);
      var shift := 12 + Ctz(hi52);
      LiWords(x, rd, Upper(hi52) % TWO64) + TailWords(rd, shift, lo12)
  }

  /** At most eight instructions, two per level of the recursion. */
  lemma {:induction false} LiLength(x: Xlen, rd: Reg, imm: int)
    requires 0 <= imm < TWO64
    ensures 1 <= |LiWords(x, rd, imm)| <= 2 + 2 * Level(imm) <= 8
    ensures x == RV32 ==> |LiWords(x, rd, imm)| <= 2
    decreases Level(imm)
  {
    if x == RV64 && !FitsWord(imm) {
      FitsWordIsLevelZero(imm);
      LevelDrops(imm);
      LiLength(x, rd, Upper(Hi52(imm)) % TWO64);
    }
  }

  // ----- executing the sequence

  function Advance(h: Hart, n: nat): Hart {
    h.(pc := (h.pc + 4 * n) % Modulus(h.xlen))
  }

  lemma AdvanceMore(h: Hart, n: nat)
    ensures Next(Advance(h, n)) == Advance(h, n + 1)
  {
    AddRemainder(h.pc + 4 * n, 4, Modulus(h.xlen));
  }

  /** Executing `words` on `h` writes `v` to `rd` and falls through. */
  ghost predicate Loads(words: seq<Word>, h: Hart, rd: Reg, v: int) {
    Run(words, h) == Some(Advance(Write(h, rd, v), |words|))
  }

  lemma LoadOne(w: Word, h: Hart, rd: Reg, v: int)
    requires Step(Decode(w), h) == Some(Next(Write(h, rd, v)))
    ensures Loads([w], h, rd, v)
  {
    hide Step, Decode;
    RunOne(w, [], h, Next(Write(h, rd, v)));
    assert [w] + [] == [w];
  }

  /** A further instruction that replaces the loaded value. */
  lemma LoadMore(words: seq<Word>, w: Word, h: Hart, rd: Reg, v: int, v': int)
    requires Loads(words, h, rd, v)
    requires var h1 := Advance(Write(h, rd, v), |words|);
             Step(Decode(w), h1) == Some(Next(Write(h1, rd, v')))
    ensures Loads(words + [w], h, rd, v')
  {
    hide Step, Decode, Run;
    var h1 := Advance(Write(h, rd, v), |words|);
    RunConcat(words, [w], h);
    assert [w] + [] == [w];
    RunOne(w, [], h1, Next(Write(h1, rd, v')));
    RunNothing(Next(Write(h1, rd, v')));
    AdvanceMore(Write(h, rd, v'), |words|);
    assert Write(h1, rd, v') == Advance(Write(h, rd, v'), |words|);
  }

  lemma RunNothing(h: Hart)
    ensures Run([], h) == Some(h)
  {
  }

  // ----- the short form

  lemma LowParts(imm: int)
    requires 0 <= imm < TWO64
    ensures Wrap(imm % 4096, 12) == Lo12(imm)
    ensures 0 <= Hi20(imm) < 0x10_0000
    ensures Wrap(Hi20(imm), 20) == if Hi20(imm) < 0x8_0000 then Hi20(imm) else Hi20(imm) - 0x10_0000
  {
    hide Wrap;
    Pow2Fields();
    WrapsTo(imm % 4096, Lo12(imm), 12) by {
      if imm % 4096 < 0x800 { RemainderUnique(0, 4096, 0, 0); } else { RemainderUnique(-4096, 4096, -1, 0); }
    }
    var hi := Hi20(imm);
    WrapsTo(hi, if hi < 0x8_0000 then hi else hi - 0x10_0000, 20) by {
      if hi < 0x8_0000 { RemainderUnique(0, 0x10_0000, 0, 0); } else { RemainderUnique(-0x10_0000, 0x10_0000, -1, 0); }
    }
  }

  lemma ShortParts(imm: int)
    requires 0 <= imm < TWO64
    ensures var low := imm % TWO32;
            Hi20(imm) * 4096 + Lo12(imm) == if low + 0x800 < TWO32 then low else low - TWO32
  {
    assert imm % TWO32 % 4096 == imm % 4096;
  }

  /** LUI plus the sign-adjusted low part is the immediate modulo 2^32. */
  lemma ShortSum(imm: int)
    requires 0 <= imm < TWO64
    ensures (Wrap(Hi20(imm), 20) * 4096 + Lo12(imm)) % TWO32 == imm % TWO32
  {
    hide Wrap, Lo12, Hi20;
    LowParts(imm);
    ShortParts(imm);
    var low := imm % TWO32;
    var x := Wrap(Hi20(imm), 20) * 4096 + Lo12(imm);
    var q := (if low + 0x800 < TWO32 then 0 else -1) + (if Hi20(imm) < 0x8_0000 then 0 else -1);
    RemainderUnique(x, TWO32, q, low);
  }

  /** Without LUI the sign-adjusted low part alone is the immediate modulo 2^32. */
  lemma ShortLow(imm: int)
    requires 0 <= imm < TWO64 && Hi20(imm) == 0
    ensures Lo12(imm) % TWO32 == imm % TWO32
  {
    hide Wrap, Lo12;
    LowParts(imm);
    ShortSum(imm);
  }

  lemma StepShort(rd: Reg, rs1: Reg, imm: int, wide: bool, h: Hart)
    requires 0 <= imm < TWO64 && wide == h.xlen.RV64?
    ensures var w := if wide then AddiwWord(rd, rs1, imm % 4096) else AddiWord(rd, rs1, imm % 4096);
            var sum := Read(h, rs1) + Lo12(imm);
            Step(Decode(w), h) == Some(Next(Write(h, rd, if wide then SignedWord(sum % TWO32) else sum)))
  {
    hide Wrap, Lo12, EncodeI, Decode;
    LowParts(imm);
    DecodesI(imm % 4096, rs1, rd, if wide then 0x1B else 0x13);
  }

  lemma StepLui(rd: Reg, hi: int, h: Hart)
    ensures Step(Decode(LuiWord(rd, hi)), h) == Some(Next(Write(h, rd, Wrap(hi, 20) * 4096)))
  {
    hide Wrap, EncodeU, Decode;
    DecodesU(hi, rd, 0x37);
  }

  /** What a value that is right modulo 2^32 stores. */
  lemma StoresSame(h: Hart, rd: Reg, imm: int, sum: int)
    requires 0 <= imm < TWO64 && sum % TWO32 == imm % TWO32
    requires h.xlen == RV64 ==> FitsWord(imm)
    ensures Write(h, rd, if h.xlen == RV64 then SignedWord(sum % TWO32) else sum) == Write(h, rd, imm)
  {
    if h.xlen == RV64 {
      RemainderUnique(imm, TWO64, 0, imm);
    }
  }

  lemma UpperIsSigned(imm: int)
    requires 0 <= imm < TWO64
    ensures var up := Wrap(Hi20(imm), 20) * 4096; SignedWord(up % TWO32) == up
    ensures imm % 4096 == 0 ==> Lo12(imm) == 0
  {
    hide Wrap, Hi20;
    LowParts(imm);
    var up := Wrap(Hi20(imm), 20) * 4096;
    RemainderUnique(up, TWO32, if up < 0 then -1 else 0, if up < 0 then up + TWO32 else up);
  }

  lemma SumModulus(up: int, lo: int, x: Xlen)
    ensures (up % Modulus(x) + lo) % TWO32 == (up + lo) % TWO32
  {
    var m := Modulus(x);
    var k := if x == RV32 then 1 else TWO32;
    assert m == TWO32 * k;
    var q, r := (up + lo) / TWO32, (up + lo) % TWO32;
    assert up % m + lo == (q - k * (up / m)) * TWO32 + r;
    RemainderUnique(up % m + lo, TWO32, q - k * (up / m), r);
  }

  /** LUI followed by the add, on the register just written. */
  lemma RunShortBoth(rd: Reg, imm: int, h: Hart)
    requires 0 <= imm < TWO64 && Hi20(imm) != 0
    requires h.xlen == RV64 ==> FitsWord(imm)
    ensures var wide := h.xlen == RV64;
            var w := if wide then AddiwWord(rd, rd, imm % 4096) else AddiWord(rd, rd, imm % 4096);
            Loads([LuiWord(rd, Hi20(imm))] + [w], h, rd, imm)
  {
    hide Step, Decode, Run, Wrap, Lo12, Hi20, FitsWord, LuiWord, AddiWord, AddiwWord;
    var wide := h.xlen == RV64;
    var up := Wrap(Hi20(imm), 20) * 4096;
    var w := if wide then AddiwWord(rd, rd, imm % 4096) else AddiWord(rd, rd, imm % 4096);
    StepLui(rd, Hi20(imm), h);
    LoadOne(LuiWord(rd, Hi20(imm)), h, rd, up);
    var h1 := Advance(Write(h, rd, up), 1);
    StepShort(rd, rd, imm, wide, h1);
    if rd != 0 {
      ShortSum(imm);
      SumModulus(up, Lo12(imm), h.xlen);
      StoresSame(h1, rd, imm, up % Modulus(h.xlen) + Lo12(imm));
    }
    LoadMore([LuiWord(rd, Hi20(imm))], w, h, rd, up, imm);
  }

  lemma RunShort(rd: Reg, imm: int, h: Hart)
    requires 0 <= imm < TWO64
    requires h.xlen == RV64 ==> FitsWord(imm)
    ensures Loads(ShortWords(rd, imm, h.xlen == RV64), h, rd, imm)
  {
    hide Step, Decode, Run, Wrap, Lo12, Hi20, FitsWord, LuiWord, AddiWord, AddiwWord;
    var wide := h.xlen == RV64;
    var hi, lo := Hi20(imm), imm % 4096;
    if hi == 0 {
      ShortLow(imm);
      StepShort(rd, 0, imm, wide, h);
      StoresSame(h, rd, imm, Lo12(imm));
      var w := if wide then AddiwWord(rd, 0, lo) else AddiWord(rd, 0, lo);
      LoadOne(w, h, rd, if wide then SignedWord(Lo12(imm) % TWO32) else Lo12(imm));
      assert ShortWords(rd, imm, wide) == [w];
    } else {
      var up := Wrap(hi, 20) * 4096;
      StepLui(rd, hi, h);
      LoadOne(LuiWord(rd, hi), h, rd, up);
      ShortSum(imm);
      if lo == 0 {
        UpperIsSigned(imm);
        StoresSame(h, rd, imm, up);
        assert ShortWords(rd, imm, wide) == [LuiWord(rd, hi)];
      } else {
        RunShortBoth(rd, imm, h);
        var w := if wide then AddiwWord(rd, rd, lo) else AddiWord(rd, rd, lo);
        assert ShortWords(rd, imm, wide) == [LuiWord(rd, hi)] + [w];
      }
    }
  }

  // ----- the long form

  lemma ShiftedValue(u: nat)
    requires 0 < u < 0x10_0000_0000_0000
    ensures (Upper(u) % TWO64 * Pow2(12 + Ctz(u))) % TWO64 == (u * 4096) % TWO64
  {
    hide Upper, Ctz, Pow2;
    var b := UpperShiftsBack(u);
    SameModulus(Upper(u), Pow2(12 + Ctz(u)), u * 4096, b);
  }

  lemma SameModulus(v: int, p: int, x: int, b: int)
    requires v * p == x - b * TWO64
    ensures (v % TWO64 * p) % TWO64 == x % TWO64
  {
    var j := v / TWO64;
    var q, r := x / TWO64, x % TWO64;
    assert v == j * TWO64 + v % TWO64;
    assert (v % TWO64) * p == v * p - (j * TWO64) * p;
    assert (j * TWO64) * p == (j * p) * TWO64;
    assert v % TWO64 * p == (q - b - j * p) * TWO64 + r;
    RemainderUnique(v % TWO64 * p, TWO64, q - b - j * p, r);
  }

  lemma StepSlli(rd: Reg, shift: nat, h: Hart)
    requires h.xlen == RV64 && shift < 64
    ensures Step(Decode(SlliWord(rd, rd, shift)), h) == Some(Next(Write(h, rd, Read(h, rd) * Pow2(shift))))
  {
    hide Decode, EncodeI;
    RemainderUnique(shift, 64, 0, shift);
    DecodesSlli(shift, rd, rd);
  }

  lemma StepAddi(rd: Reg, imm: int, h: Hart)
    ensures Step(Decode(AddiWord(rd, rd, Lo12(imm))), h) == Some(Next(Write(h, rd, Read(h, rd) + Lo12(imm))))
  {
    hide Decode, EncodeI, Wrap, Bits;
    DecodesI(Lo12(imm), rd, rd, 0x13);
    Pow2Fields();
    RemainderUnique(0, 4096, 0, 0);
    WrapsTo(Lo12(imm), Lo12(imm), 12);
  }

  /** The shift after the recursive load. */
  lemma LoadShifted(words: seq<Word>, rd: Reg, u: nat, h: Hart)
    requires h.xlen == RV64 && 0 < u < 0x10_0000_0000_0000
    requires Loads(words, h, rd, Upper(u) % TWO64)
    ensures Loads(words + [SlliWord(rd, rd, 12 + Ctz(u))], h, rd, u * 4096)
  {
    hide Step, Decode, Run, Upper, Ctz, Pow2, SlliWord;
    var v := Upper(u) % TWO64;
    var h1 := Advance(Write(h, rd, v), |words|);
    assert Ctz(u) < 52 by { CtzSplits(u); }
    StepSlli(rd, 12 + Ctz(u), h1);
    if rd != 0 {
      RemainderUnique(v, TWO64, 0, v);
      ShiftedValue(u);
    }
    LoadMore(words, SlliWord(rd, rd, 12 + Ctz(u)), h, rd, v, u * 4096);
  }

  lemma LoadAdjusted(words: seq<Word>, rd: Reg, imm: int, h: Hart)
    requires h.xlen == RV64 && 0 <= imm < TWO64 && Level(imm) > 0
    requires Loads(words, h, rd, Hi52(imm) * 4096)
    ensures Loads(words + [AddiWord(rd, rd, Lo12(imm))], h, rd, imm)
  {
    hide Step, Decode, Run, AddiWord, Level, Lo12, Hi52;
    SplitLow12(imm);
    var x := Hi52(imm) * 4096;
    var h1 := Advance(Write(h, rd, x), |words|);
    StepAddi(rd, imm, h1);
    if rd != 0 {
      AddRemainder(x, Lo12(imm), TWO64);
    }
    LoadMore(words, AddiWord(rd, rd, Lo12(imm)), h, rd, x, imm);
  }

  /** Executing what LI emits leaves the immediate, reduced to the register width, in rd, every
      other register as it was, and the pc just past the sequence. */
  lemma {:induction false} LiLoads(rd: Reg, imm: int, h: Hart)
    requires 0 <= imm < TWO64
    ensures Loads(LiWords(h.xlen, rd, imm), h, rd, imm)
    decreases Level(imm)
  {
    hide Loads, ShortWords, Upper, Lo12, Hi52, Ctz, SlliWord, AddiWord, FitsWord, Level;
    FitsWordIsLevelZero(imm);
    if h.xlen == RV32 || FitsWord(imm) {
      RunShort(rd, imm, h);
    } else {
      LevelDrops(imm);
      var hi52, lo12 := Hi52(imm), Lo12(imm);
      var words := LiWords(RV64, rd, Upper(hi52) % TWO64);
      LiLoads(rd, Upper(hi52) % TWO64, h);
      LoadShifted(words, rd, hi52, h);
      var shifted := words + [SlliWord(rd, rd, 12 + Ctz(hi52))];
      if lo12 != 0 {
        LoadAdjusted(shifted, rd, imm, h);
        assert words + TailWords(rd, 12 + Ctz(hi52), lo12) == shifted + [AddiWord(rd, rd, lo12)];
      } else {
        SplitLow12(imm);
        assert words + TailWords(rd, 12 + Ctz(hi52), lo12) == shifted;
      }
    }
  }

  /** The same, read through the register file. */
  lemma LiSetsOnlyRd(rd: Reg, imm: int, h: Hart)
    requires 0 <= imm < TWO64
    ensures var r := Run(LiWords(h.xlen, rd, imm), h);
            && r.Some?
            && (rd != 0 ==> Read(r.value, rd) == imm % Modulus(h.xlen))
            && (forall x: Reg :: x != rd ==> Read(r.value, x) == Read(h, x))
            && r.value.pc == (h.pc + 4 * |LiWords(h.xlen, rd, imm)|) % Modulus(h.xlen)
  {
    hide Run, LiWords;
    LiLoads(rd, imm, h);
  }

  // ----- far calls

  function CallUpper(offset: int): int {
    var uimm := offset % TWO32;
    uimm / 4096 + if uimm % 4096 >= 0x800 then 1 else 0
  }

  function CallLower(offset: int): int {
    Lo12(offset % TWO32)
  }

  /** AUIPC and JALR through the link register. */
  function CallWords(offset: int): seq<Word> {
    [AuipcWord(1, CallUpper(offset)), JalrWord(1, CallLower(offset), 1)]
  }

  /** The displacement the pair adds up to: the offset, except that an incremented upper part
      that reaches 2^19 wraps to the most negative one. */
  lemma CallParts(offset: int)
    requires -0x8000_0000 <= offset < 0x8000_0000
    ensures Wrap(CallUpper(offset), 20) * 4096 + CallLower(offset)
            == if offset < 0x7FFF_F800 then offset else offset - TWO32
    ensures Wrap(CallLower(offset), 12) == CallLower(offset)
  {
    hide Wrap;
    Pow2Fields();
    var lo := CallLower(offset);
    assert offset % TWO32 == if offset < 0 then offset + TWO32 else offset;
    var k := (offset - lo) / 4096;
    assert offset == 4096 * k + lo;
    var m := if offset < 0x7FFF_F800 then k else k - 0x10_0000;
    WrapsTo(CallUpper(offset), m, 20) by {
      var d := m - CallUpper(offset);
      assert d == 0 || d == -0x10_0000;
      RemainderUnique(d, 0x10_0000, if d == 0 then 0 else -1, 0);
    }
    WrapsTo(lo, lo, 12) by { RemainderUnique(0, 4096, 0, 0); }
  }

  lemma StepAuipc(imm: int, h: Hart)
    ensures Step(Decode(AuipcWord(1, imm)), h) == Some(Next(Write(h, 1, h.pc + Wrap(imm, 20) * 4096)))
  {
    hide Wrap, EncodeU, Decode;
    DecodesU(imm, 1, 0x17);
  }

  lemma StepJalr(imm: int, h: Hart)
    requires Wrap(imm, 12) == imm
    ensures var target := (Read(h, 1) + imm) % Modulus(h.xlen);
            Step(Decode(JalrWord(1, imm, 1)), h) == Some(Write(h, 1, h.pc + 4).(pc := target - target % 2))
  {
    hide Wrap, EncodeI, Decode;
    DecodesI(imm, 1, 1, 0x67);
  }

  function EvenTarget(a: int, m: int): int
    requires m > 0
  {
    a % m - a % m % 2
  }

  lemma JalrLands(up: int, lo: int, h: Hart)
    requires Wrap(lo, 12) == lo
    ensures var m := Modulus(h.xlen);
            Step(Decode(JalrWord(1, lo, 1)), Next(Write(h, 1, h.pc + up)))
            == Some(Hart(h.xlen, h.regs[1 := (h.pc + 8) % m], EvenTarget(h.pc + up + lo, m)))
  {
    hide Step, Decode, Wrap, JalrWord;
    var m := Modulus(h.xlen);
    var h1 := Next(Write(h, 1, h.pc + up));
    StepJalr(lo, h1);
    AddRemainder(h.pc + up, lo, m);
    AddRemainder(h.pc + 4, 4, m);
    assert h1.regs[1 := (h.pc + 8) % m] == h.regs[1 := (h.pc + 8) % m];
  }

  lemma RunCall(offset: int, h: Hart)
    requires -0x8000_0000 <= offset < 0x8000_0000
    ensures var m := Modulus(h.xlen);
            var d := if offset < 0x7FFF_F800 then offset else offset - TWO32;
            Run(CallWords(offset), h) == Some(Hart(h.xlen, h.regs[1 := (h.pc + 8) % m], EvenTarget(h.pc + d, m)))
  {
    hide Step, Decode, Run, Wrap, CallUpper, CallLower, AuipcWord, JalrWord, Next, EvenTarget;
    CallParts(offset);
    var m := Modulus(h.xlen);
    var up, lo := Wrap(CallUpper(offset), 20) * 4096, CallLower(offset);
    var h1 := Next(Write(h, 1, h.pc + up));
    var h2 := Hart(h.xlen, h.regs[1 := (h.pc + 8) % m], EvenTarget(h.pc + up + lo, m));
    StepAuipc(CallUpper(offset), h);
    JalrLands(up, lo, h);
    assert CallWords(offset) == [AuipcWord(1, CallUpper(offset))] + ([JalrWord(1, lo, 1)] + []);
    RunOne(AuipcWord(1, CallUpper(offset)), [JalrWord(1, lo, 1)] + [], h, h1);
    RunOne(JalrWord(1, lo, 1), [], h1, h2);
    RunNothing(h2);
  }

  /** A call reaches its target exactly when the hart is 32 bits wide or the offset is not in the
      last 2048 bytes of the positive range. */
  lemma CallReachesIff(offset: int, h: Hart)
    requires -0x8000_0000 <= offset < 0x8000_0000
    ensures var r := Run(CallWords(offset), h);
            && r.Some? && r.value.regs == h.regs[1 := (h.pc + 8) % Modulus(h.xlen)]
            && (r.value.pc == EvenTarget(h.pc + offset, Modulus(h.xlen))
                <==> h.xlen == RV32 || offset < 0x7FFF_F800)
  {
    hide Run, CallWords;
    RunCall(offset, h);
    if offset >= 0x7FFF_F800 {
      WrapsBy32(h.pc + offset, h.xlen);
    }
  }

  lemma WrapsBy32(a: int, x: Xlen)
    ensures EvenTarget(a - TWO32, Modulus(x)) == EvenTarget(a, Modulus(x)) <==> x == RV32
  {
    var m := Modulus(x);
    var q, r := a / m, a % m;
    if x == RV32 {
      RemainderUnique(a - TWO32, m, q - 1, r);
    } else if r >= TWO32 {
      RemainderUnique(a - TWO32, m, q, r - TWO32);
    } else {
      RemainderUnique(a - TWO32, m, q - 1, r - TWO32 + m);
    }
  }

  /** The failing family is not empty: the largest even offset on RV64 lands 2^32 too low. */
  lemma CallMisses(h: Hart)
    requires h.xlen == RV64 && h.pc == 0
    ensures Run(CallWords(0x7FFF_FFFE), h).Some?
    ensures Run(CallWords(0x7FFF_FFFE), h).value.pc == 0xFFFF_FFFF_7FFF_FFFE
  {
    hide Run, CallWords;
    RunCall(0x7FFF_FFFE, h);
    RemainderUnique(-0x8000_0002, TWO64, -1, 0xFFFF_FFFF_7FFF_FFFE);
  }
}
