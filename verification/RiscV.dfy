/** The RISC-V side: instruction formats as the assembler writes them, the decoder that the
    unprivileged specification (sections 2.2, 2.3, 2.5 and 5.2) prescribes for them, and the
    step function of a hart for the instructions used by constant loads and calls. */
module RiscV {
  import opened Arithmetic
  import opened Words
  import opened Wrappers

  type Reg = r: nat | r < 32

  // ----- formats written by the assembler

  /** imm[11:0] | rs1 | funct3 | rd | opcode */
  function EncodeI(imm: Word, rs1: Reg, funct3: nat, rd: Reg, opcode: nat): (w: Word) {
    Bits(opcode, 7) + Bits(rd, 5) + Bits(funct3, 3) + Bits(rs1, 5) + imm[..12]
  }

  /** imm[31:12] | rd | opcode */
  function EncodeU(imm: Word, rd: Reg, opcode: nat): (w: Word) {
    Bits(opcode, 7) + Bits(rd, 5) + imm[..20]
  }

  // ----- the decoder

  datatype Instr =
    | Lui(rd: Reg, imm: int)
    | Auipc(rd: Reg, imm: int)
    | Addi(rd: Reg, rs1: Reg, imm: int)
    | Addiw(rd: Reg, rs1: Reg, imm: int)
    | Slli(rd: Reg, rs1: Reg, shamt: nat)
    | Jalr(rd: Reg, rs1: Reg, imm: int)
    | Other(word: Word)

  function Register(b: seq<bool>): Reg
    requires |b| == 5
  {
    Pow2Fields();
    Nat(b)
  }

  function Decode(w: Word): Instr {
    var opcode := Nat(w[..7]);
    var rd := Register(w[7..12]);
    var funct3 := Nat(w[12..15]);
    var rs1 := Register(w[15..20]);
    var immI := SignedNat(w[20..32]);
    var immU := SignedNat(w[12..32]) * 4096;
    if opcode == 0x37 then Lui(rd, immU)
    else if opcode == 0x17 then Auipc(rd, immU)
    else if opcode == 0x13 && funct3 == 0 then Addi(rd, rs1, immI)
    else if opcode == 0x13 && funct3 == 1 && Nat(w[26..32]) == 0 then Slli(rd, rs1, Nat(w[20..26]))
    else if opcode == 0x1B && funct3 == 0 then Addiw(rd, rs1, immI)
    else if opcode == 0x67 && funct3 == 0 then Jalr(rd, rs1, immI)
    else Other(w)
  }

  lemma RegisterReadBack(r: Reg)
    ensures Register(Bits(r, 5)) == r
  {
    hide Nat, Bits;
    Pow2Fields();
    CodeReadBack(r, 5);
  }

  lemma CodeReadBack(n: nat, k: nat)
    requires n < Pow2(k)
    ensures Nat(Bits(n, k)) == n
  {
    hide Nat, Bits;
    NatOfBits(n, k);
    RemainderUnique(n, Pow2(k), 0, n);
  }

  /** The fields an I-type word carries. */
  lemma FieldsI(imm: Word, rs1: Reg, funct3: nat, rd: Reg, opcode: nat)
    requires funct3 < 8 && opcode < 128
    ensures var w := EncodeI(imm, rs1, funct3, rd, opcode);
            && Nat(w[..7]) == opcode && Register(w[7..12]) == rd && Nat(w[12..15]) == funct3
            && Register(w[15..20]) == rs1 && w[20..32] == imm[..12]
            && w[20..26] == imm[..6] && w[26..32] == imm[6..12]
  {
    hide Nat, Bits;
    var w := EncodeI(imm, rs1, funct3, rd, opcode);
    assert w[..7] == Bits(opcode, 7);
    assert w[7..12] == Bits(rd, 5);
    assert w[12..15] == Bits(funct3, 3);
    assert w[15..20] == Bits(rs1, 5);
    Pow2Fields();
    CodeReadBack(opcode, 7);
    CodeReadBack(funct3, 3);
    RegisterReadBack(rd);
    RegisterReadBack(rs1);
  }

  lemma FieldsU(imm: Word, rd: Reg, opcode: nat)
    requires opcode < 128
    ensures var w := EncodeU(imm, rd, opcode);
            Nat(w[..7]) == opcode && Register(w[7..12]) == rd && w[12..32] == imm[..20]
  {
    hide Nat, Bits;
    var w := EncodeU(imm, rd, opcode);
    assert w[..7] == Bits(opcode, 7);
    assert w[7..12] == Bits(rd, 5);
    Pow2Fields();
    CodeReadBack(opcode, 7);
    RegisterReadBack(rd);
  }

  /** The signed value that the low k bits of an integer carry. */
  function Wrap(n: int, k: nat): int
    requires k > 0
  {
    SignedNat(Bits(n, k))
  }

  lemma WrapsTo(n: int, m: int, k: nat)
    requires k > 0 && FitsSigned(m, k) && (m - n) % Pow2(k) == 0
    ensures Wrap(n, k) == m
  {
    SameBits(n, m, k);
    SignedReadBack(m, k);
  }

  lemma {:induction false} SameBits(n: int, m: int, k: nat)
    requires (m - n) % Pow2(k) == 0
    ensures Bits(n, k) == Bits(m, k)
    decreases k
  {
    if k > 0 {
      var p := Pow2(k - 1);
      ModHalves(m - n, p);
      assert (m - n) % 2 == 0 && ((m - n) / 2) % p == 0;
      assert m / 2 - n / 2 == (m - n) / 2;
      SameBits(n / 2, m / 2, k - 1);
    }
  }

  lemma DecodesI(n: int, rs1: Reg, rd: Reg, opcode: nat)
    requires opcode in {0x13, 0x1B, 0x67}
    ensures var imm := Wrap(n, 12);
            Decode(EncodeI(U32(n), rs1, 0, rd, opcode)) ==
            if opcode == 0x13 then Addi(rd, rs1, imm)
            else if opcode == 0x1B then Addiw(rd, rs1, imm) else Jalr(rd, rs1, imm)
  {
    hide Nat, Bits, SignedNat, EncodeI;
    FieldsI(U32(n), rs1, 0, rd, opcode);
    BitsPrefix(n, 32, 12);
  }

  lemma DecodesSlli(n: nat, rs1: Reg, rd: Reg)
    requires n < 64
    ensures Decode(EncodeI(U32(n), rs1, 1, rd, 0x13)) == Slli(rd, rs1, n)
  {
    hide Nat, Bits, SignedNat, EncodeI;
    FieldsI(U32(n), rs1, 1, rd, 0x13);
    BitsPrefix(n, 32, 6);
    BitsPrefix(n, 32, 12);
    Pow2Fields();
    CodeReadBack(n, 6);
    assert Nat(U32(n)[6..12]) == 0 by {
      HighBitsClear(n, 6, 12);
      assert U32(n)[6..12] == Bits(n, 12)[6..12];
    }
  }

  lemma {:induction false} HighBitsClear(n: nat, j: nat, k: nat)
    requires j <= k && n < Pow2(j)
    ensures Nat(Bits(n, k)[j..k]) == 0
    decreases k
  {
    if j > 0 {
      HighBitsClear(n / 2, j - 1, k - 1);
      assert Bits(n, k)[j..k] == Bits(n / 2, k - 1)[j - 1..k - 1];
    } else {
      NatOfBits(0, k);
      RemainderUnique(0, Pow2(k), 0, 0);
      assert Bits(n, k)[0..k] == Bits(n, k);
    }
  }

  lemma DecodesU(n: int, rd: Reg, opcode: nat)
    requires opcode in {0x37, 0x17}
    ensures var imm := Wrap(n, 20) * 4096;
            Decode(EncodeU(U32(n), rd, opcode)) == if opcode == 0x37 then Lui(rd, imm) else Auipc(rd, imm)
  {
    hide Nat, Bits, SignedNat, EncodeU;
    FieldsU(U32(n), rd, opcode);
    BitsPrefix(n, 32, 20);
  }

  // ----- the hart

  datatype Xlen = RV32 | RV64

  function Modulus(x: Xlen): int {
    if x == RV32 then TWO32 else TWO64
  }

  datatype Hart = Hart(xlen: Xlen, regs: map<Reg, int>, pc: int)

  /** Register x0 reads as zero; a register never written reads as zero. */
  function Read(h: Hart, r: Reg): int {
    if r == 0 || r !in h.regs then 0 else h.regs[r]
  }

  function Write(h: Hart, r: Reg, v: int): Hart {
    if r == 0 then h else h.(regs := h.regs[r := v % Modulus(h.xlen)])
  }

  function Next(h: Hart): Hart {
    h.(pc := (h.pc + 4) % Modulus(h.xlen))
  }

  function SignedWord(n: int): int {
    if n < 0x8000_0000 then n else n - TWO32
  }

  /** One instruction; encodings outside the subset, and RV64-only ones on RV32, trap. */
  function Step(i: Instr, h: Hart): Option<Hart> {
    match i
    case Lui(rd, imm) => Some(Next(Write(h, rd, imm)))
    case Auipc(rd, imm) => Some(Next(Write(h, rd, h.pc + imm)))
    case Addi(rd, rs1, imm) => Some(Next(Write(h, rd, Read(h, rs1) + imm)))
    case Addiw(rd, rs1, imm) =>
      if h.xlen == RV32 then None
      else Some(Next(Write(h, rd, SignedWord((Read(h, rs1) + imm) % TWO32))))
    case Slli(rd, rs1, shamt) =>
      if h.xlen == RV32 && shamt >= 32 then None
      else Some(Next(Write(h, rd, Read(h, rs1) * Pow2(shamt))))
    case Jalr(rd, rs1, imm) =>
      var target := (Read(h, rs1) + imm) % Modulus(h.xlen);
      Some(Write(h, rd, h.pc + 4).(pc := target - target % 2))
    case Other(_) => None
  }

  function Run(words: seq<Word>, h: Hart): Option<Hart>
    decreases |words|
  {
    if words == [] then Some(h)
    else
      match Step(Decode(words[0]), h)
      case None => None
      case Some(h') => Run(words[1..], h')
  }

  lemma RunOne(w: Word, rest: seq<Word>, h: Hart, h': Hart)
    requires Step(Decode(w), h) == Some(h')
    ensures Run([w] + rest, h) == Run(rest, h')
  {
    assert ([w] + rest)[1..] == rest;
  }

  lemma {:induction false} RunConcat(a: seq<Word>, b: seq<Word>, h: Hart)
    ensures Run(a + b, h) == if Run(a, h).None? then None else Run(b, Run(a, h).value)
    decreases |a|
  {
    hide Step, Decode;
    if a == [] {
      assert a + b == b;
    } else {
      assert (a + b)[1..] == a[1..] + b;
      if Step(Decode(a[0]), h).Some? {
        RunConcat(a[1..], b, Step(Decode(a[0]), h).value);
      }
    }
  }
}
