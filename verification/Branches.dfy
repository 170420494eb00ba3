/** Patchable branches: how the assembler encodes and patches a displacement, how it recognises
    the branch again from its bytes, and what the instruction set (sections 2.5 and 16.4 of the
    unprivileged specification) decodes from the result. */
module Branches {
  import opened Arithmetic
  import opened Words
  import opened RiscV
  import opened Wrappers

  type CompressedReg = r: nat | 8 <= r < 16 witness 8

  /** The four label-taking families: conditional branches, JAL, C.BEQZ/C.BNEZ, C.J/C.JAL. */
  datatype Branch =
    | Conditional(funct3: nat, rs1: Reg, rs2: Reg)
    | Jump(rd: Reg)
    | CompressedZero(nonzero: bool, rs: CompressedReg)
    | CompressedJump(link: bool)

  function Size(br: Branch): nat {
    if br.Conditional? || br.Jump? then 4 else 2
  }

  predicate InRange(br: Branch, d: int) {
    match br
    case Conditional(_, _, _) => -4096 <= d <= 4095
    case Jump(_) => -0x80000 <= d <= 0x7FFFF
    case CompressedZero(_, _) => -256 <= d <= 255
    case CompressedJump(_) => -2048 <= d <= 2047
  }

  // ----- encoding

  function TransformB(imm: Word): Word {
    Or(Or(Field(imm, 5, 11, 25), Field(imm, 12, 13, 31)), Or(Field(imm, 1, 5, 8), Field(imm, 11, 12, 7)))
  }

  function TransformJ(imm: Word): Word {
    Or(Or(Field(imm, 12, 20, 12), Field(imm, 11, 12, 20)), Or(Field(imm, 1, 11, 21), Field(imm, 20, 21, 31)))
  }

  function TransformCB(imm: Word): Word {
    Or(Or(Or(Field(imm, 6, 8, 5), Field(imm, 1, 3, 3)), Or(Field(imm, 5, 6, 2), Field(imm, 3, 5, 10))),
       Field(imm, 8, 9, 12))
  }

  function TransformCJ(imm: Word): Word {
    Or(Or(Or(Field(imm, 11, 12, 12), Field(imm, 4, 5, 11)), Or(Field(imm, 8, 10, 9), Field(imm, 10, 11, 8))),
       Or(Or(Field(imm, 6, 7, 7), Field(imm, 7, 8, 6)), Or(Field(imm, 1, 4, 5), Field(imm, 5, 6, 2))))
  }

  function Transform(br: Branch, imm: Word): Word {
    match br
    case Conditional(_, _, _) => TransformB(imm)
    case Jump(_) => TransformJ(imm)
    case CompressedZero(_, _) => TransformCB(imm)
    case CompressedJump(_) => TransformCJ(imm)
  }

  /** Instructions with a clear displacement; a 16-bit form occupies the low half. */
  function BaseB(funct3: nat, rs1: Reg, rs2: Reg): Word {
    Bits(0x63, 7) + Bits(0, 5) + Bits(funct3, 3) + Bits(rs1, 5) + Bits(rs2, 5) + Bits(0, 7)
  }

  function BaseJ(rd: Reg): Word {
    Bits(0x6F, 7) + Bits(rd, 5) + Bits(0, 20)
  }

  function BaseCB(funct3: nat, rs: CompressedReg): Word {
    Bits(1, 2) + Bits(0, 5) + Bits(rs - 8, 3) + Bits(0, 3) + Bits(funct3, 3) + Bits(0, 16)
  }

  function BaseCJ(funct3: nat): Word {
    Bits(1, 2) + Bits(0, 11) + Bits(funct3, 3) + Bits(0, 16)
  }

  /** Everything but the displacement. */
  function Base(br: Branch): Word {
    match br
    case Conditional(funct3, rs1, rs2) => BaseB(funct3, rs1, rs2)
    case Jump(rd) => BaseJ(rd)
    case CompressedZero(nonzero, rs) => BaseCB(if nonzero then 7 else 6, rs)
    case CompressedJump(link) => BaseCJ(if link then 1 else 5)
  }

  function Encode(br: Branch, d: int): Word {
    Or(Base(br), Transform(br, U32(d)))
  }

  // ----- recognising a pending branch

  predicate IsCB(w: Word) {
    w[0] && !w[1] && w[14] && w[15]
  }

  predicate IsCJ(w: Word) {
    w[0] && !w[1] && w[13] && !w[14]
  }

  predicate IsB(w: Word) {
    w[..7] == Bits(0x63, 7)
  }

  predicate IsJ(w: Word) {
    w[..7] == Bits(0x6F, 7)
  }

  /** The instruction size, judged from the low halfword alone. */
  function InstSize(low: Word): nat {
    if IsCJ(low) || IsCB(low) then 2 else 4
  }

  /** The displacement ORed into an instruction whose field is still zero. */
  function Patch(w: Word, size: nat, d: int): Word {
    if size == 4 then
      if IsB(w) then Or(w, TransformB(U32(d)))
      else if IsJ(w) then Or(w, TransformJ(U32(d)))
      else w
    else
      if IsCB(w) then Or(w, TransformCB(U32(d)))
      else if IsCJ(w) then Or(w, TransformCJ(U32(d)))
      else w
  }

  // ----- decoding

  function DecodeB(w: Word): int {
    SignedNat([false] + w[8..12] + w[25..31] + [w[7]] + [w[31]])
  }

  function DecodeJ(w: Word): int {
    SignedNat([false] + w[21..31] + [w[20]] + w[12..20] + [w[31]])
  }

  function DecodeCB(w: Word): int {
    SignedNat([false] + w[3..5] + w[10..12] + [w[2]] + w[5..7] + [w[12]])
  }

  function DecodeCJ(w: Word): int {
    SignedNat([false, w[3], w[4], w[5], w[11], w[2], w[7], w[6], w[9], w[10], w[8], w[12]])
  }

  /** The displacement the hardware sees, by the opcode it sees. */
  function Displacement(w: Word): Option<int> {
    if Nat(w[..7]) == 0x63 then Some(DecodeB(w))
    else if Nat(w[..7]) == 0x6F then Some(DecodeJ(w))
    else if Nat(w[..2]) == 1 && Nat(w[13..16]) in {6, 7} then Some(DecodeCB(w))
    else if Nat(w[..2]) == 1 && Nat(w[13..16]) in {1, 5} then Some(DecodeCJ(w))
    else None
  }

  // ----- the immediate field of a base is clear, its opcode is not

  lemma {:induction false} ZeroBits(k: nat)
    ensures forall j :: 0 <= j < k ==> !Bits(0, k)[j]
  {
    if k > 0 {
      ZeroBits(k - 1);
    }
  }

  lemma OpcodeBits()
    ensures Bits(0x63, 7) == [true, true, false, false, false, true, true]
    ensures Bits(0x6F, 7) == [true, true, true, true, false, true, true]
  {
  }

  lemma CompressedBits()
    ensures Bits(1, 2) == [true, false]
    ensures Bits(6, 3) == [false, true, true] && Bits(7, 3) == [true, true, true]
    ensures Bits(1, 3) == [true, false, false] && Bits(5, 3) == [true, false, true]
  {
  }

  /** The bit positions that the displacement of a branch occupies. */
  predicate InField(br: Branch, j: int) {
    match br
    case Conditional(_, _, _) => 7 <= j < 12 || 25 <= j < 32
    case Jump(_) => 12 <= j < 32
    case CompressedZero(_, _) => 2 <= j < 7 || 10 <= j < 13
    case CompressedJump(_) => 2 <= j < 13
  }

  lemma BaseFieldClear(br: Branch)
    ensures forall j :: 0 <= j < 32 && InField(br, j) ==> !Base(br)[j]
  {
    hide Bits;
    ZeroBits(5);
    ZeroBits(7);
    ZeroBits(20);
    ZeroBits(3);
    ZeroBits(11);
  }

  lemma BaseHighClear(br: Branch)
    requires Size(br) == 2
    ensures forall j :: 16 <= j < 32 ==> !Base(br)[j]
  {
    hide Bits;
    ZeroBits(16);
  }

  /** A displacement touches nothing but the field. */
  lemma TransformInField(br: Branch, imm: Word)
    ensures forall j :: 0 <= j < 32 && !InField(br, j) ==> !Transform(br, imm)[j]
  {
  }

  lemma EncodeOutsideField(br: Branch, d: int)
    ensures forall j :: 0 <= j < 32 && !InField(br, j) ==> Encode(br, d)[j] == Base(br)[j]
  {
    hide Transform, Base;
    TransformInField(br, U32(d));
  }

  lemma EncodeInField(br: Branch, d: int)
    ensures forall j :: 0 <= j < 32 && InField(br, j) ==> Encode(br, d)[j] == Transform(br, U32(d))[j]
  {
    hide Transform, Base;
    BaseFieldClear(br);
  }

  /** A pending branch is encoded with displacement zero, which is its base. */
  lemma EncodeZero(br: Branch)
    ensures Encode(br, 0) == Base(br)
  {
    hide Base;
    ZeroBits(32);
    TransformZero(br, U32(0));
  }

  lemma TransformZero(br: Branch, imm: Word)
    requires forall j :: 0 <= j < 32 ==> !imm[j]
    ensures forall j :: 0 <= j < 32 ==> !Transform(br, imm)[j]
  {
  }

  // ----- recognition

  /** Agreement on the low 16 bits is enough to find the size of a pending branch. */
  lemma SizeRecognised(br: Branch, low: Word)
    requires forall j :: 0 <= j < 16 ==> low[j] == Base(br)[j]
    ensures InstSize(low) == Size(br)
  {
    hide Bits;
    OpcodeBits();
    CompressedBits();
  }

  lemma OpcodesDiffer()
    ensures Bits(0x63, 7) != Bits(0x6F, 7)
  {
    hide Bits;
    OpcodeBits();
  }

  /** Patching a pending branch gives the bytes of a branch emitted with the label bound. */
  lemma PatchIsEncode(br: Branch, d: int)
    ensures Patch(Base(br), Size(br), d) == Encode(br, d)
  {
    hide Bits, Transform, TransformB, TransformJ, TransformCB, TransformCJ, U32, Or;
    OpcodesDiffer();
    CompressedBits();
    UnfoldTransform(br, U32(d));
    match br
    case Conditional(funct3, rs1, rs2) => assert Base(br)[..7] == Bits(0x63, 7);
    case Jump(rd) => assert Base(br)[..7] == Bits(0x6F, 7);
    case CompressedZero(_, _) =>
    case CompressedJump(_) =>
  }

  lemma UnfoldTransform(br: Branch, imm: Word)
    ensures Transform(br, imm) ==
      match br
      case Conditional(_, _, _) => TransformB(imm)
      case Jump(_) => TransformJ(imm)
      case CompressedZero(_, _) => TransformCB(imm)
      case CompressedJump(_) => TransformCJ(imm)
  {
  }

  // ----- what the hardware decodes

  lemma ConvertedPrefix(d: int, k: nat)
    requires k <= 32
    ensures U32(d)[..k] == Bits(d, k)
  {
    hide Bits;
    BitsPrefix(d, 32, k);
  }

  lemma TransformBAt(x: Word)
    ensures var t := TransformB(x);
            && (forall j :: 8 <= j < 12 ==> t[j] == x[j - 7])
            && (forall j :: 25 <= j < 31 ==> t[j] == x[j - 20])
            && t[7] == x[11] && t[31] == x[12]
  {
  }

  lemma TransformJAt(x: Word)
    ensures var t := TransformJ(x);
            && (forall j :: 21 <= j < 31 ==> t[j] == x[j - 20])
            && (forall j :: 12 <= j < 20 ==> t[j] == x[j])
            && t[20] == x[11] && t[31] == x[20]
  {
  }

  lemma TransformCBAt(x: Word)
    ensures var t := TransformCB(x);
            && t[2] == x[5] && t[3] == x[1] && t[4] == x[2] && t[5] == x[6] && t[6] == x[7]
            && t[10] == x[3] && t[11] == x[4] && t[12] == x[8]
  {
  }

  lemma TransformCJAt(x: Word)
    ensures var t := TransformCJ(x);
            && t[2] == x[5] && !t[3] && !t[4] && t[5] == x[1] && t[6] == (x[7] || x[2])
            && t[7] == (x[6] || x[3]) && t[8] == x[10] && t[9] == x[8] && t[10] == x[9]
            && t[11] == x[4] && t[12] == x[11]
  {
  }

  lemma DecodesB(br: Branch, d: int)
    requires br.Conditional? && InRange(br, d)
    ensures DecodeB(Encode(br, d)) == d - d % 2
  {
    hide Bits, Encode, Base, SignedNat, TransformB, TransformJ, TransformCB, TransformCJ, U32;
    var w := Encode(br, d);
    EncodeInField(br, d);
    var x := U32(d);
    TransformBAt(x);
    assert w[8..12] == x[1..5] && w[25..31] == x[5..11] && w[7] == x[11] && w[31] == x[12];
    assert [false] + w[8..12] + w[25..31] + [w[7]] + [w[31]] == [false] + x[..13][1..];
    assert x[..13] == Bits(d, 13) by { ConvertedPrefix(d, 13); }
    Pow2Fields();
    EvenReadBack(d, 13);
  }

  lemma DecodesJ(br: Branch, d: int)
    requires br.Jump? && InRange(br, d)
    ensures DecodeJ(Encode(br, d)) == d - d % 2
  {
    hide Bits, Encode, Base, SignedNat, TransformB, TransformJ, TransformCB, TransformCJ, U32;
    var w := Encode(br, d);
    EncodeInField(br, d);
    var x := U32(d);
    TransformJAt(x);
    assert w[21..31] == x[1..11] && w[20] == x[11] && w[12..20] == x[12..20] && w[31] == x[20];
    assert [false] + w[21..31] + [w[20]] + w[12..20] + [w[31]] == [false] + x[..21][1..];
    assert x[..21] == Bits(d, 21) by { ConvertedPrefix(d, 21); }
    Pow2Fields();
    EvenReadBack(d, 21);
  }

  lemma DecodesCB(br: Branch, d: int)
    requires br.CompressedZero? && InRange(br, d)
    ensures DecodeCB(Encode(br, d)) == d - d % 2
  {
    hide Bits, Encode, Base, SignedNat, TransformB, TransformJ, TransformCB, TransformCJ, U32;
    var w := Encode(br, d);
    EncodeInField(br, d);
    var x := U32(d);
    TransformCBAt(x);
    assert w[3..5] == x[1..3] && w[10..12] == x[3..5] && w[2] == x[5] && w[5..7] == x[6..8] && w[12] == x[8];
    assert [false] + w[3..5] + w[10..12] + [w[2]] + w[5..7] + [w[12]] == [false] + x[..9][1..];
    assert x[..9] == Bits(d, 9) by { ConvertedPrefix(d, 9); }
    Pow2Fields();
    EvenReadBack(d, 9);
  }

  // ----- the compressed jump, whose low displacement bits are misplaced

  /** The bits a compressed jump decodes to. */
  lemma CompressedJumpBits(br: Branch, d: int)
    requires br.CompressedJump?
    ensures var x := U32(d);
            DecodeCJ(Encode(br, d)) ==
            SignedNat([false, false, false, x[1], x[4], x[5], x[6] || x[3], x[7] || x[2], x[8], x[9], x[10], x[11]])
  {
    hide Bits, Encode, Base, SignedNat, U32, TransformCJ;
    var w, x := Encode(br, d), U32(d);
    EncodeInField(br, d);
    TransformCJAt(x);
    assert [false, w[3], w[4], w[5], w[11], w[2], w[7], w[6], w[9], w[10], w[8], w[12]]
        == [false, false, false, x[1], x[4], x[5], x[6] || x[3], x[7] || x[2], x[8], x[9], x[10], x[11]];
  }

  lemma SignedInjective(a: seq<bool>, b: seq<bool>)
    requires |a| == |b| > 0 && SignedNat(a) == SignedNat(b)
    ensures a == b
  {
    hide Nat, Bits;
    BitsOfNat(a);
    BitsOfNat(b);
  }

  lemma LowFourBits(d: int)
    ensures d % 16 == 0 <==> !U32(d)[0] && !U32(d)[1] && !U32(d)[2] && !U32(d)[3]
  {
    var x := U32(d);
    BitsPrefix(d, 32, 4);
    assert x[0] == Bits(d, 4)[0] && x[1] == Bits(d, 4)[1] && x[2] == Bits(d, 4)[2] && x[3] == Bits(d, 4)[3];
    NatOfBits(d, 4);
    assert Pow2(4) == 16;
    NatOfFour(Bits(d, 4));
  }

  lemma NatOfFour(b: seq<bool>)
    requires |b| == 4
    ensures Nat(b) == 0 <==> !b[0] && !b[1] && !b[2] && !b[3]
  {
    assert b[1..][1..] == b[2..] && b[2..][1..] == b[3..] && b[3..][1..] == [];
    assert Nat(b[3..]) == (if b[3] then 1 else 0);
    assert Nat(b[2..]) == (if b[2] then 1 else 0) + 2 * Nat(b[3..]);
    assert Nat(b[1..]) == (if b[1] then 1 else 0) + 2 * Nat(b[2..]);
  }

  /** A compressed jump lands on its target exactly when the displacement is a multiple of 16. */
  lemma DecodesCJIff(br: Branch, d: int)
    requires br.CompressedJump? && InRange(br, d)
    ensures DecodeCJ(Encode(br, d)) == d <==> d % 16 == 0
  {
    hide SignedNat, Bits, Encode;
    var x := U32(d);
    CompressedJumpBits(br, d);
    LowFourBits(d);
    BitsPrefix(d, 32, 12);
    Pow2Fields();
    SignedReadBack(d, 12);
    var got := [false, false, false, x[1], x[4], x[5], x[6] || x[3], x[7] || x[2], x[8], x[9], x[10], x[11]];
    var want := x[..12];
    assert want == [x[0], x[1], x[2], x[3], x[4], x[5], x[6], x[7], x[8], x[9], x[10], x[11]];
    if SignedNat(got) == SignedNat(want) {
      SignedInjective(got, want);
      assert got[0] == want[0] && got[1] == want[1] && got[2] == want[2] && got[3] == want[3];
    } else if d % 16 == 0 {
      assert got == want;
    }
  }

  /** Two displacements, one word: 8 and 64 are encoded alike. */
  lemma CompressedJumpCollision(link: bool)
    ensures Encode(CompressedJump(link), 8) == Encode(CompressedJump(link), 64)
  {
    hide Bits, Base, TransformCJ;
    var a, b := U32(8), U32(64);
    OneBit(3, 32);
    OneBit(6, 32);
    assert Pow2(3) == 8 && Pow2(6) == 64;
    TransformCJAt(a);
    TransformCJAt(b);
    TransformInField(CompressedJump(link), a);
    TransformInField(CompressedJump(link), b);
    forall j | 0 <= j < 32
      ensures TransformCJ(a)[j] == TransformCJ(b)[j]
    {
      if InField(CompressedJump(link), j) {
        assert j == 2 || j == 3 || j == 4 || j == 5 || j == 6 || j == 7
          || j == 8 || j == 9 || j == 10 || j == 11 || j == 12;
      } else {
        assert !Transform(CompressedJump(link), a)[j] && !Transform(CompressedJump(link), b)[j];
      }
    }
    assert TransformCJ(a) == TransformCJ(b);
  }

  lemma {:induction false} OneBit(i: nat, k: nat)
    requires i < k
    ensures forall j :: 0 <= j < k ==> Bits(Pow2(i), k)[j] == (j == i)
    decreases k
  {
    if i > 0 {
      OneBit(i - 1, k - 1);
    } else {
      ZeroBits(k - 1);
    }
  }

  /** The hardware recognises the family of an encoded branch. */
  lemma FamilyDecoded(br: Branch, d: int)
    ensures var w := Encode(br, d);
            Displacement(w) ==
            match br
            case Conditional(_, _, _) => Some(DecodeB(w))
            case Jump(_) => Some(DecodeJ(w))
            case CompressedZero(_, _) => Some(DecodeCB(w))
            case CompressedJump(_) => Some(DecodeCJ(w))
  {
    hide Bits, Nat, Encode, DecodeB, DecodeJ, DecodeCB, DecodeCJ;
    var w := Encode(br, d);
    EncodeOutsideField(br, d);
    match br
    case Conditional(funct3, rs1, rs2) =>
      assert w[..7] == Bits(0x63, 7);
      CodeReadBack(0x63, 7) by { Pow2Fields(); }
    case Jump(rd) =>
      assert w[..7] == Bits(0x6F, 7);
      CodeReadBack(0x6F, 7) by { Pow2Fields(); }
    case CompressedZero(nonzero, rs) =>
      var funct3 := if nonzero then 7 else 6;
      CompressedFields(w, funct3);
    case CompressedJump(link) =>
      var funct3 := if link then 1 else 5;
      CompressedFields(w, funct3);
  }

  lemma CompressedFields(w: Word, funct3: nat)
    requires funct3 < 8 && w[..2] == Bits(1, 2) && w[13..16] == Bits(funct3, 3)
    ensures Nat(w[..2]) == 1 && Nat(w[13..16]) == funct3
    ensures Nat(w[..7]) != 0x63 && Nat(w[..7]) != 0x6F
  {
    hide Bits, Nat;
    Pow2Fields();
    CodeReadBack(1, 2);
    CodeReadBack(funct3, 3);
    BitsOfNat(w[..7]);
    OpcodeBits();
    CompressedBits();
    assert !w[..7][1] by { assert w[..7][1] == w[..2][1]; }
  }

  /** The instruction w, read by the fields of its format, is the branch br: the same comparison
      of the same registers, the same link register, the same test or link choice. */
  predicate ReadsAs(w: Word, br: Branch) {
    match br
    case Conditional(funct3, rs1, rs2) =>
      Nat(w[12..15]) == funct3 % 8 && Register(w[15..20]) == rs1 && Register(w[20..25]) == rs2
    case Jump(rd) => Register(w[7..12]) == rd
    case CompressedZero(nonzero, rs) => Nat(w[13..16]) == (if nonzero then 7 else 6) && Nat(w[7..10]) + 8 == rs
    case CompressedJump(link) => Nat(w[13..16]) == (if link then 1 else 5)
  }

  /** Whatever the displacement, an encoded branch keeps every other field of its own. */
  lemma FieldsDecoded(br: Branch, d: int)
    ensures ReadsAs(Encode(br, d), br)
  {
    hide Bits, Nat, Encode, Register;
    var w := Encode(br, d);
    EncodeOutsideField(br, d);
    match br
    case Conditional(funct3, rs1, rs2) =>
      assert w[12..15] == Bits(funct3, 3);
      assert w[15..20] == Bits(rs1, 5);
      assert w[20..25] == Bits(rs2, 5);
      ThreeBits(funct3);
      RegisterReadBack(rs1);
      RegisterReadBack(rs2);
    case Jump(rd) =>
      assert w[7..12] == Bits(rd, 5);
      RegisterReadBack(rd);
    case CompressedZero(nonzero, rs) =>
      assert w[13..16] == Bits(if nonzero then 7 else 6, 3);
      assert w[7..10] == Bits(rs - 8, 3);
      ThreeBits(if nonzero then 7 else 6);
      ThreeBits(rs - 8);
    case CompressedJump(link) =>
      assert w[13..16] == Bits(if link then 1 else 5, 3);
      ThreeBits(if link then 1 else 5);
  }

  lemma ThreeBits(n: nat)
    ensures Nat(Bits(n, 3)) == n % 8
  {
    hide Bits, Nat;
    NatOfBits(n, 3);
    Pow2Fields();
  }

  /** The hardware sees the branch br and goes d bytes away from w, d rounded down to even; a
      compressed jump does so exactly when d is a multiple of 16. */
  predicate LandsOn(w: Word, br: Branch, d: int) {
    var x := Displacement(w);
    && ReadsAs(w, br)
    && x.Some?
    && if br.CompressedJump? then (x.value == d <==> d % 16 == 0) else x.value == d - d % 2
  }

  /** A branch encoded with displacement d is that branch and lands there. */
  lemma Lands(br: Branch, d: int)
    requires InRange(br, d)
    ensures LandsOn(Encode(br, d), br, d)
  {
    hide Encode, Displacement, DecodeB, DecodeJ, DecodeCB, DecodeCJ, ReadsAs;
    FieldsDecoded(br, d);
    FamilyDecoded(br, d);
    match br
    case Conditional(_, _, _) => DecodesB(br, d);
    case Jump(_) => DecodesJ(br, d);
    case CompressedZero(_, _) => DecodesCB(br, d);
    case CompressedJump(_) => DecodesCJIff(br, d);
  }
}
