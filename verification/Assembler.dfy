/** The assembler's mutable side: a growable code buffer written in place, labels, and the
    operations that link, bind and patch. Assertions of the source are preconditions here. */
module Assembler {
  import opened Arithmetic
  import opened Words
  import opened RiscV
  import opened Wrappers
  import opened Branches
  import opened Linking
  import opened LoadImmediate

  /** A sequence of 32-bit words in memory. */
  function CodeBytes(words: seq<Word>): (bytes: seq<Byte>)
    ensures |bytes| == 4 * |words|
  {
    if words == [] then [] else BytesOf(words[0], 4) + CodeBytes(words[1..])
  }

  lemma {:induction false} CodeBytesConcat(a: seq<Word>, b: seq<Word>)
    ensures CodeBytes(a + b) == CodeBytes(a) + CodeBytes(b)
  {
    hide BytesOf;
    if a == [] {
      assert a + b == b;
    } else {
      assert (a + b)[1..] == a[1..] + b;
      CodeBytesConcat(a[1..], b);
    }
  }

  lemma CodeBytesOne(w: Word)
    ensures CodeBytes([w]) == BytesOf(w, 4)
  {
    hide BytesOf;
    assert [w][1..] == [];
  }

  /** The words a hart fetches from memory. */
  function WordsOf(bytes: seq<Byte>): seq<Word>
    decreases |bytes|
  {
    if |bytes| < 4 then [] else [WordOf(bytes[..4])] + WordsOf(bytes[4..])
  }

  lemma {:induction false} CodeReadBack(words: seq<Word>)
    ensures WordsOf(CodeBytes(words)) == words
  {
    hide BytesOf, WordOf;
    if words != [] {
      var bytes := CodeBytes(words);
      assert bytes[..4] == BytesOf(words[0], 4) && bytes[4..] == CodeBytes(words[1..]);
      StoreLoad(words[0], 4);
      CodeReadBack(words[1..]);
    }
  }

  /** The bytes that LI emits, fetched and executed, load the immediate. */
  lemma EmittedLoads(rd: Reg, imm: int, h: Hart)
    requires 0 <= imm < TWO64
    ensures Loads(WordsOf(CodeBytes(LiWords(h.xlen, rd, imm))), h, rd, imm)
  {
    hide Loads, LiWords, CodeBytes, WordsOf;
    CodeReadBack(LiWords(h.xlen, rd, imm));
    LiLoads(rd, imm, h);
  }

  /** And those that CALL emits go where CallReachesIff says. */
  lemma EmittedCalls(offset: int, h: Hart)
    requires -0x8000_0000 <= offset < 0x8000_0000
    ensures
      var r := Run(WordsOf(CodeBytes(CallWords(offset))), h);
      r.Some? && (r.value.pc == EvenTarget(h.pc + offset, Modulus(h.xlen)) <==> h.xlen == RV32 || offset < 0x7FFF_F800)
  {
    hide Run, CallWords, CodeBytes, WordsOf, EvenTarget;
    CodeReadBack(CallWords(offset));
    CallReachesIff(offset, h);
  }

  class CodeBuffer {
    var data: array<Byte>
    var cursor: nat
    var managed: bool

    ghost predicate Valid()
      reads this
    {
      cursor <= data.Length
    }

    ghost function Contents(): (mem: seq<Byte>)
      requires Valid()
      reads this, data
    {
      data[..cursor]
    }

    constructor (capacity: nat)
      ensures Valid() && Contents() == [] && data.Length == capacity && managed && fresh(data)
    {
      data := new Byte[capacity](_ => seq(8, _ => false));
      cursor := 0;
      managed := true;
    }

    /** Copies the value to the cursor and advances it. */
    method Emit(bytes: seq<Byte>)
      requires Valid() && cursor + |bytes| <= data.Length
      modifies this`cursor, data
      ensures Valid() && Contents() == old(Contents()) + bytes
    {
      Copy(cursor, bytes);
      cursor := cursor + |bytes|;
      assert data[..cursor] == old(data[..cursor]) + bytes;
    }

    /** memcpy to an absolute offset. */
    method Copy(at: nat, bytes: seq<Byte>)
      requires at + |bytes| <= data.Length
      modifies data
      ensures data[..] == old(data[..at]) + bytes + old(data[at + |bytes|..])
    {
      for k := 0 to |bytes|
        invariant forall j :: 0 <= j < data.Length ==>
                    data[j] == if at <= j < at + k then bytes[j - at] else old(data[j])
      {
        data[at + k] := bytes[k];
      }
    }

    /** memcpy over bytes already emitted. */
    method Overwrite(at: nat, bytes: seq<Byte>)
      requires Valid() && at + |bytes| <= cursor
      modifies data
      ensures Valid() && Contents() == Splice(old(Contents()), at, bytes)
    {
      ghost var was := data[..];
      Copy(at, bytes);
      SplicePrefix(was, cursor, at, bytes);
      assert data[..cursor] == data[..][..cursor] && was[..cursor] == old(data[..cursor]);
    }

    /** Loads `n` emitted bytes. */
    method Load(at: nat, n: nat) returns (bytes: seq<Byte>)
      requires Valid() && at + n <= cursor
      ensures bytes == Contents()[at..at + n]
    {
      bytes := data[at..at + n];
    }

    /** Reallocation keeps the contents and the cursor offset. */
    method Grow(newCapacity: nat)
      requires Valid() && managed
      modifies this`data
      ensures Valid() && Contents() == old(Contents()) && cursor == old(cursor)
      ensures data.Length == if newCapacity <= old(data.Length) then old(data.Length) else newCapacity
      ensures data == old(data) || fresh(data)
    {
      if newCapacity <= data.Length {
        return;
      }
      var newData := new Byte[newCapacity](_ => seq(8, _ => false));
      for k := 0 to data.Length
        invariant data == old(data) && fresh(newData)
        invariant newData[..k] == data[..k]
      {
        newData[k] := data[k];
      }
      data := newData;
    }
  }

  lemma SplicePrefix(full: seq<Byte>, cursor: nat, at: nat, bytes: seq<Byte>)
    requires at + |bytes| <= cursor <= |full|
    ensures (full[..at] + bytes + full[at + |bytes|..])[..cursor] == Splice(full[..cursor], at, bytes)
  {
  }

  class Assembler {
    const buffer: CodeBuffer
    /** Everything emitted so far, the labels seen, and where the bound ones are. */
    ghost var log: seq<Item>
    ghost var labels: set<Label>
    ghost var bound: map<Label, int>

    /** A label knows its location when bound, and otherwise exactly the sites that use it. */
    ghost predicate Tracked(l: Label)
      reads this, l
    {
      if l in bound then l.location == Some(bound[l]) && l.offsets == {}
      else l.location == None && l.offsets == Sites(log, l)
    }

    ghost predicate SitesKnown()
      reads this
    {
      forall i :: 0 <= i < |log| && log[i].Site? ==>
        && log[i].target in labels
        && (log[i].target in bound ==> InRange(log[i].br, Offset(log[i], bound)))
    }

    ghost predicate Valid()
      reads this, buffer, buffer.data, labels
    {
      && buffer.Valid()
      && Consistent(log, bound, buffer.Contents())
      && bound.Keys <= labels
      && (forall l :: l in labels ==> Tracked(l))
      && SitesKnown()
    }

    /** A label that belongs to this assembler, or has not been used at all. */
    ghost predicate Usable(l: Label)
      reads this, l
    {
      l in labels || (l.location == None && l.offsets == {})
    }

    constructor (capacity: nat)
      ensures Valid() && fresh(buffer) && fresh(buffer.data)
      ensures log == [] && bound == map[] && labels == {} && buffer.data.Length == capacity && buffer.managed
    {
      buffer := new CodeBuffer(capacity);
      log, labels, bound := [], {}, map[];
    }

    /** Any instruction without a label, or embedded data. */
    method Plain(bytes: seq<Byte>)
      requires Valid() && buffer.cursor + |bytes| <= buffer.data.Length
      modifies this`log, buffer`cursor, buffer.data
      ensures Valid()
      ensures log == old(log) + [Data(old(buffer.cursor), bytes)]
      ensures buffer.Contents() == old(buffer.Contents()) + bytes
    {
      ghost var item := Data(buffer.cursor, bytes);
      EmitConsistent(log, bound, buffer.Contents(), item);
      buffer.Emit(bytes);
      log := log + [item];
      forall l | l in labels
        ensures Tracked(l)
      {
        EmitSites(old(log), item, l);
      }
    }

    /** The buffer may be reallocated at any time. */
    method Grow(newCapacity: nat)
      requires Valid() && buffer.managed
      modifies buffer`data
      ensures Valid() && buffer.Contents() == old(buffer.Contents())
      ensures buffer.data.Length >= newCapacity && buffer.data.Length >= old(buffer.data.Length)
      ensures buffer.data == old(buffer.data) || fresh(buffer.data)
    {
      buffer.Grow(newCapacity);
    }

    /** Loads a constant; the recursion emits the most significant part first. */
    method LI(x: Xlen, rd: Reg, imm: int)
      requires 0 <= imm < TWO64
      requires Valid() && buffer.cursor + 4 * |LiWords(x, rd, imm)| <= buffer.data.Length
      modifies this`log, buffer`cursor, buffer.data
      ensures Valid()
      ensures buffer.Contents() == old(buffer.Contents()) + CodeBytes(LiWords(x, rd, imm))
      decreases Level(imm)
    {
      hide Consistent, Sites, Laid, BytesOf, Encode, Upper, Ctz, SlliWord, AddiWord, AddiwWord, LuiWord, CodeBytes,
           Tracked, SitesKnown, ShortWords, TailWords, FitsWord, Hi52, Lo12, Level;
      if x == RV32 || FitsWord(imm) {
        Short(rd, imm, x == RV64);
      } else {
        FitsWordIsLevelZero(imm);
        LevelDrops(imm);
        var lo12, hi52 := Lo12(imm), Hi52(imm);
        var shift := 12 + Ctz(hi52);
        ghost var upper := LiWords(x, rd, Upper(hi52) % TWO64);
        LI(x, rd, Upper(hi52) % TWO64);
        ShiftAndAdjust(rd, shift, lo12);
        CodeBytesConcat(upper, TailWords(rd, shift, lo12));
      }
    }

    method ShiftAndAdjust(rd: Reg, shift: int, lo12: int)
      requires Valid() && buffer.cursor + 4 * |TailWords(rd, shift, lo12)| <= buffer.data.Length
      modifies this`log, buffer`cursor, buffer.data
      ensures Valid()
      ensures buffer.Contents() == old(buffer.Contents()) + CodeBytes(TailWords(rd, shift, lo12))
    {
      hide Consistent, Sites, Laid, BytesOf, Encode, SlliWord, AddiWord;
      Emit32(SlliWord(rd, rd, shift));
      CodeBytesOne(SlliWord(rd, rd, shift));
      if lo12 != 0 {
        Emit32(AddiWord(rd, rd, lo12));
        CodeBytesOne(AddiWord(rd, rd, lo12));
        CodeBytesConcat([SlliWord(rd, rd, shift)], [AddiWord(rd, rd, lo12)]);
      } else {
        assert TailWords(rd, shift, lo12) == [SlliWord(rd, rd, shift)];
      }
    }

    method Short(rd: Reg, imm: int, wide: bool)
      requires Valid() && buffer.cursor + 4 * |ShortWords(rd, imm, wide)| <= buffer.data.Length
      modifies this`log, buffer`cursor, buffer.data
      ensures Valid()
      ensures buffer.Contents() == old(buffer.Contents()) + CodeBytes(ShortWords(rd, imm, wide))
    {
      hide Consistent, Sites, Laid, BytesOf, Encode, AddiWord, AddiwWord, LuiWord;
      var hi20, lo12 := Hi20(imm), imm % 4096;
      var rs1: Reg := 0;
      ghost var words := [];
      if hi20 != 0 {
        Emit32(LuiWord(rd, hi20));
        CodeBytesOne(LuiWord(rd, hi20));
        words := [LuiWord(rd, hi20)];
        rs1 := rd;
      }
      if lo12 != 0 || hi20 == 0 {
        var w := if wide then AddiwWord(rd, rs1, lo12) else AddiWord(rd, rs1, lo12);
        Emit32(w);
        CodeBytesOne(w);
        CodeBytesConcat(words, [w]);
        words := words + [w];
      }
      assert ShortWords(rd, imm, wide) == words;
    }

    method Emit32(w: Word)
      requires Valid() && buffer.cursor + 4 <= buffer.data.Length
      modifies this`log, buffer`cursor, buffer.data
      ensures Valid()
      ensures buffer.Contents() == old(buffer.Contents()) + BytesOf(w, 4)
    {
      Plain(BytesOf(w, 4));
    }

    /** A pc-relative far call. */
    method CALL(offset: int)
      requires Valid() && buffer.cursor + 8 <= buffer.data.Length
      modifies this`log, buffer`cursor, buffer.data
      ensures Valid()
      ensures buffer.Contents() == old(buffer.Contents()) + CodeBytes(CallWords(offset))
    {
      hide Consistent, Sites, Laid, BytesOf, Encode, AuipcWord, JalrWord;
      Emit32(AuipcWord(1, CallUpper(offset)));
      Emit32(JalrWord(1, CallLower(offset), 1));
      CodeBytesOne(AuipcWord(1, CallUpper(offset)));
      CodeBytesOne(JalrWord(1, CallLower(offset), 1));
      CodeBytesConcat([AuipcWord(1, CallUpper(offset))], [JalrWord(1, CallLower(offset), 1)]);
    }

    /** The displacement to a bound label, or zero after recording a pending use. */
    method LinkAndGetOffset(l: Label) returns (d: int)
      requires Valid() && Usable(l)
      modifies l
      ensures l.location == old(l.location)
      ensures l.location.Some? ==> d == l.location.value - buffer.cursor && l.offsets == old(l.offsets)
      ensures l.location.None? ==> d == 0 && l.offsets == old(l.offsets) + {buffer.cursor}
    {
      if l.location.Some? {
        d := l.location.value - buffer.cursor;
      } else {
        assert buffer.cursor !in l.offsets by {
          if l in labels { SitesBelow(log, buffer.cursor, l); }
        }
        l.offsets := l.offsets + {buffer.cursor};
        d := 0;
      }
    }

    /** A branch to a label, bound or not. */
    method BranchTo(br: Branch, l: Label)
      requires Valid() && Usable(l) && buffer.cursor + Size(br) <= buffer.data.Length
      requires l.location.Some? ==> InRange(br, l.location.value - buffer.cursor)
      requires l.location.Some? && br.CompressedJump? ==> (l.location.value - buffer.cursor) % 2 == 0
      modifies this`log, this`labels, buffer`cursor, buffer.data, l
      ensures Valid()
      ensures log == old(log) + [Site(old(buffer.cursor), br, l)]
      ensures labels == old(labels) + {l}
    {
      hide Consistent, Shown, Encode, InRange;
      ghost var item := Site(buffer.cursor, br, l);
      ghost var before, was := log, buffer.Contents();
      if l !in labels {
        NoSites(before, l, labels);
      }
      var d := LinkAndGetOffset(l);
      ShownSite(item, bound);
      assert BytesOf(Encode(br, d), Size(br)) == Shown(item, bound);
      EmitConsistent(before, bound, was, item);
      buffer.Emit(BytesOf(Encode(br, d), Size(br)));
      log, labels := log + [item], labels + {l};
      forall k | k in labels
        ensures Tracked(k)
      {
        EmitSites(before, item, k);
      }
    }

    /** Binds a label to the cursor and patches every pending use of it. */
    method Bind(l: Label)
      requires Valid() && Usable(l) && l.location == None
      requires forall i :: 0 <= i < |log| && log[i].Site? && log[i].target == l ==>
                 InRange(log[i].br, buffer.cursor - log[i].at)
      modifies this`labels, this`bound, buffer.data, l
      ensures Valid() && log == old(log)
      ensures bound == old(bound)[l := buffer.cursor] && labels == old(labels) + {l}
    {
      hide Consistent, PartlyBound, Shown, Encode, InRange, Sites;
      if l !in labels {
        NoSites(log, l, labels);
      }
      ghost var at := buffer.cursor;
      l.location := Some(buffer.cursor);
      PatchingStarts(log, bound, l, at, buffer.Contents());
      ResolveLabelOffsets(l);
      PatchingEnds(log, bound, l, at, buffer.Contents());
      l.offsets := {};
      bound, labels := bound[l := at], labels + {l};
    }

    /** ORs the displacement to the bound label into every pending branch. */
    method ResolveLabelOffsets(l: Label)
      requires buffer.Valid() && l.location.Some? && l.offsets == Sites(log, l) && l !in bound
      requires PartlyBound(log, bound, l, l.location.value, l.offsets, buffer.Contents())
      modifies buffer.data
      ensures PartlyBound(log, bound, l, l.location.value, {}, buffer.Contents())
    {
      hide PartlyBound;
      var rest := l.offsets;
      while rest != {}
        invariant buffer.Valid() && rest <= l.offsets
        invariant PartlyBound(log, bound, l, l.location.value, rest, buffer.Contents())
        decreases |rest|
      {
        var o :| o in rest;
        PatchOne(l, o, rest);
        rest := rest - {o};
      }
    }

    method PatchOne(l: Label, o: int, ghost rest: set<int>)
      requires buffer.Valid() && l.location.Some? && l !in bound
      requires o in rest && rest <= Sites(log, l)
      requires PartlyBound(log, bound, l, l.location.value, rest, buffer.Contents())
      modifies buffer.data
      ensures PartlyBound(log, bound, l, l.location.value, rest - {o}, buffer.Contents())
    {
      hide Encode, Patch, InstSize, BytesOf, WordOf, PartlyBound, Shown, Sites;
      ghost var mem, at := buffer.Contents(), l.location.value;
      ghost var i, br := SiteAt(log, bound, l, at, o, rest, mem);
      PatchingStep(log, bound, l, at, rest, mem, i);
      PatchedBytes(mem, o, br, at - o);
      var low := buffer.Load(o, 2);
      var size := InstSize(WordOf(low));
      var instruction := buffer.Load(o, size);
      var patched := Patch(WordOf(instruction), size, l.location.value - o);
      buffer.Overwrite(o, BytesOf(patched, size));
    }
  }

  /** Load, classify, OR, store: the bytes of the branch with its displacement. */
  lemma PatchedBytes(mem: seq<Byte>, o: int, br: Branch, d: int)
    requires 0 <= o && o + Size(br) <= |mem|
    requires mem[o..o + Size(br)] == BytesOf(Base(br), Size(br))
    requires mem[o..o + 2] == BytesOf(Base(br), Size(br))[..2]
    ensures InstSize(WordOf(mem[o..o + 2])) == Size(br)
    ensures BytesOf(Patch(WordOf(mem[o..o + Size(br)]), Size(br), d), Size(br)) == BytesOf(Encode(br, d), Size(br))
  {
    hide Encode, Patch, InstSize, BytesOf, WordOf, Base;
    PendingWord(br);
    PatchIsEncode(br, d);
  }

  /** The pending site at an offset, and the bytes it shows. */
  lemma SiteAt(log: seq<Item>, bound: map<Label, int>, l: Label, at: int, o: int, rest: set<int>, mem: seq<Byte>)
      returns (i: nat, br: Branch)
    requires PartlyBound(log, bound, l, at, rest, mem) && l !in bound
    requires o in rest && rest <= Sites(log, l)
    ensures i < |log| && log[i].Site? && log[i].target == l && log[i].at == o && log[i].br == br
    ensures 0 <= o && o + Size(br) <= |mem|
    ensures mem[o..o + Size(br)] == BytesOf(Base(br), Size(br))
    ensures mem[o..o + 2] == BytesOf(Base(br), Size(br))[..2]
    ensures Shown(log[i], bound[l := at]) == BytesOf(Encode(br, at - o), Size(br))
  {
    hide Encode, BytesOf, Base, Shown, Laid;
    assert o in Sites(log, l);
    i :| 0 <= i < |log| && log[i].Site? && log[i].target == l && log[i].at == o;
    br := log[i].br;
    LaidBelow(log, |mem|, i);
    PendingBytes(log[i], bound);
    assert ShownAt(mem, log[i].at, ShownPartly(log[i], bound, l, at, rest));
    ShownSite(log[i], bound[l := at]);
    assert mem[o..o + 2] == mem[o..o + Size(br)][..2];
  }

  /** A pending use is always at a new offset. */
  lemma SitesBelow(log: seq<Item>, end: int, l: Label)
    requires Laid(log, end)
    ensures forall o :: o in Sites(log, l) ==> 0 <= o < end
  {
    forall i | 0 <= i < |log| && log[i].Site? && log[i].target == l
      ensures 0 <= log[i].at < end
    {
      LaidBelow(log, end, i);
    }
  }

  lemma NoSites(log: seq<Item>, l: Label, labels: set<Label>)
    requires l !in labels && forall i :: 0 <= i < |log| && log[i].Site? ==> log[i].target in labels
    ensures Sites(log, l) == {}
  {
  }

  lemma ShownSite(item: Item, bound: map<Label, int>)
    requires item.Site?
    ensures Shown(item, bound) == BytesOf(Encode(item.br, Offset(item, bound)), Size(item.br))
  {
  }

  /** The image of an assembler whose labels are all bound: the two-pass reference, in which
      every branch lands on its label and no other byte was touched. */
  lemma Linked(a: Assembler, i: nat)
    requires a.Valid() && a.labels == a.bound.Keys && i < |a.log|
    ensures a.buffer.Contents() == Assemble(a.log, a.bound)
    ensures
      var mem, item := a.buffer.Contents(), a.log[i];
      && item.at + Length(item) <= |mem|
      && (item.Data? ==> mem[item.at..item.at + Length(item)] == item.bytes)
      && (item.Site? ==> LandsOn(WordOf(mem[item.at..item.at + Length(item)]), item.br, a.bound[item.target] - item.at))
  {
    hide Assemble, LandsOn, WordOf, InRange, Consistent;
    ConsistentIsAssembled(a.log, a.bound, a.buffer.Contents());
    LinkedImage(a.log, a.bound, a.buffer.Contents(), i);
  }
}
