/** Labels over a growing code image: a one-pass assembler with back-patching against a two-pass
    reference that knows every bound label from the start. */
module Linking {
  import opened Arithmetic
  import opened Words
  import opened Branches
  import opened RiscV
  import opened Wrappers

  type Byte = b: seq<bool> | |b| == 8 witness seq(8, _ => false)

  class Label {
    var location: Option<int>
    var offsets: set<int>

    constructor ()
      ensures location == None && offsets == {}
    {
      location := None;
      offsets := {};
    }
  }

  // ----- words in memory, little-endian

  function BytesOf(w: Word, n: nat): (bytes: seq<Byte>)
    requires n == 2 || n == 4
    ensures |bytes| == n
  {
    if n == 2 then [w[0..8], w[8..16]] else [w[0..8], w[8..16], w[16..24], w[24..32]]
  }

  /** A little-endian load of two or four bytes into a 32-bit register. */
  function WordOf(bytes: seq<Byte>): Word
    requires |bytes| == 2 || |bytes| == 4
  {
    var empty: seq<bool> := [];
    var half := empty + bytes[0] + bytes[1];
    if |bytes| == 2 then half + Bits(0, 16) else half + bytes[2] + bytes[3]
  }

  /** Lower bytes come first. */
  lemma LittleEndian(w: Word)
    ensures
      var b := BytesOf(w, 4);
      Nat(w) == Nat(b[0]) + 256 * (Nat(b[1]) + 256 * (Nat(b[2]) + 256 * Nat(b[3])))
    ensures BytesOf(w, 2) == BytesOf(w, 4)[..2]
  {
    hide Nat;
    assert Pow2(8) == 256;
    NatSplit(w, 8);
    NatSplit(w[8..], 8);
    NatSplit(w[16..], 8);
    assert w[8..][..8] == w[8..16] && w[8..][8..] == w[16..];
    assert w[16..][..8] == w[16..24] && w[16..][8..] == w[24..32];
    hide Pow2;
  }

  // ----- what has been emitted

  /** Plain bytes, or a branch to a label, each at its offset. */
  datatype Item =
    | Data(at: nat, bytes: seq<Byte>)
    | Site(at: nat, br: Branch, target: Label)

  function Length(item: Item): nat {
    match item
    case Data(_, bytes) => |bytes|
    case Site(_, br, _) => Size(br)
  }

  /** The items lie end to end from offset zero. */
  predicate Laid(log: seq<Item>, end: int) {
    if log == [] then end == 0
    else
      var last := log[|log| - 1];
      last.at + Length(last) == end && Laid(log[..|log| - 1], last.at)
  }

  /** Displacement of a site under the current bindings; zero while its label is unbound. */
  function Offset(item: Item, bound: map<Label, int>): int
    requires item.Site?
  {
    if item.target in bound then bound[item.target] - item.at else 0
  }

  /** The reference rendering of an item. */
  function Shown(item: Item, bound: map<Label, int>): (bytes: seq<Byte>)
    ensures |bytes| == Length(item)
  {
    match item
    case Data(_, bytes) => bytes
    case Site(_, br, _) => BytesOf(Encode(br, Offset(item, bound)), Size(br))
  }

  /** The two-pass reference: every item rendered with the bindings known up front. */
  function Assemble(log: seq<Item>, bound: map<Label, int>): seq<Byte> {
    if log == [] then [] else Assemble(log[..|log| - 1], bound) + Shown(log[|log| - 1], bound)
  }

  predicate ShownAt(mem: seq<Byte>, at: nat, bytes: seq<Byte>) {
    at + |bytes| <= |mem| && mem[at..at + |bytes|] == bytes
  }

  predicate Consistent(log: seq<Item>, bound: map<Label, int>, mem: seq<Byte>) {
    && Laid(log, |mem|)
    && forall i :: 0 <= i < |log| ==> ShownAt(mem, log[i].at, Shown(log[i], bound))
  }

  /** The offsets at which a label is used. */
  function Sites(log: seq<Item>, l: Label): set<int> {
    set i | 0 <= i < |log| && log[i].Site? && log[i].target == l :: log[i].at
  }

  // ----- layout

  lemma {:induction false} LaidBelow(log: seq<Item>, end: int, i: nat)
    requires Laid(log, end) && i < |log|
    ensures log[i].at + Length(log[i]) <= end
  {
    if i < |log| - 1 {
      LaidBelow(log[..|log| - 1], log[|log| - 1].at, i);
    }
  }

  lemma {:induction false} LaidApart(log: seq<Item>, end: int, i: nat, j: nat)
    requires Laid(log, end) && i < j < |log|
    ensures log[i].at + Length(log[i]) <= log[j].at
  {
    var front := log[..|log| - 1];
    if j < |log| - 1 {
      LaidApart(front, log[|log| - 1].at, i, j);
    } else {
      LaidBelow(front, log[j].at, i);
    }
  }

  // ----- emission

  lemma EmitConsistent(log: seq<Item>, bound: map<Label, int>, mem: seq<Byte>, item: Item)
    requires Consistent(log, bound, mem) && item.at == |mem|
    ensures Consistent(log + [item], bound, mem + Shown(item, bound))
  {
    hide Shown;
    var log', mem' := log + [item], mem + Shown(item, bound);
    assert log'[..|log'| - 1] == log;
    forall i | 0 <= i < |log'|
      ensures ShownAt(mem', log'[i].at, Shown(log'[i], bound))
    {
      if i < |log| {
        assert ShownAt(mem, log[i].at, Shown(log[i], bound));
      }
    }
  }

  lemma EmitSites(log: seq<Item>, item: Item, l: Label)
    ensures Sites(log + [item], l) ==
            Sites(log, l) + if item.Site? && item.target == l then {item.at} else {}
  {
    var log' := log + [item];
    forall o | o in Sites(log, l) ensures o in Sites(log', l) {
      var i :| 0 <= i < |log| && log[i].Site? && log[i].target == l && log[i].at == o;
      assert log'[i] == log[i];
    }
    assert log'[|log|] == item;
  }

  /** Without its last item. */
  lemma FrontConsistent(log: seq<Item>, bound: map<Label, int>, mem: seq<Byte>)
    requires log != [] && Consistent(log, bound, mem)
    ensures
      var n := |log| - 1;
      && log[n].at <= |mem| && mem[log[n].at..] == Shown(log[n], bound)
      && Consistent(log[..n], bound, mem[..log[n].at])
  {
    hide Shown;
    var n := |log| - 1;
    var front := mem[..log[n].at];
    assert ShownAt(mem, log[n].at, Shown(log[n], bound));
    forall i | 0 <= i < n
      ensures ShownAt(front, log[..n][i].at, Shown(log[..n][i], bound))
    {
      LaidBelow(log[..n], log[n].at, i);
      assert ShownAt(mem, log[i].at, Shown(log[i], bound));
      assert front[log[i].at..log[i].at + Length(log[i])] == mem[log[i].at..log[i].at + Length(log[i])];
    }
  }

  /** The image is the two-pass reference, byte for byte. */
  lemma {:induction false} ConsistentIsAssembled(log: seq<Item>, bound: map<Label, int>, mem: seq<Byte>)
    requires Consistent(log, bound, mem)
    ensures mem == Assemble(log, bound)
    decreases |log|
  {
    if log == [] {
      hide Shown, ShownAt;
    } else {
      hide Shown, Consistent, Length, Laid;
      FrontConsistent(log, bound, mem);
      var n := |log| - 1;
      ConsistentIsAssembled(log[..n], bound, mem[..log[n].at]);
      assert mem == mem[..log[n].at] + mem[log[n].at..];
    }
  }

  // ----- patching

  /** While a label is being resolved: sites still in `rest` keep displacement zero. */
  function ShownPartly(item: Item, bound: map<Label, int>, l: Label, at: int, rest: set<int>): seq<Byte> {
    if item.Site? && item.target == l && item.at !in rest then Shown(item, bound[l := at])
    else Shown(item, bound)
  }

  predicate PartlyBound(log: seq<Item>, bound: map<Label, int>, l: Label, at: int, rest: set<int>, mem: seq<Byte>) {
    && Laid(log, |mem|)
    && forall i :: 0 <= i < |log| ==> ShownAt(mem, log[i].at, ShownPartly(log[i], bound, l, at, rest))
  }

  lemma PatchingStarts(log: seq<Item>, bound: map<Label, int>, l: Label, at: int, mem: seq<Byte>)
    requires Consistent(log, bound, mem) && l !in bound
    ensures PartlyBound(log, bound, l, at, Sites(log, l), mem)
  {
    hide Shown;
    forall i | 0 <= i < |log|
      ensures ShownAt(mem, log[i].at, ShownPartly(log[i], bound, l, at, Sites(log, l)))
    {
      assert ShownAt(mem, log[i].at, Shown(log[i], bound));
    }
  }

  lemma PatchingEnds(log: seq<Item>, bound: map<Label, int>, l: Label, at: int, mem: seq<Byte>)
    requires PartlyBound(log, bound, l, at, {}, mem)
    ensures Consistent(log, bound[l := at], mem)
  {
    hide Shown, ShownPartly, ShownAt, Laid;
    forall i | 0 <= i < |log|
      ensures ShownAt(mem, log[i].at, Shown(log[i], bound[l := at]))
    {
      assert ShownAt(mem, log[i].at, ShownPartly(log[i], bound, l, at, {}));
      NoneLeft(log[i], bound, l, at);
    }
  }

  lemma NoneLeft(item: Item, bound: map<Label, int>, l: Label, at: int)
    ensures ShownPartly(item, bound, l, at, {}) == Shown(item, bound[l := at])
  {
    hide Encode, BytesOf;
  }

  function Splice(mem: seq<Byte>, at: nat, bytes: seq<Byte>): seq<Byte>
    requires at + |bytes| <= |mem|
  {
    mem[..at] + bytes + mem[at + |bytes|..]
  }

  lemma SpliceElsewhere(mem: seq<Byte>, at: nat, bytes: seq<Byte>, at': nat, bytes': seq<Byte>)
    requires at + |bytes| <= |mem| && ShownAt(mem, at', bytes')
    requires at' + |bytes'| <= at || at + |bytes| <= at'
    ensures ShownAt(Splice(mem, at, bytes), at', bytes')
  {
    var mem' := Splice(mem, at, bytes);
    assert mem'[at'..at' + |bytes'|] == mem[at'..at' + |bytes'|];
  }

  /** Rewriting one pending site with its resolved bytes. */
  lemma PatchingStep(log: seq<Item>, bound: map<Label, int>, l: Label, at: int, rest: set<int>, mem: seq<Byte>, i: nat)
    requires PartlyBound(log, bound, l, at, rest, mem)
    requires i < |log| && log[i].Site? && log[i].target == l && log[i].at in rest
    ensures log[i].at + Length(log[i]) <= |mem|
    ensures PartlyBound(log, bound, l, at, rest - {log[i].at},
                        Splice(mem, log[i].at, Shown(log[i], bound[l := at])))
  {
    hide Shown;
    LaidBelow(log, |mem|, i);
    var o, bytes := log[i].at, Shown(log[i], bound[l := at]);
    var mem', rest' := Splice(mem, o, bytes), rest - {o};
    forall k | 0 <= k < |log|
      ensures ShownAt(mem', log[k].at, ShownPartly(log[k], bound, l, at, rest'))
    {
      if k == i {
        assert mem'[o..o + |bytes|] == bytes;
      } else {
        if k < i { LaidApart(log, |mem|, k, i); } else { LaidApart(log, |mem|, i, k); }
        SitesDiffer(log, |mem|, i, k);
        assert ShownAt(mem, log[k].at, ShownPartly(log[k], bound, l, at, rest));
        SpliceElsewhere(mem, o, bytes, log[k].at, ShownPartly(log[k], bound, l, at, rest));
      }
    }
  }

  /** Sites have positive length, so no two items that are sites share an offset. */
  lemma SitesDiffer(log: seq<Item>, end: int, i: nat, k: nat)
    requires Laid(log, end) && i < |log| && k < |log| && i != k
    requires log[i].Site?
    ensures log[k].Site? ==> log[k].at != log[i].at
  {
    if k < i { LaidApart(log, end, k, i); } else { LaidApart(log, end, i, k); }
  }

  // ----- reading a pending site back

  lemma PendingBytes(item: Item, bound: map<Label, int>)
    requires item.Site? && item.target !in bound
    ensures Shown(item, bound) == BytesOf(Base(item.br), Size(item.br))
  {
    hide Encode, Base;
    EncodeZero(item.br);
  }

  /** The word loaded from a pending site is its base, and its low half tells the size. */
  lemma PendingWord(br: Branch)
    ensures WordOf(BytesOf(Base(br), Size(br))) == Base(br)
    ensures InstSize(WordOf(BytesOf(Base(br), Size(br))[..2])) == Size(br)
  {
    hide Base, Bits, InstSize;
    var w := Base(br);
    ZeroBits(16);
    if Size(br) == 2 {
      BaseHighClear(br);
    }
    assert WordOf(BytesOf(w, Size(br))) == w;
    var low := WordOf(BytesOf(w, Size(br))[..2]);
    SizeRecognised(br, low);
  }

  /** Storing and loading a word of either size. */
  lemma StoreLoad(w: Word, n: nat)
    requires n == 4 || (n == 2 && forall j :: 16 <= j < 32 ==> !w[j])
    ensures WordOf(BytesOf(w, n)) == w
  {
    hide Bits;
    ZeroBits(16);
    assert WordOf(BytesOf(w, n)) == w;
  }

  // ----- the linked image

  lemma EncodedHighClear(br: Branch, d: int)
    requires Size(br) == 2
    ensures forall j :: 16 <= j < 32 ==> !Encode(br, d)[j]
  {
    hide Encode, Base;
    EncodeOutsideField(br, d);
    BaseHighClear(br);
  }

  /** Once every label is bound, each branch in the image lands on its label and every other
      byte is the one that was emitted. */
  lemma LinkedImage(log: seq<Item>, bound: map<Label, int>, mem: seq<Byte>, i: nat)
    requires Consistent(log, bound, mem) && i < |log|
    requires forall k :: 0 <= k < |log| && log[k].Site? ==>
               log[k].target in bound && InRange(log[k].br, Offset(log[k], bound))
    ensures log[i].at + Length(log[i]) <= |mem|
    ensures log[i].Data? ==> mem[log[i].at..log[i].at + Length(log[i])] == log[i].bytes
    ensures log[i].Site? ==>
              LandsOn(WordOf(mem[log[i].at..log[i].at + Length(log[i])]), log[i].br, bound[log[i].target] - log[i].at)
  {
    hide Encode, BytesOf, WordOf, Displacement, InRange;
    LaidBelow(log, |mem|, i);
    assert ShownAt(mem, log[i].at, Shown(log[i], bound));
    if log[i].Site? {
      var br, d := log[i].br, Offset(log[i], bound);
      if Size(br) == 2 {
        EncodedHighClear(br, d);
      }
      StoreLoad(Encode(br, d), Size(br));
      Lands(br, d);
    }
  }
}
