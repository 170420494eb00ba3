/** Line breaking of a column of text. */
module TextFlow {
  import opened Wrappers

  datatype Column = Column(text: string, width: nat, indent: nat, initialIndent: Option<nat>)

  predicate IsWhitespace(c: char) {
    c == ' ' || c == '\t' || c == '\n' || c == '\r'
  }

  predicate IsBreakableBefore(c: char) {
    c in "[({<|"
  }

  predicate IsBreakableAfter(c: char) {
    c in "])}>.,:;*+-=&/\\"
  }

  predicate IsBoundary(line: string, at: nat)
    requires 0 < at <= |line|
  {
    || at == |line|
    || (IsWhitespace(line[at]) && !IsWhitespace(line[at - 1]))
    || IsBreakableBefore(line[at])
    || IsBreakableAfter(line[at - 1])
  }

  function IndentSize(col: Column, lineStart: nat): nat {
    if lineStart == 0 && col.initialIndent.Some? then col.initialIndent.value else col.indent
  }

  /** What the constructor asserts. */
  predicate Usable(col: Column) {
    col.width > col.indent && (col.initialIndent.Some? ==> col.width > col.initialIndent.value)
  }

  function Room(col: Column, lineStart: nat): (n: nat)
    requires Usable(col)
    ensures n >= 1
  {
    col.width - IndentSize(col, lineStart)
  }

  /** Whitespace from one place to another. */
  predicate Blank(s: string, from: nat, to: nat) {
    from <= to <= |s| && forall i :: from <= i < to ==> IsWhitespace(s[i])
  }

  // ----- what a line is to be

  /** The text ends or has a newline before the column is filled. */
  ghost predicate FitsLine(col: Column, start: nat, length: nat)
    requires Usable(col) && start < |col.text|
  {
    && 1 <= length < Room(col, start) && start + length <= |col.text|
    && (start + length == |col.text| || col.text[start + length] == '\n')
    && forall i :: start < i < start + length ==> col.text[i] != '\n'
  }

  /** The column is filled without meeting a newline after its first character. */
  ghost predicate Fills(col: Column, start: nat)
    requires Usable(col) && start < |col.text|
  {
    && start + Room(col, start) <= |col.text|
    && forall i :: start < i < start + Room(col, start) ==> col.text[i] != '\n'
  }

  /** `at` is the last boundary within the column. */
  ghost predicate LastBoundary(col: Column, start: nat, at: nat)
    requires Usable(col) && start < |col.text| && Fills(col, start)
  {
    && start < at <= start + Room(col, start) && IsBoundary(col.text, at)
    && forall i :: at < i <= start + Room(col, start) ==> !IsBoundary(col.text, i)
  }

  /** The line ends at the last boundary, less the whitespace before that. */
  ghost predicate BrokenAt(col: Column, start: nat, length: nat, at: nat)
    requires Usable(col) && start < |col.text| && Fills(col, start)
  {
    && LastBoundary(col, start, at) && 1 <= length <= at - start
    && !IsWhitespace(col.text[start + length - 1]) && Blank(col.text, start + length, at)
  }

  /** There is no boundary, or only whitespace before the last one. */
  ghost predicate Unbreakable(col: Column, start: nat)
    requires Usable(col) && start < |col.text| && Fills(col, start)
  {
    forall at: nat :: LastBoundary(col, start, at) ==> Blank(col.text, start, at)
  }

  /** The line that starts at `start`. */
  ghost predicate IsLine(col: Column, start: nat, length: nat, hyphen: bool)
    requires Usable(col) && start < |col.text|
  {
    if hyphen then Fills(col, start) && Unbreakable(col, start) && length == Room(col, start) - 1
    else FitsLine(col, start, length) || (Fills(col, start) && exists at: nat :: BrokenAt(col, start, length, at))
  }

  /** On the characters: a place after something other than whitespace where the text ends, where
      whitespace or an opening mark follows, or that a closing or joining mark precedes. */
  predicate NaturalBreak(text: string, k: nat)
    requires 0 < k <= |text|
  {
    && text[k - 1] !in " \t\n\r"
    && (k == |text| || text[k] in " \t\n\r[({<|" || text[k - 1] in "])}>.,:;*+-=&/\\")
  }

  /** A filled column goes up to its last natural break, or is hyphenated when it has none. */
  ghost predicate BrokenNaturally(col: Column, start: nat, length: nat, hyphen: bool)
    requires Usable(col) && start < |col.text| && Fills(col, start)
  {
    && (if hyphen then length == Room(col, start) - 1
        else 1 <= length <= Room(col, start) && NaturalBreak(col.text, start + length))
    && forall k :: (if hyphen then start else start + length) < k <= start + Room(col, start) ==>
         !NaturalBreak(col.text, k)
  }

  ghost predicate ByCharacters(col: Column, start: nat, length: nat, hyphen: bool)
    requires Usable(col) && start < |col.text|
  {
    if Fills(col, start) then BrokenNaturally(col, start, length, hyphen)
    else !hyphen && FitsLine(col, start, length)
  }

  /** Where the next line starts when one ended at p: past a newline, or past all whitespace. */
  function Resume(text: string, p: nat): (q: nat)
    requires p <= |text|
    ensures p <= q <= |text| && Blank(text, p, q)
  {
    if p < |text| && text[p] == '\n' then p + 1 else PastBlanks(text, p)
  }

  function PastBlanks(text: string, p: nat): (q: nat)
    requires p <= |text|
    ensures p <= q <= |text| && Blank(text, p, q) && (q < |text| ==> !IsWhitespace(text[q]))
    decreases |text| - p
  {
    if p < |text| && IsWhitespace(text[p]) then
      PastBlanks(text, p + 1)
    else p
  }

  function Spaces(n: nat): string {
    seq(n, i => ' ')
  }

  function Rendered(col: Column, start: nat, slice: string, hyphen: bool): string {
    Spaces(IndentSize(col, start)) + slice + (if hyphen then "-" else "")
  }

  class ConstIterator {
    const column: Column
    var lineStart: nat
    var lineLength: nat
    var parsedTo: nat
    var addHyphen: bool

    /** At the end, or at a line. */
    ghost predicate Valid()
      reads this
    {
      && Usable(column) && lineStart <= |column.text|
      && (lineStart < |column.text| ==> IsLine(column, lineStart, lineLength, addHyphen))
    }

    /** Looks for a natural break from the end of a filled column. */
    static method Break(col: Column, start: nat) returns (length: nat, hyphen: bool)
      requires Usable(col) && start < |col.text| && Fills(col, start)
      ensures IsLine(col, start, length, hyphen) && BrokenNaturally(col, start, length, hyphen)
    {
      hide IsBoundary, IsWhitespace, Fills, BrokenNaturally;
      var text, room := col.text, Room(col, start);
      assert start + room <= |text| by { FillsRoom(col, start); }
      length := room;
      while length > 0 && !IsBoundary(text, start + length)
        invariant 0 <= length <= room
        invariant forall i :: start + length < i <= start + room ==> !IsBoundary(text, i)
      {
        length := length - 1;
      }
      ghost var at := start + length;
      assert at == start || LastBoundary(col, start, at);
      while length > 0 && IsWhitespace(text[start + length - 1])
        invariant 0 <= length <= at - start && Blank(text, start + length, at)
      {
        length := length - 1;
      }
      hyphen := length == 0;
      if hyphen {
        assert Unbreakable(col, start) by { OneLastBoundary(col, start, at); }
        length := room - 1;
      } else {
        assert BrokenAt(col, start, length, at);
      }
      LineByCharacters(col, start, length, hyphen);
    }

    constructor (column: Column)
      requires Usable(column)
      ensures Valid() && this.column == column
      ensures lineStart == if column.text != "" && IsLine(column, 0, 0, true) then |column.text| else 0
    {
      this.column := column;
      lineStart, lineLength, parsedTo, addHyphen := 0, 0, 0, false;
      new;
      if column.text != "" {
        CalcLength();
      }
      if lineLength == 0 {
        lineStart := |column.text|;
      }
    }

    method Line() returns (line: string)
      requires Valid() && lineStart < |column.text|
      ensures lineStart + lineLength <= |column.text|
      ensures line == Rendered(column, lineStart, column.text[lineStart..lineStart + lineLength], addHyphen)
      ensures |line| <= column.width
    {
      LineFits(column, lineStart, lineLength, addHyphen);
      line := Spaces(IndentSize(column, lineStart)) + column.text[lineStart..lineStart + lineLength];
      if addHyphen {
        line := line + "-";
      }
    }

    method Advance()
      requires Valid() && lineStart < |column.text|
      modifies this
      ensures Valid()
      ensures old(lineStart + lineLength) <= |column.text|
      ensures lineStart == Resume(column.text, old(lineStart + lineLength))
    {
      LineFits(column, lineStart, lineLength, addHyphen);
      var text := column.text;
      lineStart := lineStart + lineLength;
      ghost var p := lineStart;
      if lineStart < |text| && text[lineStart] == '\n' {
        lineStart := lineStart + 1;
      } else {
        while lineStart < |text| && IsWhitespace(text[lineStart])
          invariant p <= lineStart <= |text| && PastBlanks(text, lineStart) == PastBlanks(text, p)
        {
          lineStart := lineStart + 1;
        }
      }
      if lineStart != |text| {
        CalcLength();
      }
    }

    method CalcLength()
      requires Usable(column) && lineStart < |column.text|
      modifies this
      ensures lineStart == old(lineStart) && IsLine(column, lineStart, lineLength, addHyphen)
      ensures ByCharacters(column, lineStart, lineLength, addHyphen)
    {
      hide IsBoundary, BrokenNaturally;
      var text, room := column.text, Room(column, lineStart);
      addHyphen := false;
      parsedTo := lineStart;
      if text[lineStart] == '\n' {
        parsedTo := parsedTo + 1;
      }
      var maxParseTo := if |text| < lineStart + room then |text| else lineStart + room;
      while parsedTo < maxParseTo && text[parsedTo] != '\n'
        invariant lineStart <= parsedTo <= maxParseTo && lineStart == old(lineStart) && !addHyphen
        invariant text[lineStart] == '\n' ==> parsedTo > lineStart
        invariant forall i :: lineStart < i < parsedTo ==> text[i] != '\n'
      {
        parsedTo := parsedTo + 1;
      }
      if parsedTo < lineStart + room {
        lineLength := parsedTo - lineStart;
        assert FitsLine(column, lineStart, lineLength);
      } else {
        lineLength, addHyphen := Break(column, lineStart);
      }
    }
  }

  lemma FillsRoom(col: Column, start: nat)
    requires Usable(col) && start < |col.text| && Fills(col, start)
    ensures start + Room(col, start) <= |col.text|
  {
  }

  lemma OneLastBoundary(col: Column, start: nat, at: nat)
    requires Usable(col) && start < |col.text| && Fills(col, start)
    requires start <= at <= start + Room(col, start) && Blank(col.text, start, at)
    requires at == start || LastBoundary(col, start, at)
    requires forall i :: at < i <= start + Room(col, start) ==> !IsBoundary(col.text, i)
    ensures Unbreakable(col, start)
  {
    hide IsBoundary, IsWhitespace;
    forall k: nat | LastBoundary(col, start, k)
      ensures Blank(col.text, start, k)
    {
      assert k <= at;
    }
  }

  /** A line is within the text and, with its indent and hyphen, within the width. */
  lemma LineFits(col: Column, start: nat, length: nat, hyphen: bool)
    requires Usable(col) && start < |col.text| && IsLine(col, start, length, hyphen)
    ensures start + length <= |col.text|
    ensures IndentSize(col, start) + length + (if hyphen then 1 else 0) <= col.width
    ensures length == 0 ==> hyphen && Room(col, start) == 1
  {
    hide IsBoundary, IsWhitespace;
  }

  lemma NaturalIsBoundary(text: string, k: nat)
    requires 0 < k <= |text|
    ensures NaturalBreak(text, k) <==> IsBoundary(text, k) && !IsWhitespace(text[k - 1])
  {
  }

  /** What a line is, told by the characters. */
  lemma LineByCharacters(col: Column, start: nat, length: nat, hyphen: bool)
    requires Usable(col) && start < |col.text| && IsLine(col, start, length, hyphen)
    ensures ByCharacters(col, start, length, hyphen)
  {
    hide IsBoundary, IsWhitespace, NaturalBreak;
    if Fills(col, start) {
      if hyphen {
        HyphenNatural(col, start);
      } else {
        var at: nat :| BrokenAt(col, start, length, at);
        BrokenNatural(col, start, length, at);
      }
    }
  }

  lemma BrokenNatural(col: Column, start: nat, length: nat, at: nat)
    requires Usable(col) && start < |col.text| && Fills(col, start) && BrokenAt(col, start, length, at)
    ensures BrokenNaturally(col, start, length, false)
  {
    var text, end := col.text, start + length;
    assert NaturalBreak(text, end);
    hide IsBoundary, IsWhitespace, NaturalBreak;
    forall k | end < k <= start + Room(col, start)
      ensures !NaturalBreak(text, k)
    {
      NaturalIsBoundary(text, k);
      assert k <= at ==> IsWhitespace(text[k - 1]);
    }
  }

  lemma HyphenNatural(col: Column, start: nat)
    requires Usable(col) && start < |col.text| && Fills(col, start) && Unbreakable(col, start)
    ensures BrokenNaturally(col, start, Room(col, start) - 1, true)
  {
    hide IsBoundary, IsWhitespace, NaturalBreak;
    forall k | start < k <= start + Room(col, start)
      ensures !NaturalBreak(col.text, k)
    {
      NaturalIsBoundary(col.text, k);
      if IsBoundary(col.text, k) {
        var at := LastFrom(col, start, k);
        assert IsWhitespace(col.text[k - 1]);
      }
    }
  }

  lemma {:induction false} LastFrom(col: Column, start: nat, k: nat) returns (at: nat)
    requires Usable(col) && start < |col.text| && Fills(col, start)
    requires start < k <= start + Room(col, start) && IsBoundary(col.text, k)
    ensures k <= at && LastBoundary(col, start, at)
    decreases start + Room(col, start) - k
  {
    hide IsBoundary;
    if i :| k < i <= start + Room(col, start) && IsBoundary(col.text, i) {
      at := LastFrom(col, start, i);
    } else {
      at := k;
    }
  }

  /** There is one line at each place. */
  lemma LineUnique(col: Column, start: nat, l: nat, h: bool, l': nat, h': bool)
    requires Usable(col) && start < |col.text| && IsLine(col, start, l, h) && IsLine(col, start, l', h')
    ensures l == l' && h == h'
  {
    hide IsBoundary, IsWhitespace;
    if Fills(col, start) && !h {
      var at: nat :| BrokenAt(col, start, l, at);
      BrokenOnce(col, start, l, at, l', h');
    }
  }

  lemma BrokenOnce(col: Column, start: nat, l: nat, at: nat, l': nat, h': bool)
    requires Usable(col) && start < |col.text| && Fills(col, start) && BrokenAt(col, start, l, at)
    requires IsLine(col, start, l', h')
    ensures l == l' && !h'
  {
    hide IsBoundary;
    var text := col.text;
    assert h' ==> Blank(text, start, at);
    var at': nat :| BrokenAt(col, start, l', at');
    assert at == at';
  }

  /** The iterator moves on exactly when there is room for two characters, or the one character
      that fits is whitespace or ends at a boundary. */
  lemma AdvancesIff(col: Column, start: nat, length: nat, hyphen: bool)
    requires Usable(col) && start < |col.text| && IsLine(col, start, length, hyphen)
    ensures start + length <= |col.text|
    ensures Resume(col.text, start + length) > start <==>
            Room(col, start) >= 2 || IsWhitespace(col.text[start]) || IsBoundary(col.text, start + 1)
  {
    LineFits(col, start, length, hyphen);
    if Room(col, start) == 1 {
      assert IsBoundary(col.text, start + 1) ==> LastBoundary(col, start, start + 1);
    }
  }

  /** A column of room one, at a place followed by a boundary, and at one that is not. */
  lemma NarrowLine(col: Column, start: nat)
    requires Usable(col) && start < |col.text| && Room(col, start) == 1 && !IsWhitespace(col.text[start])
    ensures if IsBoundary(col.text, start + 1) then IsLine(col, start, 1, false) else IsLine(col, start, 0, true)
  {
    assert Fills(col, start);
    if IsBoundary(col.text, start + 1) {
      assert BrokenAt(col, start, 1, start + 1);
    }
  }

  lemma ExampleText()
    ensures
      var t := "a bc";
      && !IsWhitespace(t[0]) && IsWhitespace(t[1]) && t[1] != '\n' && !IsWhitespace(t[2])
      && IsBoundary(t, 1) && !IsBoundary(t, 3)
  {
    var t := "a bc";
    assert t[0] == 'a' && t[1] == ' ' && t[2] == 'b' && t[3] == 'c';
  }

  lemma ResumePastOne(text: string, p: nat)
    requires p + 1 < |text| && IsWhitespace(text[p]) && text[p] != '\n' && !IsWhitespace(text[p + 1])
    ensures Resume(text, p) == p + 1
  {
    assert PastBlanks(text, p + 1) == p + 1;
  }

  lemma ResumeHere(text: string, p: nat)
    requires p < |text| && !IsWhitespace(text[p])
    ensures Resume(text, p) == p
  {
  }

  lemma Stalls(col: Column)
    requires Usable(col) && |col.text| == 4 && Room(col, 0) == 1 && Room(col, 1) == 1
    requires !IsWhitespace(col.text[0]) && IsWhitespace(col.text[1])
      && col.text[1] != '\n' && !IsWhitespace(col.text[2])
    requires IsBoundary(col.text, 1) && !IsBoundary(col.text, 3)
    ensures IsLine(col, 0, 1, false) && Resume(col.text, 1) == 2
    ensures IsLine(col, 2, 0, true) && Resume(col.text, 2) == 2
  {
    hide IsLine, IsBoundary, IsWhitespace, Resume;
    NarrowLine(col, 0);
    NarrowLine(col, 2);
    ResumePastOne(col.text, 1);
    ResumeHere(col.text, 2);
  }

  /** With room for one character the iterator can come to a place and stay there for ever. */
  lemma StallExample(col: Column)
    requires col == Column("a bc", 1, 0, None)
    ensures Usable(col)
    ensures IsLine(col, 0, 1, false) && Resume(col.text, 1) == 2
    ensures IsLine(col, 2, 0, true) && Resume(col.text, 2) == 2
  {
    hide IsLine, IsBoundary, IsWhitespace, Resume, Room;
    assert Room(col, 0) == 1 && Room(col, 1) == 1 by { OneWide(col); }
    ExampleText();
    Stalls(col);
  }

  lemma OneWide(col: Column)
    requires col.width == 1 && col.indent == 0 && col.initialIndent.None?
    ensures Usable(col) && Room(col, 0) == 1 && Room(col, 1) == 1
  {
  }

  // ----- when iteration ends

  /** The first line is empty: the constructor then goes to the end at once. */
  ghost predicate EmptyFirst(col: Column)
    requires Usable(col)
  {
    col.text != "" && IsLine(col, 0, 0, true)
  }

  /** From a place on, every character but whitespace is followed by a boundary. */
  predicate Breakable(text: string, from: nat) {
    forall i :: from <= i < |text| && !IsWhitespace(text[i]) ==> IsBoundary(text, i + 1)
  }

  /** There is room for two characters after the first line, or the text is breakable there. */
  ghost predicate Moves(col: Column)
    requires Usable(col)
  {
    || col.text == ""
    || Room(col, 1) >= 2
    || exists length: nat, hyphen: bool :: IsLine(col, 0, length, hyphen) && Breakable(col.text, length)
  }

  lemma EmptyFirstIff(col: Column)
    requires Usable(col) && col.text != ""
    ensures EmptyFirst(col) <==> Room(col, 0) == 1 && (IsWhitespace(col.text[0]) || !IsBoundary(col.text, 1))
  {
    if Room(col, 0) == 1 {
      assert Fills(col, 0);
      assert IsBoundary(col.text, 1) <==> LastBoundary(col, 0, 1);
      assert Blank(col.text, 0, 1) <==> IsWhitespace(col.text[0]);
    }
  }

  /** A place that iteration may have come to. */
  ghost predicate Going(col: Column, start: nat)
    requires Usable(col)
  {
    (start == 0 && !EmptyFirst(col) && Moves(col)) || (start > 0 && (Room(col, 1) >= 2 || Breakable(col.text, start)))
  }

  lemma GoesOn(col: Column, start: nat, length: nat, hyphen: bool)
    requires Usable(col) && start < |col.text| && Going(col, start) && IsLine(col, start, length, hyphen)
    ensures start + length <= |col.text|
    ensures var next := Resume(col.text, start + length); start < next && Going(col, next)
  {
    LineFits(col, start, length, hyphen);
    AdvancesIff(col, start, length, hyphen);
    if start == 0 && Room(col, 1) < 2 {
      var l: nat, h: bool :| IsLine(col, 0, l, h) && Breakable(col.text, l);
      LineUnique(col, 0, length, hyphen, l, h);
    }
    hide IsLine, IsBoundary, IsWhitespace;
  }

  /** A line's part of the text, whether it got a hyphen, and what was skipped after it. */
  datatype Piece = Piece(slice: string, hyphen: bool, skipped: string)

  function Rebuilt(pieces: seq<Piece>): string {
    if pieces == [] then ""
    else var p := pieces[|pieces| - 1]; Rebuilt(pieces[..|pieces| - 1]) + p.slice + p.skipped
  }

  /** Where piece k starts in the text. */
  function Start(pieces: seq<Piece>, k: nat): nat
    requires k <= |pieces|
  {
    |Rebuilt(pieces[..k])|
  }

  /** The piece is the line at its place, told by the characters too, shown with the indent of that
      place, and what follows is skipped: one newline, or whitespace that does not begin with one. */
  ghost predicate GoodPiece(col: Column, start: nat, p: Piece, line: string) {
    && Usable(col) && start < |col.text|
    && IsLine(col, start, |p.slice|, p.hyphen) && ByCharacters(col, start, |p.slice|, p.hyphen)
    && (p.slice == "" ==> Room(col, start) == 1)
    && line == Rendered(col, start, p.slice, p.hyphen) && |line| <= col.width
    && start + |p.slice| <= |col.text| && p.slice == col.text[start..start + |p.slice|]
    && p.skipped == col.text[start + |p.slice|..Resume(col.text, start + |p.slice|)]
    && (p.skipped == "\n" || (Blank(p.skipped, 0, |p.skipped|) && (p.skipped != "" ==> p.skipped[0] != '\n')))
  }

  lemma SkippedShape(text: string, p: nat)
    requires p <= |text|
    ensures
      var skipped := text[p..Resume(text, p)];
      skipped == "\n" || (Blank(skipped, 0, |skipped|) && (skipped != "" ==> skipped[0] != '\n'))
  {
    hide PastBlanks;
    var skipped := text[p..Resume(text, p)];
    assert forall i :: 0 <= i < |skipped| ==> skipped[i] == text[p + i];
  }

  lemma RenderedLength(col: Column, start: nat, slice: string, hyphen: bool)
    ensures |Rendered(col, start, slice, hyphen)| == IndentSize(col, start) + |slice| + (if hyphen then 1 else 0)
  {
  }

  lemma Joined(text: string, a: nat, b: nat, c: nat)
    requires a <= b <= c <= |text|
    ensures text[..a] + text[a..b] + text[b..c] == text[..c]
  {
  }

  lemma OnePiece(col: Column, start: nat, length: nat, hyphen: bool)
    requires Usable(col) && start < |col.text| && IsLine(col, start, length, hyphen)
    ensures start + length <= |col.text|
    ensures
      var next := Resume(col.text, start + length);
      var p := Piece(col.text[start..start + length], hyphen, col.text[start + length..next]);
      && col.text[..start] + p.slice + p.skipped == col.text[..next]
      && GoodPiece(col, start, p, Rendered(col, start, p.slice, hyphen))
  {
    hide IsLine, ByCharacters, IsWhitespace, Resume, Blank, Rendered, Room, IndentSize;
    LineFits(col, start, length, hyphen);
    LineByCharacters(col, start, length, hyphen);
    RenderedLength(col, start, col.text[start..start + length], hyphen);
    SkippedShape(col.text, start + length);
    Joined(col.text, start, start + length, Resume(col.text, start + length));
  }

  /** The lines keep within the width, each is the line at its place, and their parts of the text
      together with the whitespace skipped between them are the text. */
  ghost predicate Flows(col: Column, lines: seq<string>, pieces: seq<Piece>) {
    Flowing(col, lines, pieces) && Rebuilt(pieces) == col.text
  }

  ghost predicate Flowing(col: Column, lines: seq<string>, pieces: seq<Piece>) {
    && |pieces| == |lines|
    && forall k :: 0 <= k < |lines| ==> GoodPiece(col, Start(pieces, k), pieces[k], lines[k])
  }

  lemma OneMorePiece(col: Column, lines: seq<string>, pieces: seq<Piece>, line: string, p: Piece)
    requires Flowing(col, lines, pieces) && GoodPiece(col, |Rebuilt(pieces)|, p, line)
    ensures Flowing(col, lines + [line], pieces + [p])
    ensures Rebuilt(pieces + [p]) == Rebuilt(pieces) + p.slice + p.skipped
  {
    var pieces', lines' := pieces + [p], lines + [line];
    assert pieces'[..|pieces|] == pieces;
    hide GoodPiece, Rebuilt;
    forall k | 0 <= k < |lines'|
      ensures GoodPiece(col, Start(pieces', k), pieces'[k], lines'[k])
    {
      assert pieces'[..k] == pieces[..k];
      if k == |pieces| {
        assert pieces[..k] == pieces;
      }
    }
  }

  /** Every line of a column on which iteration ends. */
  method Write(col: Column) returns (lines: seq<string>)
    requires Usable(col) && (EmptyFirst(col) || Moves(col))
    ensures if EmptyFirst(col) then lines == [] else exists pieces :: Flows(col, lines, pieces)
  {
    hide GoodPiece, IsLine, Resume, Rendered, Flowing, Rebuilt, Moves, Going;
    lines := [];
    ghost var pieces: seq<Piece> := [];
    NothingFlows(col);
    var it := new ConstIterator(col);
    assert EmptyFirst(col) ==> it.lineStart == |col.text|;
    if !EmptyFirst(col) {
      assert it.lineStart == 0 && Going(col, 0) by { FirstPlace(col); }
    }
    while it.lineStart != |col.text|
      invariant it.Valid() && it.column == col && fresh(it)
      invariant if EmptyFirst(col) then lines == [] && it.lineStart == |col.text|
                else
                  && Going(col, it.lineStart) && Flowing(col, lines, pieces)
                  && Rebuilt(pieces) == col.text[..it.lineStart]
      decreases |col.text| - it.lineStart
    {
      ghost var start, end, hyphen := it.lineStart, it.lineStart + it.lineLength, it.addHyphen;
      GoesOn(col, start, it.lineLength, hyphen);
      OnePiece(col, start, it.lineLength, hyphen);
      var line := it.Line();
      it.Advance();
      ghost var p := Piece(col.text[start..end], hyphen, col.text[end..it.lineStart]);
      OneMorePiece(col, lines, pieces, line, p);
      lines, pieces := lines + [line], pieces + [p];
    }
    assert !EmptyFirst(col) ==> Flows(col, lines, pieces);
  }

  lemma FirstPlace(col: Column)
    requires Usable(col) && !EmptyFirst(col) && Moves(col)
    ensures Going(col, 0)
  {
    hide Moves, IsLine;
  }

  lemma NothingFlows(col: Column)
    ensures Flowing(col, [], []) && Rebuilt([]) == ""
  {
  }

  lemma PieceUnique(col: Column, start: nat, p: Piece, line: string, p': Piece, line': string)
    requires GoodPiece(col, start, p, line) && GoodPiece(col, start, p', line')
    ensures p == p' && line == line'
  {
    hide IsLine, ByCharacters, Fills, IsWhitespace, Resume, Blank, Rendered;
    LineUnique(col, start, |p.slice|, p.hyphen, |p'.slice|, p'.hyphen);
  }

  lemma {:induction false} PrefixUnique(col: Column, lines: seq<string>, pieces: seq<Piece>,
                                        lines': seq<string>, pieces': seq<Piece>, k: nat)
    requires Flowing(col, lines, pieces) && Flowing(col, lines', pieces') && k <= |lines| && k <= |lines'|
    ensures pieces[..k] == pieces'[..k] && lines[..k] == lines'[..k]
    decreases k
  {
    hide GoodPiece, Rebuilt;
    if k > 0 {
      PrefixUnique(col, lines, pieces, lines', pieces', k - 1);
      PieceUnique(col, Start(pieces, k - 1), pieces[k - 1], lines[k - 1], pieces'[k - 1], lines'[k - 1]);
      assert pieces[..k] == pieces[..k - 1] + [pieces[k - 1]] && pieces'[..k] == pieces'[..k - 1] + [pieces'[k - 1]];
      assert lines[..k] == lines[..k - 1] + [lines[k - 1]] && lines'[..k] == lines'[..k - 1] + [lines'[k - 1]];
    }
  }

  lemma StartWithin(col: Column, lines: seq<string>, pieces: seq<Piece>, k: nat)
    requires Flowing(col, lines, pieces) && k < |lines|
    ensures Start(pieces, k) < |col.text|
  {
    assert GoodPiece(col, Start(pieces, k), pieces[k], lines[k]);
  }

  lemma Longest(col: Column, lines: seq<string>, pieces: seq<Piece>, lines': seq<string>, pieces': seq<Piece>)
    requires Flows(col, lines, pieces) && Flowing(col, lines', pieces')
    ensures |lines'| <= |lines|
  {
    var n := |lines|;
    if n < |lines'| {
      StartWithin(col, lines', pieces', n);
      assert pieces[..n] == pieces;
      PrefixUnique(col, lines, pieces, lines', pieces', n);
    }
  }

  /** So the lines of a column are determined. */
  lemma LinesUnique(col: Column, lines: seq<string>, pieces: seq<Piece>, lines': seq<string>, pieces': seq<Piece>)
    requires Flows(col, lines, pieces) && Flows(col, lines', pieces')
    ensures lines == lines'
  {
    Longest(col, lines, pieces, lines', pieces');
    Longest(col, lines', pieces', lines, pieces);
    PrefixUnique(col, lines, pieces, lines', pieces', |lines|);
    assert lines[..|lines|] == lines && lines'[..|lines|] == lines';
  }

  // ----- and only then

  /** A character that is not followed by a boundary is never passed at room one. */
  lemma NotPassed(col: Column, start: nat, length: nat, hyphen: bool, i: nat)
    requires Usable(col) && start < |col.text| && IsLine(col, start, length, hyphen)
    requires start <= i < |col.text| && !IsWhitespace(col.text[i]) && !IsBoundary(col.text, i + 1)
    requires if start == 0 then length <= i else Room(col, start) == 1
    ensures start + length <= |col.text| && Resume(col.text, start + length) <= i
  {
    LineFits(col, start, length, hyphen);
    AdvancesIff(col, start, length, hyphen);
  }

  lemma PieceAt(col: Column, lines: seq<string>, pieces: seq<Piece>, k: nat)
    requires Flowing(col, lines, pieces) && k < |pieces|
    ensures
      var start, p := Start(pieces, k), pieces[k];
      && Usable(col) && start < |col.text| && IsLine(col, start, |p.slice|, p.hyphen)
      && start + |p.slice| <= |col.text| && Start(pieces, k + 1) == Resume(col.text, start + |p.slice|)
  {
    assert GoodPiece(col, Start(pieces, k), pieces[k], lines[k]);
    hide IsLine, IsBoundary, IsWhitespace, Resume, Rendered, Flowing;
    assert pieces[..k + 1][..k] == pieces[..k];
  }

  lemma StartsAtZero(pieces: seq<Piece>)
    ensures Start(pieces, 0) == 0
  {
  }

  lemma {:induction false} NeverPassed(col: Column, lines: seq<string>, pieces: seq<Piece>, i: nat, k: nat)
    requires Flowing(col, lines, pieces) && Usable(col) && Room(col, 1) == 1 && k <= |pieces|
    requires i < |col.text| && !IsWhitespace(col.text[i]) && !IsBoundary(col.text, i + 1)
    requires pieces != [] ==> |pieces[0].slice| <= i
    ensures Start(pieces, k) <= i
    decreases k
  {
    hide IsLine, IsBoundary, IsWhitespace, Resume, Flowing, Start;
    if k == 0 {
      StartsAtZero(pieces);
    } else {
      NeverPassed(col, lines, pieces, i, k - 1);
      PieceAt(col, lines, pieces, k - 1);
      if Start(pieces, k - 1) == 0 {
        FirstPiece(col, lines, pieces, k - 1);
      }
      NotPassed(col, Start(pieces, k - 1), |pieces[k - 1].slice|, pieces[k - 1].hyphen, i);
    }
  }

  /** A piece that starts at 0 is as long as the first. */
  lemma FirstPiece(col: Column, lines: seq<string>, pieces: seq<Piece>, k: nat)
    requires Flowing(col, lines, pieces) && k < |pieces| && Start(pieces, k) == 0
    ensures |pieces[k].slice| == |pieces[0].slice|
  {
    hide IsLine;
    assert GoodPiece(col, Start(pieces, 0), pieces[0], lines[0]) && Start(pieces, 0) == 0;
    assert GoodPiece(col, Start(pieces, k), pieces[k], lines[k]);
    PieceUnique(col, 0, pieces[0], lines[0], pieces[k], lines[k]);
  }

  lemma Reached(col: Column, lines: seq<string>, pieces: seq<Piece>)
    requires Flows(col, lines, pieces)
    ensures Start(pieces, |pieces|) == |col.text| && Start(pieces, 0) == 0
  {
    hide GoodPiece;
    assert pieces[..|pieces|] == pieces;
  }

  lemma MovesAt(col: Column, length: nat, hyphen: bool)
    requires Usable(col) && col.text != "" && IsLine(col, 0, length, hyphen) && Breakable(col.text, length)
    ensures Moves(col)
  {
    hide IsLine, Breakable;
  }

  lemma FlowBreakable(col: Column, lines: seq<string>, pieces: seq<Piece>)
    requires Usable(col) && Flows(col, lines, pieces) && Room(col, 1) == 1 && pieces != []
    ensures Breakable(col.text, |pieces[0].slice|)
  {
    Reached(col, lines, pieces);
    hide IsLine, IsBoundary, IsWhitespace, Flowing, Start, Rebuilt;
    var l := |pieces[0].slice|;
    forall i | l <= i < |col.text| && !IsWhitespace(col.text[i])
      ensures IsBoundary(col.text, i + 1)
    {
      if !IsBoundary(col.text, i + 1) {
        NeverPassed(col, lines, pieces, i, |pieces|);
      }
    }
  }

  lemma FlowMoves(col: Column, lines: seq<string>, pieces: seq<Piece>)
    requires Usable(col) && Flows(col, lines, pieces)
    ensures Moves(col)
  {
    Reached(col, lines, pieces);
    hide IsLine, IsBoundary, IsWhitespace, Flowing, Rebuilt, Breakable;
    if col.text != "" && Room(col, 1) < 2 {
      PieceAt(col, lines, pieces, 0);
      FlowBreakable(col, lines, pieces);
      hide Start, Moves;
      MovesAt(col, |pieces[0].slice|, pieces[0].hyphen);
    }
  }

  // ----- there is a line at every place

  lemma LineExists(col: Column, start: nat) returns (length: nat, hyphen: bool)
    requires Usable(col) && start < |col.text|
    ensures IsLine(col, start, length, hyphen)
  {
    hide IsBoundary, IsWhitespace;
    var text, room := col.text, Room(col, start);
    var end := start + 1;
    while end < |text| && end < start + room && text[end] != '\n'
      invariant start < end <= |text| && end <= start + room
      invariant forall i :: start < i < end ==> text[i] != '\n'
    {
      end := end + 1;
    }
    if end < start + room {
      length, hyphen := end - start, false;
      assert FitsLine(col, start, length);
    } else {
      length, hyphen := BreakExists(col, start);
    }
  }

  lemma BreakExists(col: Column, start: nat) returns (length: nat, hyphen: bool)
    requires Usable(col) && start < |col.text| && Fills(col, start)
    ensures IsLine(col, start, length, hyphen)
  {
    hide IsBoundary, IsWhitespace;
    var at := start + Room(col, start);
    while at > start && !IsBoundary(col.text, at)
      invariant start <= at <= start + Room(col, start)
      invariant forall i :: at < i <= start + Room(col, start) ==> !IsBoundary(col.text, i)
    {
      at := at - 1;
    }
    assert at == start || LastBoundary(col, start, at);
    length := at - start;
    while length > 0 && IsWhitespace(col.text[start + length - 1])
      invariant 0 <= length <= at - start && Blank(col.text, start + length, at)
    {
      length := length - 1;
    }
    hyphen := length == 0;
    if hyphen {
      OneLastBoundary(col, start, at);
      length := Room(col, start) - 1;
    } else {
      assert BrokenAt(col, start, length, at);
    }
  }

  lemma {:induction false} FlowExists(col: Column, start: nat, lines: seq<string>, pieces: seq<Piece>)
    returns (lines': seq<string>, pieces': seq<Piece>)
    requires Usable(col) && start <= |col.text| && Going(col, start)
    requires Flowing(col, lines, pieces) && Rebuilt(pieces) == col.text[..start]
    ensures Flows(col, lines', pieces')
    decreases |col.text| - start
  {
    if start == |col.text| {
      lines', pieces' := lines, pieces;
    } else {
      hide GoodPiece, IsLine, Resume, Rendered, Flowing, Rebuilt, Going;
      var length, hyphen := LineExists(col, start);
      GoesOn(col, start, length, hyphen);
      OnePiece(col, start, length, hyphen);
      var next := Resume(col.text, start + length);
      var p := Piece(col.text[start..start + length], hyphen, col.text[start + length..next]);
      OneMorePiece(col, lines, pieces, Rendered(col, start, p.slice, hyphen), p);
      lines', pieces' := FlowExists(col, next, lines + [Rendered(col, start, p.slice, hyphen)], pieces + [p]);
    }
  }

  /** Iteration that does not jump to the end at once comes to the end if and only if there is room
      for two characters after the first line, or every character after it but whitespace is
      followed by a boundary. */
  lemma FlowsIff(col: Column)
    requires Usable(col) && !EmptyFirst(col)
    ensures (exists lines, pieces :: Flows(col, lines, pieces)) <==> Moves(col)
  {
    hide Flows, Moves, EmptyFirst;
    if lines, pieces :| Flows(col, lines, pieces) {
      FlowMoves(col, lines, pieces);
    }
    if Moves(col) {
      FirstPlace(col);
      NothingFlows(col);
      var lines, pieces := FlowExists(col, 0, [], []);
    }
  }

  /** In a column with room for one character throughout, on the text alone. */
  lemma NarrowMovesIff(col: Column)
    requires Usable(col) && col.text != "" && Room(col, 0) == 1 && Room(col, 1) == 1 && !EmptyFirst(col)
    ensures Moves(col) <==> Breakable(col.text, 1)
  {
    EmptyFirstIff(col);
    NarrowLine(col, 0);
    hide IsBoundary, IsWhitespace, IsLine;
    if Moves(col) {
      var l: nat, h: bool :| IsLine(col, 0, l, h) && Breakable(col.text, l);
      LineUnique(col, 0, 1, false, l, h);
    }
  }
}
