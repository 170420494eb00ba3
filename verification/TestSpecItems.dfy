/** Whole test specifications written out and parsed back. */
module TestSpecItems {
  import opened TestSpec
  import opened TestSpecRoundTrip

  /** A tag in brackets, a name in quotes or a bare name, excluded by a tilde or not. */
  datatype Item = Tagged(excluded: bool, text: string) | Quoted(excluded: bool, text: string)
    | Bare(excluded: bool, text: string)

  function Kind(i: Item): (m: Mode)
    ensures m == Tag || m == QuotedName || m == Name
  {
    match i
    case Tagged(_, _) => Tag
    case Quoted(_, _) => QuotedName
    case Bare(_, _) => Name
  }

  function Opening(i: Item): string {
    Tilde(i.excluded) + if i.Tagged? then "[" else if i.Quoted? then "\"" else ""
  }

  function Closing(i: Item): string {
    if i.Tagged? then "]" else if i.Quoted? then "\"" else ""
  }

  function Written(i: Item): string {
    Opening(i) + Quote(Kind(i), i.text) + Closing(i)
  }

  /** The patterns of a tag or name; a tag that starts with a dot is hidden as well. */
  function Patterns(tag: bool, text: string, from: string): seq<Pattern> {
    if text == "" then []
    else if !tag then [NamePattern(text, from)]
    else if |text| > 1 && text[0] == '.' then [TagPattern(".", from), TagPattern(text[1..], from)]
    else [TagPattern(text, from)]
  }

  /** The filter with these patterns required or forbidden as well. */
  function With(f: Filter, forbidden: bool, ps: seq<Pattern>): Filter {
    if forbidden then Filter(f.required, f.forbidden + ps) else Filter(f.required + ps, f.forbidden)
  }

  /** The filter with a token as read: it forbids what follows "exclude:". */
  function WithToken(f: Filter, tag: bool, x: bool, token: string, from: string): Filter {
    if StartsWith(token, "exclude:") then With(f, true, Patterns(tag, token[8..], from))
    else With(f, x, Patterns(tag, token, from))
  }

  function WithItem(f: Filter, i: Item): Filter {
    WithToken(f, i.Tagged?, i.excluded, i.text, Written(i))
  }

  // ----- ending one item

  lemma PatternsAdded(f: Filter, x: bool, tag: bool, text: string, from: string)
    ensures
      With(f, x, Patterns(tag, text, from)) ==
      if tag then AddTags(f, x, text, from) else if text == "" then f else AddPattern(f, x, NamePattern(text, from))
  {
    var r, b := f.required, f.forbidden;
    assert r + [] == r && b + [] == b;
    if tag && |text| > 1 {
      var p1, p2 := TagPattern(".", from), TagPattern(text[1..], from);
      assert r + [p1] + [p2] == r + [p1, p2] && b + [p1] + [p2] == b + [p1, p2];
    }
  }

  /** Nothing begun, and this filter and specification so far. */
  predicate Settled(st: State, f: Filter, spec: Spec) {
    Clean(st) && st.filter == f && st.spec == spec
  }

  /** Ending a mode adds what was read to the filter. */
  lemma Ended(st: State)
    requires Inv(st) && (st.mode == Name || st.mode == QuotedName || st.mode == Tag)
    ensures Settled(EndMode(st), WithToken(st.filter, st.mode == Tag, st.exclusion, Token(st), st.substring), st.spec)
  {
    hide Token, AddTags, AddPattern, With, Patterns;
    var tag, token := st.mode == Tag, Token(st);
    PatternsAdded(st.filter, st.exclusion, tag, token, st.substring);
    if StartsWith(token, "exclude:") {
      PatternsAdded(st.filter, true, tag, token[8..], st.substring);
    }
  }

  /** The closing bracket or quote. */
  lemma Closed(st: State, b: Begun, p: string, c: char)
    requires Reading(st, b, p) && b.pos == |b.left|
    requires (b.mode == Tag && c == ']') || (b.mode == QuotedName && c == '"')
    ensures
      var from := b.prefix + Quote(b.mode, p) + [c];
      var f := WithToken(b.filter, b.mode == Tag, b.excluded, b.left + p, from);
      VisitChar(st, c).ok && Settled(VisitChar(st, c).st, f, b.spec)
  {
    var s := st.(substring := b.prefix + Quote(b.mode, p) + [c]);
    ReadingToken(st, b, p);
    assert Token(s) == Token(st);
    hide Quote, Added, Token, WithToken, EndMode, Clean;
    Ended(s);
    assert VisitChar(st, c).st == EndMode(s);
  }

  // ----- reading one item

  function Begin(st: State, i: Item): Begun {
    Begun(Kind(i), i.excluded, Opening(i), "", 0, st.filter, st.spec)
  }

  lemma MarkVisited(st: State, i: Item, c: char)
    requires Inv(st) && st.mode == None && ((i.Tagged? && c == '[') || (i.Quoted? && c == '"'))
    ensures VisitChar(st, c) == Step(st.(mode := Kind(i), substring := st.substring + [c]), true)
  {
    hide Inv, EndMode;
  }

  /** The bracket or quote after the tilde. */
  lemma MarkRead(st: State, i: Item, c: char)
    requires st.mode == None && st.realPatternPos == 0 && st.patternName == "" && st.escapeChars == []
    requires st.exclusion == i.excluded && st.substring == Tilde(i.excluded)
    requires (i.Tagged? && c == '[') || (i.Quoted? && c == '"')
    ensures Inv(st) && VisitChar(st, c).ok && Reading(VisitChar(st, c).st, Begin(st, i), "")
  {
    assert Opening(i) == Tilde(i.excluded) + [c];
    hide Tilde, Opening, VisitChar;
    assert Opening(i) + Quote(Kind(i), "") == Opening(i) && "" + Quote(Kind(i), "") == "";
    MarkVisited(st, i, c);
  }

  lemma NoMark(st: State, i: Item)
    requires st.mode == None && st.realPatternPos == 0 && st.patternName == "" && st.escapeChars == []
    requires st.exclusion == i.excluded && st.substring == Tilde(i.excluded) && i.Bare?
    ensures Inv(st) && Reading(st, Begin(st, i), "") && Opening(i) == Tilde(i.excluded)
  {
    assert Opening(i) == Tilde(i.excluded) + "";
    assert Opening(i) + Quote(Kind(i), "") == Opening(i) && "" + Quote(Kind(i), "") == "";
    assert !HasPlain("");
  }

  /** The tilde and the bracket or quote that open an item. */
  lemma Opened(st: State, i: Item)
    requires Clean(st)
    ensures VisitAll(st, Opening(i)).ok && Reading(VisitAll(st, Opening(i)).st, Begin(st, i), "")
  {
    var st1 := st.(exclusion := i.excluded, substring := Tilde(i.excluded));
    TildeRead(st, i.excluded);
    hide VisitAll, VisitChar, Reading, Tilde;
    if i.Bare? {
      NoMark(st1, i);
    } else {
      var c := if i.Tagged? then '[' else '"';
      MarkRead(st1, i, c);
      VisitBoth(st, Tilde(i.excluded), [c]);
      VisitOne(st1, c);
      assert Opening(i) == Tilde(i.excluded) + [c];
    }
  }

  /** A bare name that the parser takes for one. */
  predicate Readable(i: Item) {
    i.Bare? ==> HasPlain(i.text) && !Diverted(i.text)
  }

  /** Between items or at the end of a bare name, with these patterns so far once that is ended. */
  predicate Between(st: State, f: Filter, spec: Spec) {
    Inv(st) && (st.mode == None || st.mode == Name) && Settled(EndMode(st), f, spec)
  }

  lemma ReadingInv(st: State, b: Begun, p: string)
    requires Reading(st, b, p)
    ensures Inv(st)
  {
  }

  /** An item, read where nothing is begun, adds its patterns to the filter in order. */
  lemma ItemRead(st: State, i: Item)
    requires Clean(st) && Readable(i)
    ensures
      var r := VisitAll(st, Written(i));
      && r.ok && Between(r.st, WithItem(st.filter, i), st.spec)
      && (if i.Bare? then r.st.mode == Name && r.st.substring == Written(i) else r.st.mode == None)
  {
    var b, body := Begin(st, i), Quote(Kind(i), i.text);
    Opened(st, i);
    var st1 := VisitAll(st, Opening(i)).st;
    ReadingInv(st1, b, "");
    assert Readable(i) ==> (Waits(b, "") ==> !Diverted(i.text));
    hide VisitAll, VisitChar, Quote, HasPlain, Diverted, Opening, Reading, Between, WithItem, Closing;
    ReadAll(st1, b, "", i.text);
    assert "" + i.text == i.text;
    var st2 := VisitAll(st1, body).st;
    ReadingInv(st2, b, i.text);
    VisitBoth(st, Opening(i) + body, Closing(i));
    VisitBoth(st, Opening(i), body);
    ItemClosed(st2, b, i);
    assert Written(i) == Opening(i) + body + Closing(i);
  }

  lemma ItemClosed(st: State, b: Begun, i: Item)
    requires Readable(i) && b.left == "" && b.pos == 0
    requires b.mode == Kind(i) && b.excluded == i.excluded && b.prefix == Opening(i) && Reading(st, b, i.text)
    ensures
      var r := VisitAll(st, Closing(i));
      && r.ok && Between(r.st, WithItem(b.filter, i), b.spec)
      && (if i.Bare? then r.st.mode == Name && r.st.substring == Written(i) else r.st.mode == None)
  {
    assert "" + i.text == i.text;
    if i.Bare? {
      assert Written(i) == Opening(i) + Quote(Kind(i), i.text);
      ReadingToken(st, b, i.text);
      hide Quote, HasPlain, Diverted, Opening, Token, WithToken, EndMode, Settled;
      Ended(st);
    } else {
      var c := Closing(i)[0];
      VisitOne(st, c);
      hide Quote, Opening, WithToken, Reading, VisitAll, VisitChar;
      Closed(st, b, i.text, c);
      CleanInv(VisitChar(st, c).st);
    }
  }

  lemma CleanInv(st: State)
    requires Clean(st)
    ensures Inv(st) && EndMode(st) == st
  {
  }

  // ----- reading filters

  function WithItems(f: Filter, items: seq<Item>): Filter
    decreases |items|
  {
    if items == [] then f else WithItems(WithItem(f, items[0]), items[1..])
  }

  function WrittenFilter(items: seq<Item>): string {
    if items == [] then "" else Written(items[0]) + WrittenFilter(items[1..])
  }

  /** A bare name ends at the bracket of a tag, unless it is the word that excludes that tag. */
  predicate Parted(i: Item, next: Item) {
    i.Bare? ==> next.Tagged? && !next.excluded && Written(i) != "exclude:"
  }

  predicate Row(items: seq<Item>) {
    && (forall k :: 0 <= k < |items| ==> Readable(items[k]))
    && (forall k :: 0 < k < |items| ==> Parted(items[k - 1], items[k]))
  }

  /** The parser goes on from a name as from its end. */
  predicate Resumes(st: State, items: seq<Item>) {
    st.mode == Name && items != [] ==> items[0].Tagged? && !items[0].excluded && st.substring != "exclude:"
  }

  lemma SameAfterName(st: State, rest: string)
    requires Inv(st) && st.mode == Name && Clean(EndMode(st))
    requires rest != "" && rest[0] == '[' && st.substring != "exclude:"
    ensures Inv(EndMode(st)) && VisitAll(st, rest) == VisitAll(EndMode(st), rest)
  {
    CleanInv(EndMode(st));
    hide EndMode;
    assert VisitChar(st, '[') == VisitChar(EndMode(st), '[');
  }

  lemma TaggedFirst(i: Item)
    requires i.Tagged? && !i.excluded
    ensures Written(i) != "" && Written(i)[0] == '['
  {
    assert Opening(i) == "" + "[";
  }

  /** The first item of a row, after whatever went before. */
  lemma FirstRead(st: State, f: Filter, spec: Spec, items: seq<Item>)
    requires Between(st, f, spec) && items != [] && Row(items) && Resumes(st, items)
    ensures
      var r := VisitAll(st, Written(items[0]));
      r.ok && Between(r.st, WithItem(f, items[0]), spec) && Resumes(r.st, items[1..])
  {
    var i := items[0];
    assert Readable(i);
    if st.mode == Name {
      TaggedFirst(i);
      hide Written, EndMode, VisitAll, WithItem;
      SameAfterName(st, Written(i));
      ItemRead(EndMode(st), i);
    } else {
      hide Written, VisitAll, WithItem;
      ItemRead(st, i);
      if |items| > 1 {
        assert Parted(items[0], items[1]);
      }
    }
  }

  lemma {:induction false} FilterRead(st: State, f: Filter, spec: Spec, items: seq<Item>)
    requires Between(st, f, spec) && Row(items) && Resumes(st, items)
    ensures VisitAll(st, WrittenFilter(items)).ok
    ensures Between(VisitAll(st, WrittenFilter(items)).st, WithItems(f, items), spec)
    decreases |items|
  {
    if items != [] {
      hide VisitAll, WithItem, Written, EndMode, Resumes;
      FirstRead(st, f, spec, items);
      VisitBoth(st, Written(items[0]), WrittenFilter(items[1..]));
      RowRest(items);
      FilterRead(VisitAll(st, Written(items[0])).st, WithItem(f, items[0]), spec, items[1..]);
    }
  }

  lemma RowRest(items: seq<Item>)
    requires items != [] && Row(items)
    ensures Row(items[1..])
  {
    hide Readable, Parted;
    forall k | 0 < k < |items[1..]|
      ensures Parted(items[1..][k - 1], items[1..][k])
    {
      assert Parted(items[k + 1 - 1], items[k + 1]);
    }
  }

  // ----- reading specifications

  function WrittenSpec(rows: seq<seq<Item>>): string {
    if rows == [] then ""
    else if |rows| == 1 then WrittenFilter(rows[0])
    else WrittenFilter(rows[0]) + "," + WrittenSpec(rows[1..])
  }

  /** A filter without patterns is none. */
  function Kept(f: Filter): seq<Filter> {
    if f == NO_FILTER then [] else [f]
  }

  /** The filters of the rows, the first of which continues f. */
  function Filters(f: Filter, rows: seq<seq<Item>>): seq<Filter>
    decreases |rows|
  {
    if rows == [] then Kept(f)
    else if |rows| == 1 then Kept(WithItems(f, rows[0]))
    else Kept(WithItems(f, rows[0])) + Filters(NO_FILTER, rows[1..])
  }

  predicate Rows(rows: seq<seq<Item>>) {
    forall k :: 0 <= k < |rows| ==> Row(rows[k])
  }

  function WithFilters(spec: Spec, fs: seq<Filter>): Spec {
    spec.(filters := spec.filters + fs)
  }

  /** A comma ends the filter. */
  lemma CommaRead(st: State, f: Filter, spec: Spec)
    requires Between(st, f, spec)
    ensures VisitAll(st, ",").ok && Settled(VisitAll(st, ",").st, NO_FILTER, WithFilters(spec, Kept(f)))
  {
    VisitOne(st, ',');
    assert spec.filters + [] == spec.filters;
    hide EndMode, VisitAll;
  }

  lemma SettledBetween(st: State, f: Filter, spec: Spec)
    requires Settled(st, f, spec)
    ensures Between(st, f, spec)
  {
    CleanInv(st);
  }

  lemma FinishedWith(st: State, f: Filter, spec: Spec)
    requires Settled(st, f, spec)
    ensures Finished(st) == WithFilters(spec, Kept(f))
  {
    assert spec.filters + [] == spec.filters;
  }

  predicate Reads(r: Step, result: Spec) {
    r.ok && Inv(r.st) && Clean(EndMode(r.st)) && Finished(EndMode(r.st)) == result
  }

  lemma LastRead(st: State, f: Filter, spec: Spec, items: seq<Item>)
    requires Settled(st, f, spec) && Row(items)
    ensures Reads(VisitAll(st, WrittenFilter(items)), WithFilters(spec, Kept(WithItems(f, items))))
  {
    SettledBetween(st, f, spec);
    FilterRead(st, f, spec, items);
    hide VisitAll, WithItems, WrittenFilter, EndMode;
    FinishedWith(EndMode(VisitAll(st, WrittenFilter(items)).st), WithItems(f, items), spec);
  }

  lemma RowAndComma(st: State, f: Filter, spec: Spec, items: seq<Item>, rest: string) returns (next: State)
    requires Settled(st, f, spec) && Row(items)
    ensures Inv(st) && Inv(next) && Settled(next, NO_FILTER, WithFilters(spec, Kept(WithItems(f, items))))
    ensures VisitAll(st, WrittenFilter(items) + "," + rest) == VisitAll(next, rest)
  {
    SettledBetween(st, f, spec);
    FilterRead(st, f, spec, items);
    hide VisitAll, WithItems, WrittenFilter, EndMode, Settled, Clean, Row;
    var a := WrittenFilter(items);
    var st1 := VisitAll(st, a).st;
    CommaRead(st1, WithItems(f, items), spec);
    next := VisitAll(st1, ",").st;
    SettledBetween(next, NO_FILTER, WithFilters(spec, Kept(WithItems(f, items))));
    VisitBoth(st, a + ",", rest);
    VisitBoth(st, a, ",");
  }

  lemma FiltersJoin(spec: Spec, a: seq<Filter>, b: seq<Filter>)
    ensures WithFilters(WithFilters(spec, a), b) == WithFilters(spec, a + b)
  {
    assert spec.filters + a + b == spec.filters + (a + b);
  }

  lemma Unfolded(f: Filter, rows: seq<seq<Item>>)
    ensures rows == [] ==> WrittenSpec(rows) == WrittenFilter([]) && Filters(f, rows) == Kept(WithItems(f, []))
    ensures |rows| == 1 ==> WrittenSpec(rows) == WrittenFilter(rows[0])
    ensures |rows| == 1 ==> Filters(f, rows) == Kept(WithItems(f, rows[0]))
    ensures |rows| > 1 ==> WrittenSpec(rows) == WrittenFilter(rows[0]) + "," + WrittenSpec(rows[1..])
    ensures |rows| > 1 ==> Filters(f, rows) == Kept(WithItems(f, rows[0])) + Filters(NO_FILTER, rows[1..])
  {
  }

  lemma {:induction false} SpecRead(st: State, f: Filter, spec: Spec, rows: seq<seq<Item>>)
    requires Settled(st, f, spec) && Rows(rows)
    ensures Inv(st) && Reads(VisitAll(st, WrittenSpec(rows)), WithFilters(spec, Filters(f, rows)))
    decreases |rows|
  {
    SettledBetween(st, f, spec);
    Unfolded(f, rows);
    hide VisitAll, WithItems, Settled, WrittenFilter, WrittenSpec, Filters, Kept, Row, Reads, EndMode, Inv, WithFilters;
    if |rows| <= 1 {
      NoItems();
      LastRead(st, f, spec, if rows == [] then [] else rows[0]);
    } else {
      var fs, rest := Kept(WithItems(f, rows[0])), Filters(NO_FILTER, rows[1..]);
      var next := RowAndComma(st, f, spec, rows[0], WrittenSpec(rows[1..]));
      SpecRead(next, NO_FILTER, WithFilters(spec, fs), rows[1..]);
      FiltersJoin(spec, fs, rest);
    }
  }

  lemma NoItems()
    ensures Row([])
  {
  }

  /** A specification written out parses back: one filter for each part between commas that has
      patterns, with the patterns of its items required or forbidden in the order they stand. */
  lemma SpecRoundTrip(st: State, arg: string, rows: seq<seq<Item>>)
    requires Clean(st) && Rows(rows)
    ensures
      var r := Parsed(st, arg, WrittenSpec(rows));
      Clean(r) && Finished(r) == WithFilters(st.spec, Filters(st.filter, rows))
  {
    SpecRead(st, st.filter, st.spec, rows);
    hide VisitAll, WrittenSpec, Filters, Finished, EndMode;
    assert Restarted(st) == st;
  }

  // ----- one tag

  /** A tag's patterns: with a leading dot, the dot and the rest. */
  function TagPatterns(t: string, s: string): seq<Pattern> {
    if |t| > 1 && t[0] == '.' then [TagPattern(".", s), TagPattern(t[1..], s)] else [TagPattern(t, s)]
  }

  /** Exactly one filter, which requires or forbids exactly the tag. */
  ghost predicate OnlyTag(spec: Spec, forbidden: bool, t: string) {
    exists s :: spec == Spec([if forbidden then Filter([], TagPatterns(t, s)) else Filter(TagPatterns(t, s), [])], [])
  }

  lemma TagPatternsDiffer(t: string, s: string, t': string, s': string)
    requires TagPatterns(t, s) == TagPatterns(t', s')
    ensures t == t'
  {
    var ps, qs := TagPatterns(t, s), TagPatterns(t', s');
    assert ps[|ps| - 1] == qs[|qs| - 1];
    if |ps| == 2 {
      assert t == "." + t[1..] && t' == "." + t'[1..];
    }
  }

  lemma AloneTag(x: bool, token: string, from: string, forbidden: bool, t: string)
    ensures OnlyTag(Spec(Kept(With(NO_FILTER, x, Patterns(true, token, from))), []), forbidden, t)
            <==> token != "" && token == t && x == forbidden
  {
    var ps := Patterns(true, token, from);
    assert [] + ps == ps;
    var spec := Spec(Kept(With(NO_FILTER, x, ps)), []);
    assert token != "" ==> ps == TagPatterns(token, from);
    if OnlyTag(spec, forbidden, t) {
      var s :| spec == Spec([if forbidden then Filter([], TagPatterns(t, s)) else Filter(TagPatterns(t, s), [])], []);
      var f := if forbidden then Filter([], TagPatterns(t, s)) else Filter(TagPatterns(t, s), []);
      assert spec.filters[0] == f && f == if x then Filter([], ps) else Filter(ps, []);
      TagPatternsDiffer(token, from, t, s);
    }
  }

  lemma OneItem(i: Item)
    requires Readable(i)
    ensures ParsedAlone(Written(i)) == Spec(Kept(WithItem(NO_FILTER, i)), [])
  {
    ItemRead(START, i);
    hide VisitAll, Written, WithItem, EndMode;
    assert Restarted(START) == START;
    var f := WithItem(NO_FILTER, i);
    FinishedWith(EndMode(VisitAll(START, Written(i)).st), f, Spec([], []));
    assert [] + Kept(f) == Kept(f);
  }

  /** A tag in brackets parses to exactly itself, required, or forbidden after a tilde, if and only if
      it is not empty and does not start with "exclude:". */
  lemma TagIff(x: bool, t: string)
    ensures OnlyTag(ParsedAlone(Written(Tagged(x, t))), x, t) <==> t != "" && !StartsWith(t, "exclude:")
  {
    var i := Tagged(x, t);
    hide Written, OnlyTag, With, Patterns, ParsedAlone, Kept;
    OneItem(i);
    if StartsWith(t, "exclude:") {
      AloneTag(true, t[8..], Written(i), x, t);
    } else {
      AloneTag(x, t, Written(i), x, t);
    }
  }

  // ----- the word before a tag

  lemma {:induction false} PlainRead(st: State, s: string)
    requires Inv(st) && st.mode == Name && forall k :: 0 <= k < |s| ==> !Special(Name, s[k])
    ensures
      VisitAll(st, s) == Step(st.(substring := st.substring + s, patternName := st.patternName + s,
                                  realPatternPos := st.realPatternPos + |s|), true)
    decreases |s|
  {
    if s == "" {
      assert st.substring + s == st.substring && st.patternName + s == st.patternName;
    } else {
      var st1 := AddChar(st, s[0]);
      assert Special(Name, s[0]) == (s[0] in "\\,[");
      assert VisitChar(st, s[0]) == Step(st1, true);
      PlainRead(st1, s[1..]);
      hide VisitAll;
      assert st.substring + [s[0]] + s[1..] == st.substring + s;
      assert st.patternName + [s[0]] + s[1..] == st.patternName + s;
    }
  }

  function BeginExcluded(): Begun {
    Begun(Tag, true, "exclude:[", "exclude:", 8, NO_FILTER, Spec([], []))
  }

  function AfterExclude(): State {
    START.(mode := Name, substring := "exclude:", patternName := "exclude:", realPatternPos := 8)
  }

  lemma WordRead()
    ensures VisitAll(START, "exclude:") == Step(AfterExclude(), true)
  {
    hide VisitAll;
    var st0 := START.(mode := Name);
    assert VisitChar(START, 'e') == VisitChar(st0, 'e') == Step(AddChar(st0, 'e'), true);
    VisitBoth(START, ['e'], "xclude:");
    VisitBoth(st0, ['e'], "xclude:");
    VisitOne(START, 'e');
    VisitOne(st0, 'e');
    assert ['e'] + "xclude:" == "exclude:";
    PlainRead(st0, "exclude:");
    assert "" + "exclude:" == "exclude:";
  }

  /** The word and the bracket: the word stays in the pattern. */
  lemma ExcludeRead()
    ensures VisitAll(START, "exclude:[").ok && Reading(VisitAll(START, "exclude:[").st, BeginExcluded(), "")
  {
    WordRead();
    VisitBoth(START, "exclude:", ['[']);
    VisitOne(AfterExclude(), '[');
    assert "exclude:[" == "exclude:" + ['['];
    BracketRead(AfterExclude(), BeginExcluded());
    hide VisitAll, VisitChar;
  }

  lemma BracketRead(st: State, b: Begun)
    requires Inv(st) && st.mode == Name && st.substring == "exclude:" && st.escapeChars == []
    requires b == Begun(Tag, true, st.substring + ['['], st.patternName, st.realPatternPos, st.filter, st.spec)
    ensures VisitChar(st, '[').ok && Reading(VisitChar(st, '[').st, b, "")
  {
    hide EndMode;
    assert b.left + Quote(Tag, "") == b.left && b.prefix + Quote(Tag, "") == b.prefix;
  }

  /** A tag after the word is exactly forbidden, unless it is empty. */
  lemma ExcludedTag(t: string)
    ensures OnlyTag(ParsedAlone("exclude:[" + Quote(Tag, t) + "]"), true, t) <==> t != ""
  {
    var b, body := BeginExcluded(), Quote(Tag, t);
    hide VisitAll, VisitChar, Quote, With, Patterns, OnlyTag, Reading, Kept, EndMode;
    ExcludeRead();
    var st1 := VisitAll(START, "exclude:[").st;
    ReadingInv(st1, b, "");
    ReadAll(st1, b, "", t);
    assert "" + t == t;
    var st2 := VisitAll(st1, body).st;
    ReadingInv(st2, b, t);
    Closed(st2, b, t, ']');
    var token, from := "exclude:" + t, "exclude:[" + body + "]";
    assert StartsWith(token, "exclude:") && token[8..] == t;
    VisitBoth(START, "exclude:[" + body, "]");
    VisitBoth(START, "exclude:[", body);
    VisitOne(st2, ']');
    var st3 := VisitChar(st2, ']').st;
    CleanInv(st3);
    var f := With(NO_FILTER, true, Patterns(true, t, from));
    FinishedWith(st3, f, Spec([], []));
    assert [] + Kept(f) == Kept(f);
    assert Restarted(START) == START;
    assert ParsedAlone(from) == Spec(Kept(f), []);
    AloneTag(true, t, from, true, t);
  }
}
