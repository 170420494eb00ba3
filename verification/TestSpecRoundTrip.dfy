/** Which test names survive being quoted and parsed back. */
module TestSpecRoundTrip {
  import opened TestSpec

  /** What has to be escaped inside a name, a quoted name or a tag. */
  predicate Special(mode: Mode, c: char) {
    || c == '\\' || c == ','
    || match mode
       case Tag => c == '[' || c == ']'
       case QuotedName => c == '"'
       case _ => c == '['
  }

  /** A text with its special characters escaped. */
  function Quote(mode: Mode, text: string): string {
    if text == "" then ""
    else (if Special(mode, text[0]) then ['\\', text[0]] else [text[0]]) + Quote(mode, text[1..])
  }

  /** Where the added backslashes are, when the quoted text starts at `off`. */
  function Added(mode: Mode, text: string, off: nat): (es: seq<nat>)
    ensures forall k :: 0 <= k < |es| ==> off <= es[k] < off + |Quote(mode, text)|
    ensures Increasing(es)
  {
    if text == "" then []
    else if Special(mode, text[0]) then [off] + Added(mode, text[1..], off + 2)
    else Added(mode, text[1..], off + 1)
  }

  // ----- removing the escapes

  lemma QuoteUnfold(mode: Mode, name: string, off: nat)
    requires name != ""
    ensures
      var c, rest := name[0], name[1..];
      if Special(mode, c) then
        && Quote(mode, name) == ['\\', c] + Quote(mode, rest)
        && Added(mode, name, off) == [off] + Added(mode, rest, off + 2)
      else Quote(mode, name) == [c] + Quote(mode, rest) && Added(mode, name, off) == Added(mode, rest, off + 1)
  {
  }

  lemma RemoveFirst(done: string, c: char, tail: string, es: seq<nat>, i: nat)
    requires Increasing(es) && forall k :: 0 <= k < |es| ==> |done| + i + 2 <= es[k] < |done| + |tail| + i + 2
    ensures
      && Increasing([|done| + i] + es)
      && RemoveAll(done + (['\\', c] + tail), [|done| + i] + es, i) == RemoveAll(done + [c] + tail, es, i + 1)
  {
    var token, all := done + (['\\', c] + tail), [|done| + i] + es;
    assert token[..|done|] + token[|done| + 1..] == done + [c] + tail;
    assert all[1..] == es;
  }

  lemma NothingAdded(mode: Mode, done: string, off: nat, i: nat)
    ensures Quote(mode, "") == "" && Added(mode, "", off) == [] && RemoveAll(done, [], i) == done
  {
  }

  /** Removing what quoting added gives the name back. */
  lemma {:induction false} RemoveAdded(mode: Mode, done: string, name: string, i: nat)
    ensures RemoveAll(done + Quote(mode, name), Added(mode, name, |done| + i), i) == done + name
    decreases |name|
  {
    hide RemoveAll, Quote, Added;
    if name == "" {
      NothingAdded(mode, done, |done| + i, i);
      assert done + "" == done;
    } else {
      var c, rest := name[0], name[1..];
      QuoteUnfold(mode, name, |done| + i);
      assert done + name == done + [c] + rest;
      if Special(mode, c) {
        RemoveFirst(done, c, Quote(mode, rest), Added(mode, rest, |done| + i + 2), i);
        RemoveAdded(mode, done + [c], rest, i + 1);
      } else {
        assert done + ([c] + Quote(mode, rest)) == done + [c] + Quote(mode, rest);
        RemoveAdded(mode, done + [c], rest, i);
      }
    }
  }

  // ----- visiting a quoted text

  lemma {:induction false} VisitBoth(st: State, a: string, b: string)
    requires Inv(st)
    ensures VisitAll(st, a + b) == var r := VisitAll(st, a); if r.ok then VisitAll(r.st, b) else r
    decreases |a|
  {
    hide VisitChar, Inv;
    if a == "" {
      assert a + b == b;
    } else {
      assert (a + b)[0] == a[0] && (a + b)[1..] == a[1..] + b;
      var r := VisitChar(st, a[0]);
      if r.ok {
        VisitBoth(r.st, a[1..], b);
      }
    }
  }

  lemma VisitOne(st: State, c: char)
    requires Inv(st)
    ensures VisitAll(st, [c]) == VisitChar(st, c)
  {
    hide VisitChar, Inv;
    assert [c][1..] == "";
  }

  /** Some character of a name needs no escape. */
  predicate HasPlain(name: string) {
    exists i :: 0 <= i < |name| && !Special(Name, name[i])
  }

  /** The first character that needs no escape directs the parser instead of starting a name. */
  predicate Diverted(name: string) {
    name != "" && if Special(Name, name[0]) then Diverted(name[1..]) else name[0] in " ~\""
  }

  /** A name, quoted name or tag at its start: the text that led to it, what was left in the pattern
      and the position that is counted from there. */
  datatype Begun = Begun(mode: Mode, excluded: bool, prefix: string, left: string, pos: nat, filter: Filter, spec: Spec)

  predicate Opens(b: Begun) {
    b.mode == Name || b.mode == QuotedName || b.mode == Tag
  }

  /** Until the first plain character of a name the mode is None. */
  predicate Waits(b: Begun, p: string) {
    b.mode == Name && !HasPlain(p)
  }

  /** The state after the part `p` of the quoted text. */
  ghost predicate Reading(st: State, b: Begun, p: string) {
    var text := Quote(b.mode, p);
    && Inv(st) && st.mode == (if Waits(b, p) then None else b.mode) && st.exclusion == b.excluded
    && st.substring == b.prefix + text && st.patternName == b.left + text
    && st.realPatternPos == b.pos + |text| && st.escapeChars == Added(b.mode, p, b.pos)
    && st.filter == b.filter && st.spec == b.spec
  }

  /** The last character of a quoted text. */
  function QuoteChar(mode: Mode, c: char): string {
    if Special(mode, c) then ['\\', c] else [c]
  }

  lemma {:induction false} QuoteLast(mode: Mode, p: string, c: char)
    ensures Quote(mode, p + [c]) == Quote(mode, p) + QuoteChar(mode, c)
  {
    hide Special;
    if p == "" {
      assert p + [c] == [c] && [c][1..] == "";
    } else {
      assert (p + [c])[1..] == p[1..] + [c];
      QuoteLast(mode, p[1..], c);
    }
  }

  lemma {:induction false} AddedLast(mode: Mode, p: string, c: char, off: nat)
    ensures Added(mode, p + [c], off) ==
            Added(mode, p, off) + (if Special(mode, c) then [off + |Quote(mode, p)|] else [])
    decreases |p|
  {
    hide Special;
    if p == "" {
      assert p + [c] == [c] && [c][1..] == "";
    } else {
      var rest, next := p[1..], if Special(mode, p[0]) then off + 2 else off + 1;
      assert (p + [c])[0] == p[0] && (p + [c])[1..] == rest + [c];
      QuoteUnfold(mode, p, off);
      QuoteUnfold(mode, p + [c], off);
      hide Quote, Added;
      AddedLast(mode, rest, c, next);
      assert next + |Quote(mode, rest)| == off + |Quote(mode, p)|;
    }
  }

  lemma QuoteOneMore(mode: Mode, p: string, c: char, off: nat)
    ensures Quote(mode, p + [c]) == Quote(mode, p) + QuoteChar(mode, c)
    ensures Added(mode, p + [c], off) ==
            Added(mode, p, off) + (if Special(mode, c) then [off + |Quote(mode, p)|] else [])
  {
    QuoteLast(mode, p, c);
    AddedLast(mode, p, c, off);
  }

  lemma PlainOneMore(p: string, c: char)
    ensures HasPlain(p + [c]) <==> HasPlain(p) || !Special(Name, c)
  {
    if HasPlain(p) {
      var i :| 0 <= i < |p| && !Special(Name, p[i]);
      assert (p + [c])[i] == p[i];
    }
    assert (p + [c])[|p|] == c;
  }

  lemma ReadPlain(st: State, b: Begun, p: string, c: char)
    requires Opens(b) && Reading(st, b, p) && !Special(b.mode, c) && (Waits(b, p) ==> c !in " ~\"")
    ensures VisitChar(st, c).ok && Reading(VisitChar(st, c).st, b, p + [c])
  {
    hide Quote, Added, HasPlain;
    var text := Quote(b.mode, p);
    QuoteOneMore(b.mode, p, c, b.pos);
    PlainOneMore(p, c);
    assert b.left + text + [c] == b.left + (text + [c]) && b.prefix + text + [c] == b.prefix + (text + [c]);
  }

  lemma ReadSpecial(st: State, b: Begun, p: string, c: char)
    requires Opens(b) && Reading(st, b, p) && Special(b.mode, c)
    ensures
      var r := VisitChar(st, '\\');
      r.ok && VisitChar(r.st, c).ok && Reading(VisitChar(r.st, c).st, b, p + [c])
  {
    hide Quote, Added, HasPlain;
    var text := Quote(b.mode, p);
    QuoteOneMore(b.mode, p, c, b.pos);
    PlainOneMore(p, c);
    assert b.left + text + ['\\'] + [c] == b.left + (text + ['\\', c]);
    assert b.prefix + text + ['\\'] + [c] == b.prefix + (text + ['\\', c]);
  }

  lemma QuoteCons(mode: Mode, s: string)
    requires s != ""
    ensures
      var q := Quote(mode, s);
      if Special(mode, s[0]) then |q| >= 2 && q[0] == '\\' && q[1] == s[0] && q[1..][1..] == Quote(mode, s[1..])
      else |q| >= 1 && q[0] == s[0] && q[1..] == Quote(mode, s[1..])
  {
  }

  /** A quoted text is read to its end, unless it is a name and diverted. */
  lemma {:induction false} ReadAll(st: State, b: Begun, p: string, rest: string)
    requires Opens(b) && Reading(st, b, p) && (Waits(b, p) ==> !Diverted(rest))
    ensures VisitAll(st, Quote(b.mode, rest)).ok && Reading(VisitAll(st, Quote(b.mode, rest)).st, b, p + rest)
    decreases |rest|
  {
    if rest == "" {
      assert p + rest == p;
    } else {
      var c := rest[0];
      QuoteCons(b.mode, rest);
      PlainOneMore(p, c);
      assert p + [c] + rest[1..] == p + rest;
      hide Reading, Quote, VisitChar, HasPlain, Inv;
      if Special(b.mode, c) {
        ReadSpecial(st, b, p, c);
        ReadAll(VisitChar(VisitChar(st, '\\').st, c).st, b, p + [c], rest[1..]);
      } else {
        ReadPlain(st, b, p, c);
        ReadAll(VisitChar(st, c).st, b, p + [c], rest[1..]);
      }
    }
  }

  lemma ReadingToken(st: State, b: Begun, p: string)
    requires Reading(st, b, p) && b.pos == |b.left|
    ensures Token(st) == b.left + p
  {
    RemoveAdded(b.mode, b.left, p, 0);
  }

  // ----- a tilde

  /** Nothing begun. */
  predicate Clean(st: State) {
    && st.mode == None && !st.exclusion && st.realPatternPos == 0
    && st.substring == "" && st.patternName == "" && st.escapeChars == []
  }

  /** A tilde before a name or tag excludes it. */
  function Tilde(x: bool): string {
    if x then "~" else ""
  }

  lemma TildeRead(st: State, x: bool)
    requires Clean(st)
    ensures VisitAll(st, Tilde(x)) == Step(st.(exclusion := x, substring := Tilde(x)), true)
  {
    if x {
      VisitOne(st, '~');
      var s1 := st.(exclusion := true);
      assert NoneChar(st, '~') == s1.(substring := s1.substring + ['~']);
      assert s1.substring + ['~'] == "~";
    }
  }

  function BeginName(st: State, x: bool): Begun {
    Begun(Name, x, Tilde(x), "", 0, st.filter, st.spec)
  }

  /** The parser after the tilde, if there is one. */
  lemma AfterTilde(st: State, x: bool, text: string)
    requires Clean(st)
    ensures
      var st1 := st.(exclusion := x, substring := Tilde(x));
      Reading(st1, BeginName(st, x), "") && VisitAll(st, Tilde(x) + text) == VisitAll(st1, text)
  {
    TildeRead(st, x);
    VisitBoth(st, Tilde(x), text);
    assert "" + Quote(Name, "") == "" && Tilde(x) + Quote(Name, "") == Tilde(x);
    hide VisitAll, Tilde;
  }

  // ----- characters that reach a pattern

  function Chars(ps: seq<Pattern>): nat {
    if ps == [] then 0
    else
      var p := ps[|ps| - 1];
      Chars(ps[..|ps| - 1]) + (if p.NamePattern? then |p.name| else |p.tag|)
  }

  /** Characters in finished patterns and in the one being read, added backslashes not counted. */
  function Weight(st: State): int {
    Chars(st.filter.required) + Chars(st.filter.forbidden) + |st.patternName| - |st.escapeChars|
  }

  lemma CharsOneMore(ps: seq<Pattern>, p: Pattern)
    ensures Chars(ps + [p]) == Chars(ps) + (if p.NamePattern? then |p.name| else |p.tag|)
  {
    assert (ps + [p])[..|ps|] == ps;
  }

  lemma AddPatternChars(f: Filter, exclusion: bool, p: Pattern)
    ensures
      var g := AddPattern(f, exclusion, p);
      Chars(g.required) + Chars(g.forbidden)
      == Chars(f.required) + Chars(f.forbidden) + (if p.NamePattern? then |p.name| else |p.tag|)
  {
    CharsOneMore(f.required, p);
    CharsOneMore(f.forbidden, p);
  }

  lemma EndModeWeight(st: State)
    requires Inv(st)
    ensures Weight(EndMode(st)) <= Weight(st) && EndMode(st).spec == st.spec
  {
    hide Chars, Inv, RemoveAll;
    if st.mode != None && st.mode != EscapedName {
      var (s, token) := Preprocess(st);
      assert |token| <= |Token(st)| == |st.patternName| - |st.escapeChars|;
      if st.mode == Tag {
        AddPatternChars(s.filter, s.exclusion, TagPattern(token, s.substring));
        if |token| > 1 {
          var dot := TagPattern(".", s.substring);
          AddPatternChars(s.filter, s.exclusion, dot);
          AddPatternChars(AddPattern(s.filter, s.exclusion, dot), s.exclusion, TagPattern(token[1..], s.substring));
        }
      } else {
        AddPatternChars(s.filter, s.exclusion, NamePattern(token, s.substring));
      }
    }
  }

  lemma EndModeMode(st: State)
    requires Inv(st)
    ensures EndMode(st).mode == if st.mode == EscapedName then st.lastMode else None
  {
    hide Preprocess;
  }

  lemma AppendWeight(st: State, c: char)
    ensures
      var r := Append(st, c);
      && r.spec == st.spec && r.mode == st.mode
      && Weight(r) == Weight(st) + (if IsControlChar(st.mode, c) then 0 else 1)
  {
    hide Chars;
  }

  lemma NoneWeight(st: State, c: char)
    requires Inv(st) && st.mode == None
    ensures
      var r := NoneChar(st, c);
      && r.spec == st.spec && r.mode != EscapedName
      && Weight(r) <= Weight(st) + (if c in " ~\"" then 0 else 1)
  {
    hide Chars, Append;
    if c == '~' {
      AppendWeight(st.(exclusion := true), c);
    } else {
      AppendWeight(st.(mode := if c == '[' then Tag else if c == '"' then QuotedName else Name), c);
    }
  }

  lemma NameWeight(st: State, c: char)
    requires Inv(st) && st.mode == Name
    ensures
      var r := NameChar(st, c);
      r.spec == st.spec && r.mode != EscapedName && Weight(r) <= Weight(st) + 1
  {
    hide Chars, Append, EndMode;
    EndModeWeight(st);
    AppendWeight(st, c);
    AppendWeight(st.(exclusion := true, mode := Tag), c);
    AppendWeight(EndMode(st).(mode := Tag), c);
  }

  lemma OtherWeight(st: State, c: char)
    requires Inv(st) && (st.mode == Tag || st.mode == QuotedName)
    ensures
      var r := OtherChar(st, c);
      r.spec == st.spec && r.mode != EscapedName && Weight(r) <= Weight(st) + 1
  {
    hide Chars, Append, EndMode;
    var s := st.(substring := st.substring + [c]);
    EndModeWeight(s);
    EndModeMode(s);
    AppendWeight(st, c);
  }

  lemma EscapedWeight(st: State, c: char)
    requires Inv(st) && st.mode == EscapedName
    ensures
      var r := EscapedChar(st, c);
      r.spec == st.spec && r.mode != EscapedName && Weight(r) <= Weight(st) + 1
  {
    hide Chars;
  }

  /** A character adds at most itself; an escape adds nothing, nor does a character that directs
      the parser from the start. */
  lemma VisitWeight(st: State, c: char)
    requires Inv(st) && (c == ',' ==> st.mode == EscapedName)
    ensures
      var r := VisitChar(st, c);
      && r.ok && r.st.spec == st.spec
      && Weight(r.st) <= Weight(st) + (if st.mode != EscapedName && c == '\\' then 0 else 1)
      && (st.mode == None && c in " ~\"" ==> Weight(r.st) <= Weight(st))
      && (r.st.mode == EscapedName <==> st.mode != EscapedName && c == '\\')
  {
    hide Chars, NoneChar, NameChar, OtherChar, EscapedChar;
    match st.mode {
      case None => NoneWeight(st, c);
      case Name => NameWeight(st, c);
      case EscapedName => EscapedWeight(st, c);
      case _ => OtherWeight(st, c);
    }
  }

  lemma {:induction false} QuotedWeight(st: State, s: string)
    requires Inv(st) && st.mode != EscapedName
    ensures
      var r := VisitAll(st, Quote(Name, s));
      r.ok && r.st.spec == st.spec && Weight(r.st) <= Weight(st) + |s|
    decreases |s|
  {
    hide VisitChar, Weight, Inv;
    if s != "" {
      QuoteCons(Name, s);
      if Special(Name, s[0]) {
        VisitWeight(st, '\\');
        var st1 := VisitChar(st, '\\').st;
        VisitWeight(st1, s[0]);
        QuotedWeight(VisitChar(st1, s[0]).st, s[1..]);
      } else {
        VisitWeight(st, s[0]);
        QuotedWeight(VisitChar(st, s[0]).st, s[1..]);
      }
    }
  }

  // ----- the round trip

  /** Exactly one filter, with exactly one pattern, which requires the name or forbids it. */
  ghost predicate OnlyName(spec: Spec, forbidden: bool, name: string) {
    exists s :: spec == Spec([if forbidden then Filter([], [NamePattern(name, s)])
                              else Filter([NamePattern(name, s)], [])], [])
  }

  function ParsedAlone(arg: string): Spec {
    Finished(Parsed(START, arg, arg))
  }

  lemma AddedCount(name: string)
    ensures |Quote(Name, name)| - |Added(Name, name, 0)| == |name|
  {
    RemoveAdded(Name, "", name, 0);
    assert "" + Quote(Name, name) == Quote(Name, name) && "" + name == name;
  }

  function Alone(exclusion: bool, p: Pattern): Spec {
    Spec([AddPattern(NO_FILTER, exclusion, p)], [])
  }

  lemma AloneIs(exclusion: bool, p: Pattern)
    ensures Alone(exclusion, p) == Spec([if exclusion then Filter([], [p]) else Filter([p], [])], [])
  {
    assert [] + [p] == [p];
  }

  lemma NameEnds(st: State)
    requires Inv(st) && st.mode == Name && st.filter == NO_FILTER
      && st.spec == Spec([], []) && Token(st) != ""
    ensures
      Finished(EndMode(st)) ==
      var token := Token(st);
      if !StartsWith(token, "exclude:") then Alone(st.exclusion, NamePattern(token, st.substring))
      else if |token| == 8 then Spec([], [])
      else Alone(true, NamePattern(token[8..], st.substring))
  {
    hide Token, Inv;
    assert EndMode(st) == AddNamePattern(st);
    var f := AddNamePattern(st).filter;
    assert [] + [f] == [f];
  }

  lemma AloneName(exclusion: bool, p: Pattern, forbidden: bool, name: string)
    ensures OnlyName(Alone(exclusion, p), forbidden, name)
            <==> exclusion == forbidden && p.NamePattern? && p.name == name
  {
    AloneIs(exclusion, p);
    if OnlyName(Alone(exclusion, p), forbidden, name) {
      var s :| Alone(exclusion, p) == Spec([if forbidden then Filter([], [NamePattern(name, s)])
                                            else Filter([NamePattern(name, s)], [])], []);
      var f := if exclusion then Filter([], [p]) else Filter([p], []);
      assert f == Alone(exclusion, p).filters[0];
      assert |f.forbidden| == (if forbidden then 1 else 0);
      assert p == if forbidden then f.forbidden[0] else f.required[0];
    }
  }

  /** What the state at the end of a quoted name amounts to. */
  lemma ReadingEnds(st: State, x: bool, name: string)
    requires Reading(st, BeginName(START, x), name)
    ensures OnlyName(Finished(EndMode(st)), x, name) <==> HasPlain(name) && !StartsWith(name, "exclude:")
  {
    ReadingToken(st, BeginName(START, x), name);
    assert "" + name == name;
    NoPlain(name);
    hide Token, Quote, Added, HasPlain, Inv, OnlyName, Alone;
    if HasPlain(name) {
      NameEnds(st);
      AloneName(x, NamePattern(name, st.substring), x, name);
      if StartsWith(name, "exclude:") {
        AloneName(true, NamePattern(name[8..], st.substring), x, name);
        NothingOnly(x, name);
      }
    } else {
      NothingOnly(x, name);
    }
  }

  lemma NothingOnly(x: bool, name: string)
    ensures !OnlyName(Spec([], []), x, name)
  {
  }

  lemma NoPlain(name: string)
    ensures HasPlain(name) ==> name != ""
  {
  }

  lemma ParsedFrom(st: State, x: bool, name: string)
    requires Inv(st) && VisitAll(START, Tilde(x) + Quote(Name, name)) == VisitAll(st, Quote(Name, name))
    requires VisitAll(st, Quote(Name, name)).ok
    ensures ParsedAlone(Tilde(x) + Quote(Name, name)) == Finished(EndMode(VisitAll(st, Quote(Name, name)).st))
  {
    hide VisitAll, Quote, EndMode, Finished;
    assert Restarted(START) == START;
  }

  lemma ReadingWeight(st: State, x: bool, p: string)
    requires Reading(st, BeginName(START, x), p)
    ensures Weight(st) == |p|
  {
    AddedCount(p);
  }

  /** Diverted: a character is lost on the way. */
  lemma {:induction false} DivertedLoses(st: State, x: bool, p: string, rest: string)
    requires Reading(st, BeginName(START, x), p) && !HasPlain(p) && Diverted(rest)
    ensures
      var r := VisitAll(st, Quote(Name, rest));
      r.ok && r.st.spec == Spec([], []) && Weight(r.st) < |p| + |rest|
    decreases |rest|
  {
    var c := rest[0];
    QuoteCons(Name, rest);
    PlainOneMore(p, c);
    assert st.mode == None && st.spec == Spec([], []);
    ReadingWeight(st, x, p);
    hide Reading, Quote, VisitChar, HasPlain, Weight, Inv;
    if Special(Name, c) {
      ReadSpecial(st, BeginName(START, x), p, c);
      DivertedLoses(VisitChar(VisitChar(st, '\\').st, c).st, x, p + [c], rest[1..]);
    } else {
      VisitWeight(st, c);
      QuotedWeight(VisitChar(st, c).st, rest[1..]);
    }
  }

  lemma OnlyNameWeight(st: State, x: bool, name: string)
    requires Inv(st) && st.spec == Spec([], []) && OnlyName(Finished(st), x, name)
    ensures Weight(st) >= |name|
  {
    EscapesFit(st.patternName, st.escapeChars);
    var s :| Finished(st) == Spec([if x then Filter([], [NamePattern(name, s)])
                                   else Filter([NamePattern(name, s)], [])], []);
    assert st.filter == Finished(st).filters[0];
    CharsOneMore([], NamePattern(name, s));
    assert [] + [NamePattern(name, s)] == [NamePattern(name, s)];
  }

  lemma LightSpec(st: State, x: bool, name: string)
    requires Inv(st) && st.spec == Spec([], []) && Weight(st) < |name|
    ensures !OnlyName(Finished(EndMode(st)), x, name)
  {
    EndModeWeight(st);
    hide EndMode, Inv, Weight, OnlyName;
    if OnlyName(Finished(EndMode(st)), x, name) {
      OnlyNameWeight(EndMode(st), x, name);
    }
  }

  lemma {:induction false} EscapesFit(token: string, es: seq<nat>)
    requires Increasing(es) && forall k :: 0 <= k < |es| ==> es[k] < |token|
    ensures |es| <= |token|
  {
    if |es| > 0 {
      var n := |es| - 1;
      EscapesFit(token[..es[n]], es[..n]);
    }
  }

  /** A quoted name parses to exactly itself, required, or forbidden after a tilde, if and only if some
      character in it needs no escape, the first such does not direct the parser, and it does not
      start with "exclude:". */
  lemma RoundTripIff(x: bool, name: string)
    ensures OnlyName(ParsedAlone(Tilde(x) + Quote(Name, name)), x, name) <==>
            HasPlain(name) && !Diverted(name) && !StartsWith(name, "exclude:")
  {
    var st := START.(exclusion := x, substring := Tilde(x));
    AfterTilde(START, x, Quote(Name, name));
    hide Reading, VisitAll, Quote, EndMode, Finished, Weight, HasPlain, Diverted, OnlyName, ParsedAlone, Tilde;
    if Diverted(name) {
      DivertedLoses(st, x, "", name) by { assert !HasPlain(""); }
      LightSpec(VisitAll(st, Quote(Name, name)).st, x, name);
    } else {
      ReadAll(st, BeginName(START, x), "", name);
      assert "" + name == name;
      ReadingEnds(VisitAll(st, Quote(Name, name)).st, x, name);
    }
    ParsedFrom(st, x, name);
  }

  /** What a quoted name that does begin with "exclude:" parses to: exactly the rest, forbidden,
      unless there is none. */
  lemma ExcludedName(x: bool, name: string)
    ensures OnlyName(ParsedAlone(Tilde(x) + Quote(Name, "exclude:" + name)), true, name) <==> name != ""
    ensures name == "" ==> ParsedAlone(Tilde(x) + Quote(Name, "exclude:" + name)) == Spec([], [])
  {
    var st, all := START.(exclusion := x, substring := Tilde(x)), "exclude:" + name;
    AfterTilde(START, x, Quote(Name, all));
    assert all[0] == 'e' && all[8..] == name && StartsWith(all, "exclude:");
    assert HasPlain(all) && !Diverted(all);
    ReadAll(st, BeginName(START, x), "", all);
    assert "" + all == all;
    var end := VisitAll(st, Quote(Name, all)).st;
    hide VisitAll, Quote, EndMode, Finished, HasPlain, Diverted, OnlyName, ParsedAlone, Tilde, StartsWith, Alone;
    ReadingToken(end, BeginName(START, x), all);
    ParsedFrom(st, x, all);
    NameEnds(end);
    NothingOnly(true, name);
    AloneName(true, NamePattern(name, end.substring), true, name);
  }

  // ----- after a pattern was left behind

  /** A quoted name that would round trip, parsed where `q` was left behind: what is removed is
      counted from the start of the leftover. */
  lemma LeftoverToken(st: State, name: string)
    requires st.filter == NO_FILTER && st.spec == Spec([], []) && HasPlain(name) && !Diverted(name)
    ensures
      var q, end := st.patternName, VisitAll(Restarted(st), Quote(Name, name));
      && end.ok && end.st.mode == Name && Reading(end.st, AfterLeftover(st), name)
      && Token(end.st) == RemoveAll(q + Quote(Name, name), Added(Name, name, 0), 0)
  {
    var s, q := Restarted(st), st.patternName;
    assert q + Quote(Name, "") == q && s.substring + Quote(Name, "") == s.substring;
    assert Reading(s, AfterLeftover(st), "");
    ReadAll(s, AfterLeftover(st), "", name);
    assert "" + name == name;
  }

  function AfterLeftover(st: State): Begun {
    Begun(Name, false, st.substring, st.patternName, 0, NO_FILTER, Spec([], []))
  }

  /** Such a name never parses to itself. */
  lemma LeftoverSpoils(st: State, name: string)
    requires st.filter == NO_FILTER && st.spec == Spec([], []) && HasPlain(name) && !Diverted(name)
    requires st.patternName != ""
    ensures !OnlyName(Finished(Parsed(st, Quote(Name, name), Quote(Name, name))), false, name)
  {
    LeftoverToken(st, name);
    AddedCount(name);
    var end := VisitAll(Restarted(st), Quote(Name, name)).st;
    assert |Token(end)| > |name|;
    hide VisitAll, Token, Quote, Added, HasPlain, Inv, RemoveAll;
    NameEnds(end);
    hide EndMode, Finished, Alone, OnlyName;
    var token := Token(end);
    AloneName(false, NamePattern(token, end.substring), false, name);
    if StartsWith(token, "exclude:") {
      AloneName(true, NamePattern(token[8..], end.substring), false, name);
    }
    NothingOnly(false, name);
    assert Finished(Parsed(st, Quote(Name, name), Quote(Name, name))) == Finished(EndMode(end));
  }

  lemma LoneBackslash()
    ensures
      var st := Parsed(START, "\\", "\\");
      st.patternName == "\\" && st.filter == NO_FILTER && st.spec == Spec([], [])
  {
    assert "\\"[1..] == "";
    assert VisitAll(Restarted(START), "\\") == VisitAll(VisitChar(Restarted(START), '\\').st, "");
  }

  lemma QuotedExample()
    ensures Quote(Name, "a,b") == "a\\,b" && Added(Name, "a,b", 0) == [1] && HasPlain("a,b") && !Diverted("a,b")
  {
    assert "a,b"[0] == 'a' && !Special(Name, 'a');
    assert "a,b"[1..] == ",b" && ",b"[1..] == "b" && "b"[1..] == "";
    QuoteUnfold(Name, "a,b", 0);
    QuoteUnfold(Name, ",b", 1);
    QuoteUnfold(Name, "b", 3);
  }

  lemma RemoveOne(token: string, k: nat)
    requires k < |token|
    ensures RemoveAll(token, [k], 0) == token[..k] + token[k + 1..]
  {
    assert [k][1..] == [];
  }

  /** After a lone backslash the quoted name a,b loses its letter and keeps the escape. */
  lemma BackslashSpoilsNext()
    ensures
      var end := VisitAll(Restarted(Parsed(START, "\\", "\\")), Quote(Name, "a,b"));
      end.ok && end.st.mode == Name && Token(end.st) == "\\\\,b"
  {
    hide Parsed, VisitAll, Quote, Added, HasPlain, Diverted, Token, RemoveAll;
    LoneBackslash();
    QuotedExample();
    LeftoverToken(Parsed(START, "\\", "\\"), "a,b");
    var token := "\\a\\,b";
    assert "\\" + "a\\,b" == token;
    RemoveOne(token, 1);
    assert token[..1] + token[1 + 1..] == "\\\\,b";
  }
}
