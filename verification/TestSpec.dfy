/** Parsing of test specifications: the parser's state and what each step makes of it. */
module TestSpec {

  datatype Pattern = NamePattern(name: string, filterString: string) | TagPattern(tag: string, filterString: string)

  datatype Filter = Filter(required: seq<Pattern>, forbidden: seq<Pattern>)

  datatype Spec = Spec(filters: seq<Filter>, invalidSpecs: seq<string>)

  datatype Mode = None | Name | QuotedName | Tag | EscapedName

  datatype State = State(mode: Mode, lastMode: Mode, exclusion: bool, realPatternPos: nat, substring: string,
                         patternName: string, escapeChars: seq<nat>, filter: Filter, spec: Spec)

  const NO_FILTER := Filter([], [])
  const START := State(None, None, false, 0, "", "", [], NO_FILTER, Spec([], []))

  // ----- invariants

  predicate Increasing(es: seq<nat>) {
    forall i, j :: 0 <= i < j < |es| ==> es[i] < es[j]
  }

  /** Escape positions are increasing and within what was added. */
  predicate Inv(st: State) {
    && Increasing(st.escapeChars) && st.realPatternPos <= |st.patternName|
    && (forall i :: 0 <= i < |st.escapeChars| ==> st.escapeChars[i] < st.realPatternPos)
    && (st.mode == EscapedName ==> st.lastMode != EscapedName)
  }

  /** They count from the start of the pattern and point at backslashes. */
  predicate Aligned(st: State) {
    && Inv(st) && st.realPatternPos == |st.patternName|
    && forall i :: 0 <= i < |st.escapeChars| ==> st.patternName[st.escapeChars[i]] == '\\'
  }

  /** What every step keeps. */
  predicate Keeps(st: State, r: State) {
    Inv(r) && (Aligned(st) ==> Aligned(r))
  }

  // ----- the pieces of a step

  predicate IsControlChar(mode: Mode, c: char) {
    match mode
    case None => c == '~'
    case Name => c == '['
    case EscapedName => true
    case QuotedName => c == '"'
    case Tag => c == '[' || c == ']'
  }

  function AddChar(st: State, c: char): (r: State)
    ensures Inv(st) ==> Keeps(st, r)
  {
    st.(substring := st.substring + [c], patternName := st.patternName + [c], realPatternPos := st.realPatternPos + 1)
  }

  /** A backslash: the mode is put aside, and the position noted. */
  function Escape(st: State, c: char): (r: State)
    requires Inv(st) && st.mode != EscapedName && c == '\\'
    ensures Keeps(st, r)
  {
    var s := st.(lastMode := st.mode, mode := EscapedName, escapeChars := st.escapeChars + [st.realPatternPos]);
    AddChar(s, c)
  }

  /** The token without the characters at the given positions, i of which are gone already. */
  function RemoveAll(token: string, es: seq<nat>, i: nat): (r: string)
    requires Increasing(es) && (forall k :: 0 <= k < |es| ==> i <= es[k] < |token| + i)
    ensures |r| == |token| - |es|
    decreases |es|
  {
    if es == [] then token
    else RemoveAll(token[..es[0] - i] + token[es[0] - i + 1..], es[1..], i + 1)
  }

  predicate StartsWith(s: string, prefix: string) {
    prefix <= s
  }

  function Token(st: State): string
    requires Inv(st)
  {
    RemoveAll(st.patternName, st.escapeChars, 0)
  }

  /** The finished token; a leading "exclude:" is cut off and negates. */
  function Preprocess(st: State): (r: (State, string))
    requires Inv(st)
  {
    var token := Token(st);
    var excluded := StartsWith(token, "exclude:");
    (st.(escapeChars := [], patternName := "", realPatternPos := 0, exclusion := st.exclusion || excluded),
     if excluded then token[8..] else token)
  }

  function AddPattern(f: Filter, exclusion: bool, p: Pattern): Filter {
    if exclusion then f.(forbidden := f.forbidden + [p]) else f.(required := f.required + [p])
  }

  function AddNamePattern(st: State): State
    requires Inv(st)
  {
    var (s, token) := Preprocess(st);
    s.(filter := if token == "" then s.filter else AddPattern(s.filter, s.exclusion, NamePattern(token, s.substring)),
       substring := "", exclusion := false, mode := None)
  }

  function AddTags(f: Filter, exclusion: bool, token: string, filterString: string): Filter {
    if token == "" then f
    else if |token| > 1 && token[0] == '.' then
      AddPattern(AddPattern(f, exclusion, TagPattern(".", filterString)),
                 exclusion, TagPattern(token[1..], filterString))
    else AddPattern(f, exclusion, TagPattern(token, filterString))
  }

  function AddTagPattern(st: State): State
    requires Inv(st)
  {
    var (s, token) := Preprocess(st);
    s.(filter := AddTags(s.filter, s.exclusion, token, s.substring), substring := "", exclusion := false, mode := None)
  }

  function AddFilter(st: State): State {
    if st.filter == NO_FILTER then st
    else st.(spec := st.spec.(filters := st.spec.filters + [st.filter]), filter := NO_FILTER)
  }

  function EndMode(st: State): (r: State)
    requires st.mode == None || Inv(st)
    ensures Inv(st) ==> Keeps(st, r)
  {
    match st.mode
    case Name => AddNamePattern(st)
    case QuotedName => AddNamePattern(st)
    case Tag => AddTagPattern(st)
    case EscapedName => st.(mode := st.lastMode)
    case None => st
  }

  // ----- one character

  /** The outcome of a step: the state, and whether parsing goes on. */
  datatype Step = Step(st: State, ok: bool)

  function Separate(st: State): (r: Step)
    requires Inv(st)
    ensures if r.ok then Keeps(st, r.st) else r.st.mode == None && r.st.patternName == ""
  {
    if st.mode == QuotedName || st.mode == Tag then
      Step(st.(mode := None, substring := "", patternName := "", realPatternPos := 0), false)
    else Step(AddFilter(EndMode(st)), true)
  }

  /** The character goes to the pattern unless it controls the mode. */
  function Append(st: State, c: char): (r: State)
    ensures Inv(st) ==> Keeps(st, r)
  {
    if IsControlChar(st.mode, c) then st.(substring := st.substring + [c]) else AddChar(st, c)
  }

  function NoneChar(st: State, c: char): (r: State)
    requires Inv(st) && st.mode == None
    ensures Keeps(st, r)
  {
    if c == ' ' then st
    else if c == '~' then Append(st.(exclusion := true), c)
    else Append(st.(mode := if c == '[' then Tag else if c == '"' then QuotedName else Name), c)
  }

  function NameChar(st: State, c: char): (r: State)
    requires Inv(st) && st.mode == Name
    ensures Keeps(st, r)
  {
    if c != '[' then Append(st, c)
    else if st.substring == "exclude:" then Append(st.(exclusion := true, mode := Tag), c)
    else Append(EndMode(st).(mode := Tag), c)
  }

  function OtherChar(st: State, c: char): (r: State)
    requires Inv(st) && (st.mode == Tag || st.mode == QuotedName)
    ensures Keeps(st, r)
  {
    if IsControlChar(st.mode, c) then EndMode(st.(substring := st.substring + [c])) else Append(st, c)
  }

  function EscapedChar(st: State, c: char): (r: State)
    requires Inv(st) && st.mode == EscapedName
    ensures Keeps(st, r)
  {
    AddChar(EndMode(st), c)
  }

  function VisitChar(st: State, c: char): (r: Step)
    requires Inv(st)
    ensures if r.ok then Keeps(st, r.st) else r.st.mode == None && r.st.patternName == ""
  {
    if st.mode != EscapedName && c == '\\' then Step(Escape(st, c), true)
    else if st.mode != EscapedName && c == ',' then Separate(st)
    else
      Step(match st.mode
           case None => NoneChar(st, c)
           case Name => NameChar(st, c)
           case EscapedName => EscapedChar(st, c)
           case _ => OtherChar(st, c),
           true)
  }

  function VisitAll(st: State, arg: string): (r: Step)
    requires Inv(st)
    ensures if r.ok then Keeps(st, r.st) else r.st.mode == None && r.st.patternName == ""
    decreases |arg|
  {
    if arg == "" then Step(st, true)
    else
      var r := VisitChar(st, arg[0]);
      if r.ok then VisitAll(r.st, arg[1..]) else r
  }

  /** The parser at the start of an argument: what is in the pattern stays there. */
  function Restarted(st: State): (r: State)
    ensures Inv(r)
  {
    st.(mode := None, exclusion := false, escapeChars := [], realPatternPos := 0)
  }

  /** One argument; `expanded` is the argument with its tag aliases replaced. */
  function Parsed(st: State, arg: string, expanded: string): State {
    var r := VisitAll(Restarted(st), expanded);
    EndMode(if r.ok then r.st else r.st.(spec := r.st.spec.(invalidSpecs := r.st.spec.invalidSpecs + [arg])))
  }

  function Finished(st: State): Spec {
    AddFilter(st).spec
  }

  // ----- what an argument leaves behind, read off its text

  /** Where an ordinary character leads. */
  function NextMode(mode: Mode, c: char): (r: Mode)
    requires mode != EscapedName
    ensures r != EscapedName
  {
    match mode
    case None => if c == ' ' || c == '~' then None else if c == '[' then Tag else if c == '"' then QuotedName else Name
    case Name => if c == '[' then Tag else Name
    case QuotedName => if c == '"' then None else QuotedName
    case _ => if c == '[' || c == ']' then None else Tag
  }

  /** The text ends inside an escape, or outside every name, tag and quote with an escape since the
      last of them ended (or since the start, if `pending`); a text that is rejected leaves nothing. */
  predicate LeavesPattern(text: string, mode: Mode, pending: bool)
    requires mode != EscapedName
    decreases |text|
  {
    if text == "" then mode == None && pending
    else if text[0] == '\\' then |text| == 1 || LeavesPattern(text[2..], mode, pending || mode == None)
    else if text[0] == ',' then
      mode != QuotedName && mode != Tag && LeavesPattern(text[1..], None, mode == None && pending)
    else
      var next := NextMode(mode, text[0]);
      LeavesPattern(text[1..], next, mode == None && next == None && pending)
  }

  /** A comma that is not escaped stands inside a tag or quote. */
  predicate Rejected(text: string, mode: Mode)
    requires mode != EscapedName
    decreases |text|
  {
    if text == "" then false
    else if text[0] == '\\' then |text| > 1 && Rejected(text[2..], mode)
    else if text[0] == ',' then mode == QuotedName || mode == Tag || Rejected(text[1..], None)
    else Rejected(text[1..], NextMode(mode, text[0]))
  }

  /** What is pending matters outside names, tags and quotes, and is a pattern begun there. */
  predicate Scans(st: State, mode: Mode, pending: bool) {
    Inv(st) && mode == st.mode && mode != EscapedName && (mode == None ==> pending == (st.patternName != ""))
  }

  lemma EndModeScan(st: State)
    requires Inv(st) && st.mode != EscapedName
    ensures EndMode(st).mode == None && (EndMode(st).patternName != "" <==> st.mode == None && st.patternName != "")
  {
    hide Token, Inv;
  }

  lemma ScanOrdinary(st: State, pending: bool, c: char)
    requires Scans(st, st.mode, pending) && c != '\\' && c != ','
    ensures
      var next := NextMode(st.mode, c);
      VisitChar(st, c).ok && Scans(VisitChar(st, c).st, next, st.mode == None && next == None && pending)
  {
    hide EndMode;
    EndModeScan(st);
    if st.mode == Tag || st.mode == QuotedName {
      EndModeScan(st.(substring := st.substring + [c]));
    }
  }

  lemma ScanComma(st: State, pending: bool)
    requires Scans(st, st.mode, pending)
    ensures
      var r := VisitChar(st, ',');
      && (r.ok <==> st.mode != QuotedName && st.mode != Tag)
      && (r.ok ==> Scans(r.st, None, st.mode == None && pending))
  {
    hide EndMode;
    EndModeScan(st);
  }

  lemma ScanEscape(st: State, pending: bool)
    requires Scans(st, st.mode, pending)
    ensures
      var r := VisitChar(st, '\\');
      && r.ok && r.st.mode == EscapedName && r.st.patternName != ""
      && forall c :: VisitChar(r.st, c).ok && Scans(VisitChar(r.st, c).st, st.mode, pending || st.mode == None)
  {
    hide Increasing;
  }

  predicate EndsBehind(r: Step) {
    r.ok && (r.st.mode == None || r.st.mode == EscapedName) && r.st.patternName != ""
  }

  lemma {:induction false} ScanAll(st: State, pending: bool, text: string)
    requires Scans(st, st.mode, pending)
    ensures EndsBehind(VisitAll(st, text)) <==> LeavesPattern(text, st.mode, pending)
    ensures VisitAll(st, text).ok <==> !Rejected(text, st.mode)
    decreases |text|
  {
    hide VisitChar, NextMode, Inv;
    if text != "" {
      var c := text[0];
      var r := VisitChar(st, c);
      if c == '\\' {
        ScanEscape(st, pending);
        if |text| > 1 {
          assert text[1..][0] == text[1] && text[1..][1..] == text[2..];
          ScanAll(VisitChar(r.st, text[1]).st, pending || st.mode == None, text[2..]);
        } else {
          assert text[1..] == "";
        }
      } else if c == ',' {
        ScanComma(st, pending);
        if r.ok {
          ScanAll(r.st, st.mode == None && pending, text[1..]);
        }
      } else {
        ScanOrdinary(st, pending, c);
        ScanAll(r.st, st.mode == None && r.st.mode == None && pending, text[1..]);
      }
    }
  }

  lemma ParsedBehind(st: State, arg: string, expanded: string)
    ensures Parsed(st, arg, expanded).patternName != "" <==> EndsBehind(VisitAll(Restarted(st), expanded))
  {
    hide VisitAll, RemoveAll;
  }

  /** Whatever the parser has seen: escape positions are aligned for the next argument exactly when
      the text of this one, from a pattern left over or not, leaves no pattern behind. */
  lemma NextParseAligned(st: State, arg: string, expanded: string)
    ensures Aligned(Restarted(Parsed(st, arg, expanded))) <==> !LeavesPattern(expanded, None, st.patternName != "")
  {
    hide VisitAll, Parsed, LeavesPattern, EndsBehind;
    ScanAll(Restarted(st), st.patternName != "", expanded);
    ParsedBehind(st, arg, expanded);
  }

  lemma InvalidKept(st: State, c: char)
    requires Inv(st)
    ensures VisitChar(st, c).st.spec.invalidSpecs == st.spec.invalidSpecs
  {
    hide Token, Inv;
  }

  lemma {:induction false} InvalidKeptAll(st: State, text: string)
    requires Inv(st)
    ensures VisitAll(st, text).st.spec.invalidSpecs == st.spec.invalidSpecs
    decreases |text|
  {
    hide VisitChar, Inv;
    if text != "" {
      InvalidKept(st, text[0]);
      if VisitChar(st, text[0]).ok {
        InvalidKeptAll(VisitChar(st, text[0]).st, text[1..]);
      }
    }
  }

  /** An argument is reported as invalid, once, exactly when a comma stands inside a tag or quote. */
  lemma InvalidIff(st: State, arg: string, expanded: string)
    ensures Parsed(st, arg, expanded).spec.invalidSpecs ==
            st.spec.invalidSpecs + (if Rejected(expanded, None) then [arg] else [])
  {
    ScanAll(Restarted(st), st.patternName != "", expanded);
    InvalidKeptAll(Restarted(st), expanded);
    hide VisitAll, Rejected, Token;
    assert st.spec.invalidSpecs + [] == st.spec.invalidSpecs;
  }
}
