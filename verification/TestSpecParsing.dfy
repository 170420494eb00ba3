/** The test specification parser as the object it is. */
module TestSpecParsing {
  import opened Steps = TestSpec
  import opened TestSpecRoundTrip
  import opened TestSpecItems

  class TestSpecParser {
    const expandAliases: string -> string
    var mode: Mode
    var lastMode: Mode
    var exclusion: bool
    var realPatternPos: nat
    var substring: string
    var patternName: string
    var escapeChars: seq<nat>
    var currentFilter: Filter
    var testSpec: Spec

    function View(): State
      reads this
    {
      State(mode, lastMode, exclusion, realPatternPos, substring, patternName, escapeChars, currentFilter, testSpec)
    }

    constructor (expandAliases: string -> string)
      ensures View() == START && this.expandAliases == expandAliases
    {
      this.expandAliases := expandAliases;
      mode, lastMode, exclusion, realPatternPos := None, None, false, 0;
      substring, patternName, escapeChars := "", "", [];
      currentFilter, testSpec := NO_FILTER, Spec([], []);
    }

    method AddCharToPattern(c: char)
      modifies this
      ensures View() == AddChar(old(View()), c)
    {
      substring := substring + [c];
      patternName := patternName + [c];
      realPatternPos := realPatternPos + 1;
    }

    method PreprocessPattern() returns (token: string)
      requires Inv(View())
      modifies this
      ensures (View(), token) == Preprocess(old(View()))
    {
      token := patternName;
      var i := 0;
      while i < |escapeChars|
        invariant 0 <= i <= |escapeChars| && View() == old(View())
        invariant forall k :: i <= k < |escapeChars| ==> i <= escapeChars[k] < |token| + i
        invariant RemoveAll(token, escapeChars[i..], i) == Token(View())
      {
        var at := escapeChars[i] - i;
        assert escapeChars[i..][0] == escapeChars[i] && escapeChars[i..][1..] == escapeChars[i + 1..];
        token := token[..at] + token[at + 1..];
        i := i + 1;
      }
      escapeChars := [];
      if StartsWith(token, "exclude:") {
        exclusion := true;
        token := token[8..];
      }
      patternName := "";
      realPatternPos := 0;
    }

    method AddNamePattern()
      requires Inv(View())
      modifies this
      ensures View() == Steps.AddNamePattern(old(View()))
    {
      hide RemoveAll;
      var token := PreprocessPattern();
      if token != "" {
        currentFilter := AddPattern(currentFilter, exclusion, NamePattern(token, substring));
      }
      substring := "";
      exclusion := false;
      mode := None;
    }

    method AddTagPattern()
      requires Inv(View())
      modifies this
      ensures View() == Steps.AddTagPattern(old(View()))
    {
      hide RemoveAll;
      var token := PreprocessPattern();
      if token != "" {
        if |token| > 1 && token[0] == '.' {
          token := token[1..];
          currentFilter := AddPattern(currentFilter, exclusion, TagPattern(".", substring));
        }
        currentFilter := AddPattern(currentFilter, exclusion, TagPattern(token, substring));
      }
      substring := "";
      exclusion := false;
      mode := None;
    }

    method AddFilter()
      modifies this
      ensures View() == Steps.AddFilter(old(View()))
    {
      if currentFilter.required != [] || currentFilter.forbidden != [] {
        testSpec := testSpec.(filters := testSpec.filters + [currentFilter]);
        currentFilter := NO_FILTER;
      }
    }

    method EndMode()
      requires mode == None || Inv(View())
      modifies this
      ensures View() == Steps.EndMode(old(View()))
    {
      match mode
      case Name => AddNamePattern();
      case QuotedName => AddNamePattern();
      case Tag => AddTagPattern();
      case EscapedName => mode := lastMode;
      case None => mode := None;
    }

    method Separate() returns (ok: bool)
      requires Inv(View())
      modifies this
      ensures Step(View(), ok) == Steps.Separate(old(View()))
    {
      if mode == QuotedName || mode == Tag {
        mode := None;
        substring, patternName, realPatternPos := "", "", 0;
        return false;
      }
      EndMode();
      AddFilter();
      return true;
    }

    /** True when the character is not to be added to the pattern. */
    method ProcessNoneChar(c: char) returns (done: bool)
      requires Inv(View()) && mode == None
      modifies this
      ensures Inv(View())
      ensures (if done then View() else Append(View(), c)) == NoneChar(old(View()), c)
    {
      match c
      case ' ' => return true;
      case '~' => exclusion := true; return false;
      case '[' => mode := Tag; return false;
      case '"' => mode := QuotedName; return false;
      case _ => mode := Name; return false;
    }

    method ProcessNameChar(c: char)
      requires Inv(View()) && mode == Name
      modifies this
      ensures Inv(View())
      ensures Append(View(), c) == NameChar(old(View()), c)
    {
      if c == '[' {
        if substring == "exclude:" {
          exclusion := true;
        } else {
          EndMode();
        }
        mode := Tag;
      }
    }

    method ProcessOtherChar(c: char) returns (done: bool)
      requires Inv(View()) && (mode == Tag || mode == QuotedName)
      modifies this
      ensures Inv(View())
      ensures (if done then View() else Append(View(), c)) == OtherChar(old(View()), c)
    {
      if !IsControlChar(mode, c) {
        return false;
      }
      substring := substring + [c];
      EndMode();
      return true;
    }

    method VisitChar(c: char) returns (ok: bool)
      requires Inv(View())
      modifies this
      ensures Step(View(), ok) == Steps.VisitChar(old(View()), c)
    {
      hide Steps.AddNamePattern, Steps.AddTagPattern, RemoveAll;
      if mode != EscapedName && c == '\\' {
        lastMode := mode;
        mode := EscapedName;
        escapeChars := escapeChars + [realPatternPos];
        AddCharToPattern(c);
        return true;
      } else if mode != EscapedName && c == ',' {
        ok := Separate();
        return;
      }
      var done := false;
      match mode {
        case None => done := ProcessNoneChar(c);
        case Name => ProcessNameChar(c);
        case EscapedName =>
          EndMode();
          AddCharToPattern(c);
          done := true;
        case _ => done := ProcessOtherChar(c);
      }
      if !done {
        substring := substring + [c];
        if !IsControlChar(mode, c) {
          patternName := patternName + [c];
          realPatternPos := realPatternPos + 1;
        }
      }
      return true;
    }

    method Parse(arg: string)
      modifies this
      ensures View() == Parsed(old(View()), arg, expandAliases(arg))
      ensures testSpec.invalidSpecs ==
              old(testSpec.invalidSpecs) + (if Rejected(expandAliases(arg), None) then [arg] else [])
    {
      InvalidIff(View(), arg, expandAliases(arg));
      hide Steps.VisitChar, Steps.EndMode, Rejected;
      mode := None;
      exclusion := false;
      var expanded := expandAliases(arg);
      escapeChars := [];
      realPatternPos := 0;
      ghost var start := View();
      var pos := 0;
      assert expanded[0..] == expanded;
      while pos < |expanded|
        invariant 0 <= pos <= |expanded| && Inv(View())
        invariant VisitAll(View(), expanded[pos..]) == VisitAll(start, expanded)
      {
        assert expanded[pos..][0] == expanded[pos] && expanded[pos..][1..] == expanded[pos + 1..];
        var ok := VisitChar(expanded[pos]);
        if !ok {
          testSpec := testSpec.(invalidSpecs := testSpec.invalidSpecs + [arg]);
          EndMode();
          return;
        }
        pos := pos + 1;
      }
      assert expanded[pos..] == "";
      EndMode();
    }

    method TestSpec() returns (spec: Spec)
      modifies this
      ensures spec == Finished(old(View()))
    {
      AddFilter();
      spec := testSpec;
    }
  }

  /** Quoting a name, parsing it, after a tilde to exclude it, and asking for the result. */
  method ParseQuoted(x: bool, name: string) returns (spec: Spec)
    ensures OnlyName(spec, x, name) <==> HasPlain(name) && !Diverted(name) && !StartsWith(name, "exclude:")
  {
    var parser := new TestSpecParser(arg => arg);
    parser.Parse(Tilde(x) + Quote(Name, name));
    spec := parser.TestSpec();
    RoundTripIff(x, name);
  }

  /** Writing a whole specification out, parsing it and asking for the result. */
  method ParseWritten(rows: seq<seq<Item>>) returns (spec: Spec)
    requires Rows(rows)
    ensures spec == Spec(Filters(NO_FILTER, rows), [])
  {
    var parser := new TestSpecParser(arg => arg);
    parser.Parse(WrittenSpec(rows));
    spec := parser.TestSpec();
    SpecRoundTrip(START, WrittenSpec(rows), rows);
    assert [] + Filters(NO_FILTER, rows) == Filters(NO_FILTER, rows);
  }
}
