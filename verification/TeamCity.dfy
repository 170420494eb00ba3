/** Service-message escaping of the TeamCity reporter. */
module TeamCity {

  // ----- replacing in place

  predicate OccursAt(s: string, needle: string, i: nat) {
    i + |needle| <= |s| && s[i..i + |needle|] == needle
  }

  /** The first occurrence at or after i; |s| + 1 if there is none. */
  function Find(s: string, needle: string, i: nat): (k: nat)
    requires i <= |s|
    ensures i <= k <= |s| + 1
    decreases |s| - i
  {
    if OccursAt(s, needle, i) then i else if i == |s| then |s| + 1 else Find(s, needle, i + 1)
  }

  lemma {:induction false} FindFirst(s: string, needle: string, i: nat)
    requires i <= |s|
    ensures
      var k := Find(s, needle, i);
      && (k <= |s| ==> OccursAt(s, needle, k))
      && forall j :: i <= j < k && j <= |s| ==> !OccursAt(s, needle, j)
    decreases |s| - i
  {
    hide OccursAt;
    if !OccursAt(s, needle, i) && i < |s| {
      FindFirst(s, needle, i + 1);
    }
  }

  /** Left to right, without looking again at what was put in. */
  function Replaced(s: string, needle: string, put: string): string
    requires needle != ""
    decreases |s|
  {
    var i := Find(s, needle, 0);
    FindFirst(s, needle, 0);
    if i > |s| then s else s[..i] + put + Replaced(s[i + |needle|..], needle, put)
  }

  /** Searching the tail of a string. */
  lemma {:induction false} FindInTail(done: string, rest: string, needle: string, i: nat)
    requires i <= |rest|
    ensures Find(done + rest, needle, |done| + i) == |done| + Find(rest, needle, i)
    decreases |rest| - i
  {
    var s := done + rest;
    assert |done| + i + |needle| <= |s| ==> s[|done| + i..|done| + i + |needle|] == rest[i..i + |needle|];
    if i < |rest| && !OccursAt(rest, needle, i) {
      FindInTail(done, rest, needle, i + 1);
    }
  }

  lemma Splice(done: string, rest: string, k: nat, m: nat, put: string)
    requires k + m <= |rest|
    ensures (done + rest)[..|done| + k] + put + (done + rest)[|done| + k + m..]
        == done + rest[..k] + put + rest[k + m..]
  {
    assert (done + rest)[..|done| + k] == done + rest[..k];
    assert (done + rest)[|done| + k + m..] == rest[k + m..];
  }

  lemma Found(rest: string, needle: string)
    requires Find(rest, needle, 0) <= |rest|
    ensures Find(rest, needle, 0) + |needle| <= |rest|
  {
    FindFirst(rest, needle, 0);
  }

  lemma ReplacedOnce(rest: string, needle: string, put: string)
    requires needle != "" && Find(rest, needle, 0) <= |rest|
    ensures
      var k := Find(rest, needle, 0);
      k + |needle| <= |rest|
      && Replaced(rest, needle, put) == rest[..k] + put + Replaced(rest[k + |needle|..], needle, put)
  {
    Found(rest, needle);
    hide Find, OccursAt;
  }

  lemma FindNowhere(needle: string)
    requires needle != ""
    ensures Find("", needle, 0) == 1
  {
  }

  /** One round of the loop, on a string of which `done` is finished. */
  lemma OneReplaced(done: string, rest: string, needle: string, put: string)
    requires needle != "" && Find(rest, needle, 0) <= |rest|
    ensures Find(rest, needle, 0) + |needle| <= |rest|
    ensures
      var s, k := done + rest, Find(rest, needle, 0);
      var i, done', tail := |done| + k, done + rest[..k] + put, rest[k + |needle|..];
      && s[..i] + put + s[i + |needle|..] == done' + tail
      && done + Replaced(rest, needle, put) == done' + Replaced(tail, needle, put)
      && Find(done' + tail, needle, |done'|) == |done'| + Find(tail, needle, 0)
      && (tail == "" ==> Find(tail, needle, 0) == 1)
  {
    hide Find, OccursAt, Replaced;
    ReplacedOnce(rest, needle, put);
    FindNowhere(needle);
    var k := Find(rest, needle, 0);
    var done', tail := done + rest[..k] + put, rest[k + |needle|..];
    Splice(done, rest, k, |needle|, put);
    var r := Replaced(tail, needle, put);
    assert done + (rest[..k] + put + r) == done + rest[..k] + put + r;
    FindInTail(done', tail, needle, 0);
  }

  /** The loop's state: `done` is finished, the next occurrence in `rest` is at i. */
  ghost predicate Replacing(s: string, needle: string, put: string, str: string, done: string, rest: string, i: nat)
    requires needle != ""
  {
    && str == done + rest && i == |done| + Find(rest, needle, 0)
    && Replaced(s, needle, put) == done + Replaced(rest, needle, put)
  }

  lemma ReplacingStarts(s: string, needle: string, put: string)
    requires needle != ""
    ensures Replacing(s, needle, put, s, "", s, Find(s, needle, 0))
  {
    hide Find, Replaced;
    assert "" + s == s && "" + Replaced(s, needle, put) == Replaced(s, needle, put);
  }

  lemma ReplacingStep(s: string, needle: string, put: string, str: string, done: string, rest: string, i: nat)
    requires needle != "" && Replacing(s, needle, put, str, done, rest, i) && i <= |str|
    ensures
      var k := Find(rest, needle, 0);
      && k + |needle| <= |rest| && i + |needle| <= |str|
      && var str', done', tail := str[..i] + put + str[i + |needle|..], done + rest[..k] + put, rest[k + |needle|..];
         && |done'| == i + |put| <= |str'|
         && Replacing(s, needle, put, str', done', tail,
                      if i < |str'| - |put| then Find(str', needle, i + |put|) else |str'| + 1)
  {
    hide Find, Replaced, OccursAt;
    OneReplaced(done, rest, needle, put);
  }

  lemma ReplacingEnds(s: string, needle: string, put: string, str: string, done: string, rest: string, i: nat)
    requires needle != "" && Replacing(s, needle, put, str, done, rest, i) && i > |str|
    ensures str == Replaced(s, needle, put)
  {
  }

  lemma FindEmpty(s: string, i: nat)
    requires i <= |s|
    ensures Find(s, "", i) == i
  {
    assert s[i..i] == "";
  }

  /** The loop's state for any search that ends: nothing is searched for in the empty string only. */
  ghost predicate Midway(s: string, needle: string, put: string, str: string, done: string, rest: string, i: nat,
                         replaced: bool)
  {
    && (if needle != "" then Replacing(s, needle, put, str, done, rest, i)
        else s == "" && if replaced then str == put && i == |str| + 1 else i == 0)
    && if replaced then Find(s, needle, 0) <= |s| else i == Find(s, needle, 0) && str == s
  }

  lemma MidwayStarts(s: string, needle: string, put: string)
    requires needle != "" || s == ""
    ensures Midway(s, needle, put, s, "", s, Find(s, needle, 0), false)
  {
    if needle == "" {
      FindEmpty(s, 0);
    } else {
      ReplacingStarts(s, needle, put);
    }
  }

  /** One occurrence replaced: what is left to search is shorter, or the search is over. */
  lemma MidwayStep(s: string, needle: string, put: string, str: string, done: string, rest: string, i: nat,
                   replaced: bool) returns (done': string, rest': string)
    requires Midway(s, needle, put, str, done, rest, i, replaced) && i <= |str|
    ensures i + |needle| <= |str|
    ensures
      var str' := str[..i] + put + str[i + |needle|..];
      Midway(s, needle, put, str', done', rest',
             if i < |str'| - |put| then Find(str', needle, i + |put|) else |str'| + 1, true)
    ensures if needle == "" then !replaced else |rest'| < |rest|
  {
    hide Find, Replaced, OccursAt;
    if needle == "" {
      done', rest' := done, rest;
      assert str[..i] + put + str[i..] == put;
    } else {
      ReplacingStep(s, needle, put, str, done, rest, i);
      var k := Find(rest, needle, 0);
      done', rest' := done + rest[..k] + put, rest[k + |needle|..];
      hide Replacing;
    }
  }

  lemma MidwayEnds(s: string, needle: string, put: string, str: string, done: string, rest: string, i: nat,
                   replaced: bool)
    requires Midway(s, needle, put, str, done, rest, i, replaced) && i > |str|
    ensures str == if needle == "" then put else Replaced(s, needle, put)
    ensures replaced <==> Find(s, needle, 0) <= |s|
  {
    if needle != "" {
      ReplacingEnds(s, needle, put, str, done, rest, i);
    }
  }

  class Text {
    var str: string

    constructor (s: string)
      ensures str == s
    {
      str := s;
    }

    /** Ends unless an empty string is searched for in one that is not empty. */
    method ReplaceInPlace(replaceThis: string, withThis: string) returns (replaced: bool)
      requires replaceThis != "" || str == ""
      modifies this
      ensures str == if replaceThis == "" then withThis else Replaced(old(str), replaceThis, withThis)
      ensures replaced <==> Find(old(str), replaceThis, 0) <= |old(str)|
    {
      hide Replaced, OccursAt, Find, Midway;
      ghost var done, rest := "", str;
      replaced := false;
      var i: nat := Find(str, replaceThis, 0);
      MidwayStarts(str, replaceThis, withThis);
      while i <= |str|
        invariant Midway(old(str), replaceThis, withThis, str, done, rest, i, replaced)
        decreases if replaceThis == "" then 0 else |rest|, !replaced
      {
        ghost var done', rest' := MidwayStep(old(str), replaceThis, withThis, str, done, rest, i, replaced);
        done, rest := done', rest';
        str := str[..i] + withThis + str[i + |replaceThis|..];
        replaced := true;
        if i < |str| - |withThis| {
          i := Find(str, replaceThis, i + |withThis|);
        } else {
          i := |str| + 1;
        }
      }
      MidwayEnds(old(str), replaceThis, withThis, str, done, rest, i, replaced);
    }
  }

  // ----- searching for nothing

  /** The string and the place after k rounds of the loop. */
  function Rounds(s: string, put: string, k: nat): (r: (string, nat))
    ensures r.1 <= |r.0| + 1
  {
    if k == 0 then (s, Find(s, "", 0))
    else
      var (str, i) := Rounds(s, put, k - 1);
      if i > |str| then (str, i)
      else
        var str' := str[..i] + put + str[i..];
        (str', if i < |str'| - |put| then Find(str', "", i + |put|) else |str'| + 1)
  }

  /** In a string that is not empty the search for the empty one finds a next place in every round. */
  lemma {:induction false} EmptySearchGoesOn(s: string, put: string, k: nat)
    requires s != ""
    ensures
      var (str, i) := Rounds(s, put, k);
      i + |s| == |str| && str[i..] == s
  {
    hide Find;
    if k == 0 {
      FindEmpty(s, 0);
    } else {
      EmptySearchGoesOn(s, put, k - 1);
      var (str, i) := Rounds(s, put, k - 1);
      var str' := str[..i] + put + str[i..];
      FindEmpty(str', i + |put|);
      assert str'[i + |put|..] == s;
    }
  }

  // ----- single characters

  function Pass(s: string, c: char, put: string): string {
    if s == "" then "" else (if s[0] == c then put else [s[0]]) + Pass(s[1..], c, put)
  }

  lemma {:induction false} PassAppend(s: string, t: string, c: char, put: string)
    ensures Pass(s + t, c, put) == Pass(s, c, put) + Pass(t, c, put)
  {
    if s == "" {
      assert s + t == t;
    } else {
      assert (s + t)[1..] == s[1..] + t;
      PassAppend(s[1..], t, c, put);
    }
  }

  lemma {:induction false} PassUntouched(s: string, c: char, put: string)
    requires c !in s
    ensures Pass(s, c, put) == s
  {
    if s != "" {
      PassUntouched(s[1..], c, put);
    }
  }

  lemma FindChar(s: string, c: char)
    ensures
      var i := Find(s, [c], 0);
      if i > |s| then c !in s else i < |s| && s[i] == c && c !in s[..i]
  {
    var i := Find(s, [c], 0);
    FindFirst(s, [c], 0);
    forall j | 0 <= j < |s| && j < i
      ensures s[j] != c
    {
      assert !OccursAt(s, [c], j);
      assert s[j..j + 1] == [s[j]];
    }
    assert i <= |s| ==> s[i..i + 1] == [c];
  }

  lemma PassAt(s: string, i: nat, c: char, put: string)
    requires i < |s| && s[i] == c && c !in s[..i]
    ensures Pass(s, c, put) == s[..i] + put + Pass(s[i + 1..], c, put)
  {
    var before, after := s[..i], s[i + 1..];
    assert Pass([c] + after, c, put) == put + Pass(after, c, put) by {
      assert ([c] + after)[1..] == after;
    }
    hide Pass;
    PassUntouched(before, c, put);
    PassAppend(before, [c] + after, c, put);
    assert s == before + ([c] + after);
    assert before + (put + Pass(after, c, put)) == before + put + Pass(after, c, put);
  }

  /** Replacing a character is a substitution character by character. */
  lemma {:induction false} ReplacedIsPass(s: string, c: char, put: string)
    ensures Replaced(s, [c], put) == Pass(s, c, put)
    decreases |s|
  {
    hide Find, OccursAt, Pass;
    FindChar(s, c);
    var i := Find(s, [c], 0);
    if i > |s| {
      PassUntouched(s, c, put);
    } else {
      hide Replaced;
      ReplacedOnce(s, [c], put);
      ReplacedIsPass(s[i + 1..], c, put);
      PassAt(s, i, c, put);
    }
  }

  // ----- the six passes

  function EscapedChar(c: char): string {
    if c == '\n' then "|n" else if c == '\r' then "|r"
    else if c == '|' || c == '\'' || c == '[' || c == ']' then ['|', c]
    else [c]
  }

  /** Every character replaced at once. */
  function Escaped(s: string): string {
    if s == "" then "" else EscapedChar(s[0]) + Escaped(s[1..])
  }

  function SixPasses(s: string): string {
    var s1 := Pass(s, '|', "||");
    var s2 := Pass(s1, '\'', "|'");
    var s3 := Pass(s2, '\n', "|n");
    var s4 := Pass(s3, '\r', "|r");
    var s5 := Pass(s4, '[', "|[");
    Pass(s5, ']', "|]")
  }

  lemma SixPassesAppend(s: string, t: string)
    ensures SixPasses(s + t) == SixPasses(s) + SixPasses(t)
  {
    hide Pass;
    PassAppend(s, t, '|', "||");
    var s1, t1 := Pass(s, '|', "||"), Pass(t, '|', "||");
    PassAppend(s1, t1, '\'', "|'");
    var s2, t2 := Pass(s1, '\'', "|'"), Pass(t1, '\'', "|'");
    PassAppend(s2, t2, '\n', "|n");
    var s3, t3 := Pass(s2, '\n', "|n"), Pass(t2, '\n', "|n");
    PassAppend(s3, t3, '\r', "|r");
    var s4, t4 := Pass(s3, '\r', "|r"), Pass(t3, '\r', "|r");
    PassAppend(s4, t4, '[', "|[");
    PassAppend(Pass(s4, '[', "|["), Pass(t4, '[', "|["), ']', "|]");
  }

  lemma PassOne(a: char, c: char, put: string)
    ensures Pass([a], c, put) == if a == c then put else [a]
  {
    assert [a][1..] == "";
  }

  lemma PassTwo(a: char, b: char, c: char, put: string)
    requires a != c && b != c
    ensures Pass([a, b], c, put) == [a, b]
  {
    PassUntouched([a, b], c, put);
  }

  /** One character through all six: what an earlier pass put in, no later pass touches. */
  lemma SixPassesOne(c: char)
    ensures SixPasses([c]) == EscapedChar(c)
  {
    hide Pass;
    PassOne(c, '|', "||");
    PassOne(c, '\'', "|'");
    PassOne(c, '\n', "|n");
    PassOne(c, '\r', "|r");
    PassOne(c, '[', "|[");
    PassOne(c, ']', "|]");
    PassTwo('|', '|', '\'', "|'");
    var e := EscapedChar(c);
    if |e| == 2 {
      var d := e[1];
      assert e == ['|', d] && d != '\n' && d != '\r';
      if d != '\'' {
        PassTwo('|', d, '\'', "|'");
      }
      PassTwo('|', d, '\n', "|n");
      PassTwo('|', d, '\r', "|r");
      if d != '[' {
        PassTwo('|', d, '[', "|[");
      }
      if d != ']' {
        PassTwo('|', d, ']', "|]");
      }
    }
  }

  lemma {:induction false} SixPassesAtOnce(s: string)
    ensures SixPasses(s) == Escaped(s)
  {
    hide SixPasses;
    if s == "" {
      NothingToPass();
    } else {
      assert s == [s[0]] + s[1..];
      SixPassesAppend([s[0]], s[1..]);
      SixPassesOne(s[0]);
      SixPassesAtOnce(s[1..]);
    }
  }

  lemma NothingToPass()
    ensures SixPasses("") == ""
  {
  }

  // ----- and back

  function UnescapedChar(c: char): char {
    if c == 'n' then '\n' else if c == 'r' then '\r' else c
  }

  /** The reader's side: a bar gives the next character its meaning. */
  function Unescape(s: string): string {
    if s == "" then ""
    else if s[0] == '|' && |s| >= 2 then [UnescapedChar(s[1])] + Unescape(s[2..])
    else [s[0]] + Unescape(s[1..])
  }

  lemma {:induction false} EscapedUndone(s: string)
    ensures Unescape(Escaped(s)) == s
  {
    if s != "" {
      EscapedUndone(s[1..]);
      var e, rest := EscapedChar(s[0]), Escaped(s[1..]);
      if |e| == 1 {
        assert (e + rest)[1..] == rest;
      } else {
        assert (e + rest)[2..] == rest;
      }
    }
  }

  // ----- what may stand between the quotes of a message

  /** Read from left to right, each bar has one of the six letters after it, and no quote, bracket or
      line end stands elsewhere. */
  predicate Enclosable(s: string) {
    if s == "" then true
    else if s[0] == '|' then |s| >= 2 && s[1] in "|'nr[]" && Enclosable(s[2..])
    else s[0] !in "'[]\n\r" && Enclosable(s[1..])
  }

  lemma {:induction false} EscapedEnclosable(s: string)
    ensures Enclosable(Escaped(s))
  {
    if s != "" {
      EscapedEnclosable(s[1..]);
      var e, rest := EscapedChar(s[0]), Escaped(s[1..]);
      hide Escaped;
      if |e| == 1 {
        assert (e + rest)[1..] == rest;
      } else {
        assert (e + rest)[2..] == rest;
      }
    }
  }

  /** So a message has no line end in it, and its quotes and brackets come after a bar. */
  lemma {:induction false} EnclosableMarks(s: string, k: nat)
    requires Enclosable(s) && k < |s|
    ensures s[k] != '\n' && s[k] != '\r'
    ensures s[k] in "'[]" ==> k > 0 && s[k - 1] == '|'
    decreases |s|
  {
    var n := if s[0] == '|' then 2 else 1;
    if k >= n {
      EnclosableMarks(s[n..], k - n);
    }
  }

  method Escape(s: string) returns (escaped: string)
    ensures escaped == Escaped(s) && Unescape(escaped) == s
    ensures Enclosable(escaped) && '\n' !in escaped && '\r' !in escaped
    ensures forall k :: 0 <= k < |escaped| && escaped[k] in "'[]" ==> k > 0 && escaped[k - 1] == '|'
  {
    hide Pass, Replaced;
    var text := new Text(s);
    ReplacedIsPass(text.str, '|', "||");
    var r := text.ReplaceInPlace("|", "||");
    ReplacedIsPass(text.str, '\'', "|'");
    r := text.ReplaceInPlace("'", "|'");
    ReplacedIsPass(text.str, '\n', "|n");
    r := text.ReplaceInPlace("\n", "|n");
    ReplacedIsPass(text.str, '\r', "|r");
    r := text.ReplaceInPlace("\r", "|r");
    ReplacedIsPass(text.str, '[', "|[");
    r := text.ReplaceInPlace("[", "|[");
    ReplacedIsPass(text.str, ']', "|]");
    r := text.ReplaceInPlace("]", "|]");
    escaped := text.str;
    SixPassesAtOnce(s);
    EscapedUndone(s);
    EscapedEnclosable(s);
    hide Enclosable;
    forall k | 0 <= k < |escaped|
      ensures escaped[k] != '\n' && escaped[k] != '\r' && (escaped[k] in "'[]" ==> k > 0 && escaped[k - 1] == '|')
    {
      EnclosableMarks(escaped, k);
    }
  }
}
