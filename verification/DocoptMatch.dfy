/** Matching a usage pattern against the arguments that are left. Only the arguments left and the
    verdict are modelled; the collected values never influence either. */
module DocoptMatch {
  import opened Docopt
  import W = Wrappers

  datatype Outcome = Outcome(matched: bool, left: seq<LeafPattern>)

  // ----- leaves

  function Name(l: LeafPattern): W.Option<string> {
    match l
    case Argument(name, _) => name
    case Command(name) => name
    case Option(short, long) => if long.Some? && long.value != "" then long else short
  }

  /** Whether a pattern leaf may consume an argument, wherever that stands. */
  predicate Fits(l: LeafPattern, arg: LeafPattern) {
    match l
    case Argument(_, _) => arg.Argument?
    case Command(name) => arg.Argument? && name == W.Some(arg.value)
    case Option(_, _) => Name(l) == Name(arg)
  }

  predicate Given(name: W.Option<string>) {
    name.Some? && name.value != ""
  }

  /** Options with long names are told by these, whatever their short names; without, by the short
      ones. Options and words are told apart, unless an argument's name is an option's. */
  lemma OptionsFitIff(l: LeafPattern, arg: LeafPattern)
    requires l.Option?
    ensures arg.Option? && Given(l.long) && Given(arg.long) ==> (Fits(l, arg) <==> l.long == arg.long)
    ensures arg.Option? && !Given(l.long) && !Given(arg.long) ==> (Fits(l, arg) <==> l.short == arg.short)
    ensures arg.Argument? && arg.name.None? && (Given(l.long) || l.short.Some?) ==> !Fits(l, arg)
  {
  }

  /** The first argument from position n on that a leaf consumes; a command only looks at the first
      positional argument. */
  function SingleMatch(l: LeafPattern, left: seq<LeafPattern>, n: nat): (r: W.Option<nat>)
    requires n <= |left|
    ensures r.Some? ==> n <= r.value < |left| && Fits(l, left[r.value])
    decreases |left| - n
  {
    if n == |left| then W.None
    else if Fits(l, left[n]) then W.Some(n)
    else if l.Command? && left[n].Argument? then W.None
    else SingleMatch(l, left, n + 1)
  }

  function Removed(left: seq<LeafPattern>, n: nat): seq<LeafPattern>
    requires n < |left|
  {
    left[..n] + left[n + 1..]
  }

  /** Repetition has one child, as the matcher asserts. */
  predicate Proper(p: Pattern)
    decreases p
  {
    p.Branch? ==>
      (p.kind == OneOrMore ==> |p.children| == 1) && forall k :: 0 <= k < |p.children| ==> Proper(p.children[k])
  }

  predicate ProperAll(cs: seq<Pattern>) {
    forall k :: 0 <= k < |cs| ==> Proper(cs[k])
  }

  /** Nothing is added; equally long means nothing was taken; a failure takes nothing. */
  predicate Shrinks(left: seq<LeafPattern>, o: Outcome) {
    && |o.left| <= |left|
    && (|o.left| == |left| ==> o.left == left)
    && (!o.matched ==> o.left == left)
  }

  // ----- branches

  function Match(p: Pattern, left: seq<LeafPattern>): (o: Outcome)
    requires Proper(p)
    ensures Shrinks(left, o)
    decreases p, 0, 0, 0
  {
    match p
    case Leaf(l) =>
      (match SingleMatch(l, left, 0)
       case None => Outcome(false, left)
       case Some(n) => Outcome(true, Removed(left, n)))
    case Branch(Required, cs) =>
      var o := MatchAll(cs, left);
      if o.matched then o else Outcome(false, left)
    case Branch(OneOrMore, cs) =>
      var r := Repeat(cs[0], left, W.None, 0);
      if r.0 >= 1 then Outcome(true, r.1) else Outcome(false, left)
    case Branch(Either, cs) =>
      var os := Outcomes(cs, left);
      if os == [] then Outcome(false, left) else Fewest(os)
    case Branch(_, cs) => Outcome(true, MatchAny(cs, left))
  }

  function MatchAll(cs: seq<Pattern>, left: seq<LeafPattern>): (o: Outcome)
    requires ProperAll(cs)
    ensures o.matched ==> Shrinks(left, o)
    decreases cs, 0, 0, 0
  {
    if cs == [] then Outcome(true, left)
    else
      var o := Match(cs[0], left);
      if o.matched then MatchAll(cs[1..], o.left) else o
  }

  function MatchAny(cs: seq<Pattern>, left: seq<LeafPattern>): (l: seq<LeafPattern>)
    requires ProperAll(cs)
    ensures Shrinks(left, Outcome(true, l))
    decreases cs, 0, 0, 0
  {
    if cs == [] then left else MatchAny(cs[1..], Match(cs[0], left).left)
  }

  /** How often the child matched, and what is left: the loop, with the arguments left before. */
  function Repeat(child: Pattern, left: seq<LeafPattern>,
                  before: W.Option<seq<LeafPattern>>, times: nat): (r: (nat, seq<LeafPattern>))
    requires Proper(child) && (before == W.None || before == W.Some(left))
    ensures r.0 >= times && Shrinks(left, Outcome(true, r.1))
    decreases child, 1, |left|, if before == W.None then 1 else 0
  {
    var o := Match(child, left);
    var times' := if o.matched then times + 1 else times;
    if before == W.Some(o.left) || !o.matched then (times', o.left) else Repeat(child, o.left, W.Some(o.left), times')
  }

  /** The outcomes of the children that match, in order. */
  function Outcomes(cs: seq<Pattern>, left: seq<LeafPattern>): (os: seq<Outcome>)
    requires ProperAll(cs)
    ensures forall o :: o in os ==> o.matched && Shrinks(left, o)
    decreases cs, 0, 0, 0
  {
    if cs == [] then []
    else
      var o := Match(cs[0], left);
      (if o.matched then [o] else []) + Outcomes(cs[1..], left)
  }

  /** The one that leaves fewest, the earliest of those. */
  function Fewest(os: seq<Outcome>): (o: Outcome)
    requires os != []
    ensures o in os && forall k :: 0 <= k < |os| ==> |o.left| <= |os[k].left|
  {
    if |os| == 1 then os[0]
    else
      var rest := Fewest(os[1..]);
      if |os[0].left| <= |rest.left| then os[0] else rest
  }

  // ----- the match methods

  method MatchLeaf(l: LeafPattern, left: seq<LeafPattern>) returns (o: Outcome)
    ensures o == Match(Leaf(l), left)
  {
    var n := 0;
    while n < |left| && !Fits(l, left[n])
      invariant 0 <= n <= |left|
      invariant SingleMatch(l, left, n) == SingleMatch(l, left, 0)
    {
      if l.Command? && left[n].Argument? {
        return Outcome(false, left);
      }
      n := n + 1;
    }
    o := if n == |left| then Outcome(false, left) else Outcome(true, Removed(left, n));
  }

  method MatchRequired(cs: seq<Pattern>, left: seq<LeafPattern>) returns (o: Outcome)
    requires ProperAll(cs)
    ensures o == Match(Branch(Required, cs), left)
    decreases cs, 1
  {
    var l, i := left, 0;
    while i < |cs|
      invariant 0 <= i <= |cs| && MatchAll(cs[i..], l) == MatchAll(cs, left)
    {
      assert cs[i..][0] == cs[i] && cs[i..][1..] == cs[i + 1..];
      var c := MatchPattern(cs[i], l);
      if !c.matched {
        return Outcome(false, left);
      }
      l, i := c.left, i + 1;
    }
    o := Outcome(true, l);
  }

  method MatchOptional(cs: seq<Pattern>, left: seq<LeafPattern>) returns (o: Outcome)
    requires ProperAll(cs)
    ensures o == Outcome(true, MatchAny(cs, left))
    decreases cs, 1
  {
    var l, i := left, 0;
    while i < |cs|
      invariant 0 <= i <= |cs| && MatchAny(cs[i..], l) == MatchAny(cs, left)
    {
      assert cs[i..][0] == cs[i] && cs[i..][1..] == cs[i + 1..];
      var c := MatchPattern(cs[i], l);
      l, i := c.left, i + 1;
    }
    o := Outcome(true, l);
  }

  /** The child is run at most twice more than there are arguments. */
  method MatchOneOrMore(cs: seq<Pattern>, left: seq<LeafPattern>) returns (o: Outcome, runs: nat)
    requires |cs| == 1 && ProperAll(cs)
    ensures o == Match(Branch(OneOrMore, cs), left)
    ensures runs <= |left| + 2
    decreases cs, 1
  {
    var l, l_, matched, times := left, W.None, true, 0;
    runs := 0;
    while matched
      invariant l_ == W.None || l_ == W.Some(l)
      invariant matched ==> Repeat(cs[0], l, l_, times) == Repeat(cs[0], left, W.None, 0)
      invariant !matched ==> (times, l) == Repeat(cs[0], left, W.None, 0)
      invariant |l| <= |left| && runs + |l| <= |left| + (if l_ == W.None then 0 else if matched then 1 else 2)
      decreases matched, |l|, l_ == W.None
    {
      var c := MatchPattern(cs[0], l);
      runs := runs + 1;
      matched, l := c.matched, c.left;
      times := if matched then times + 1 else times;
      if l_ == W.Some(l) {
        break;
      }
      l_ := W.Some(l);
    }
    o := if times >= 1 then Outcome(true, l) else Outcome(false, left);
  }

  lemma FewestAlone(o: Outcome)
    ensures Fewest([o]) == o
  {
  }

  lemma FewestOfTwo(a: Outcome, b: Outcome, rest: seq<Outcome>)
    ensures Fewest([a, b] + rest) == Fewest([if |b.left| < |a.left| then b else a] + rest)
  {
    var c := if |b.left| < |a.left| then b else a;
    assert ([a, b] + rest)[1..] == [b] + rest && ([b] + rest)[1..] == rest && ([c] + rest)[1..] == rest;
  }

  /** The least of a list by a key, the earliest when several are. */
  method Min(outcomes: seq<Outcome>) returns (best: Outcome)
    requires outcomes != []
    ensures best == Fewest(outcomes)
  {
    hide Fewest;
    best := outcomes[0];
    var i := 1;
    assert [best] + outcomes[1..] == outcomes;
    while i < |outcomes|
      invariant 1 <= i <= |outcomes| && Fewest([best] + outcomes[i..]) == Fewest(outcomes)
    {
      FewestOfTwo(best, outcomes[i], outcomes[i + 1..]);
      assert [best] + outcomes[i..] == [best, outcomes[i]] + outcomes[i + 1..];
      if |outcomes[i].left| < |best.left| {
        best := outcomes[i];
      }
      i := i + 1;
    }
    assert [best] + outcomes[i..] == [best];
    FewestAlone(best);
  }

  lemma OutcomesFrom(cs: seq<Pattern>, left: seq<LeafPattern>, i: nat, before: seq<Outcome>)
    requires ProperAll(cs) && i < |cs|
    ensures
      var o := Match(cs[i], left);
      before + Outcomes(cs[i..], left) == (if o.matched then before + [o] else before) + Outcomes(cs[i + 1..], left)
  {
    hide Match;
    assert cs[i..][0] == cs[i] && cs[i..][1..] == cs[i + 1..];
    var o := Match(cs[i], left);
    assert before + ([o] + Outcomes(cs[i + 1..], left)) == before + [o] + Outcomes(cs[i + 1..], left);
  }

  method Collect(cs: seq<Pattern>, left: seq<LeafPattern>) returns (outcomes: seq<Outcome>)
    requires ProperAll(cs)
    ensures outcomes == Outcomes(cs, left)
    decreases cs, 1
  {
    hide Match, Fewest, Shrinks, Proper;
    var i := 0;
    outcomes := [];
    while i < |cs|
      invariant 0 <= i <= |cs| && outcomes + Outcomes(cs[i..], left) == Outcomes(cs, left)
    {
      OutcomesFrom(cs, left, i, outcomes);
      var c := MatchPattern(cs[i], left);
      if c.matched {
        outcomes := outcomes + [c];
      }
      i := i + 1;
    }
    assert cs[i..] == [];
  }

  method MatchEither(cs: seq<Pattern>, left: seq<LeafPattern>) returns (o: Outcome)
    requires ProperAll(cs)
    ensures o == Match(Branch(Either, cs), left)
    decreases cs, 2
  {
    hide Outcomes, Fewest, Shrinks, Proper;
    var outcomes := Collect(cs, left);
    if outcomes == [] {
      o := Outcome(false, left);
    } else {
      o := Min(outcomes);
    }
  }

  method MatchPattern(p: Pattern, left: seq<LeafPattern>) returns (o: Outcome)
    requires Proper(p)
    ensures o == Match(p, left)
    decreases p, 0
  {
    match p
    case Leaf(l) => o := MatchLeaf(l, left);
    case Branch(Required, cs) => o := MatchRequired(cs, left);
    case Branch(OneOrMore, cs) =>
      var runs;
      o, runs := MatchOneOrMore(cs, left);
    case Branch(Either, cs) => o := MatchEither(cs, left);
    case Branch(_, cs) => o := MatchOptional(cs, left);
  }

  // ----- what matching promises

  /** a keeps some of b, in order. */
  predicate Subsequence<T(==)>(a: seq<T>, b: seq<T>) {
    a == [] || (b != [] && ((a[0] == b[0] && Subsequence(a[1..], b[1..])) || Subsequence(a, b[1..])))
  }

  lemma {:induction false} SubsequenceRefl<T>(a: seq<T>)
    ensures Subsequence(a, a)
  {
    if a != [] {
      SubsequenceRefl(a[1..]);
    }
  }

  lemma {:induction false} SubsequenceTrans<T>(a: seq<T>, b: seq<T>, c: seq<T>)
    requires Subsequence(a, b) && Subsequence(b, c)
    ensures Subsequence(a, c)
    decreases |c|
  {
    if a != [] {
      if b[0] == c[0] && Subsequence(b[1..], c[1..]) {
        if a[0] == b[0] && Subsequence(a[1..], b[1..]) {
          SubsequenceTrans(a[1..], b[1..], c[1..]);
        } else {
          SubsequenceTrans(a, b[1..], c[1..]);
        }
      } else {
        SubsequenceTrans(a, b, c[1..]);
      }
    }
  }

  lemma {:induction false} RemovedSubsequence(left: seq<LeafPattern>, n: nat)
    requires n < |left|
    ensures Subsequence(Removed(left, n), left)
  {
    if n == 0 {
      assert Removed(left, 0) == left[1..];
      SubsequenceRefl(left[1..]);
      assert left[1..] != [] ==> Subsequence(left[1..], left);
    } else {
      RemovedSubsequence(left[1..], n - 1);
      assert Removed(left, n) == [left[0]] + Removed(left[1..], n - 1);
    }
  }

  /** Matching only takes arguments away, and keeps the order of the others. */
  lemma {:induction false} MatchTakesAway(p: Pattern, left: seq<LeafPattern>)
    requires Proper(p)
    ensures Subsequence(Match(p, left).left, left)
    decreases p, 0, 0, 0
  {
    hide Subsequence;
    SubsequenceRefl(left);
    match p
    case Leaf(l) =>
      var n := SingleMatch(l, left, 0);
      if n.Some? {
        RemovedSubsequence(left, n.value);
      }
    case Branch(Required, cs) => AllTakesAway(cs, left);
    case Branch(OneOrMore, cs) => RepeatTakesAway(cs[0], left, W.None, 0);
    case Branch(Either, cs) => OutcomesTakeAway(cs, left);
    case Branch(_, cs) => AnyTakesAway(cs, left);
  }

  lemma {:induction false} AllTakesAway(cs: seq<Pattern>, left: seq<LeafPattern>)
    requires ProperAll(cs)
    ensures MatchAll(cs, left).matched ==> Subsequence(MatchAll(cs, left).left, left)
    decreases cs, 0, 0, 0
  {
    hide Subsequence, Match;
    SubsequenceRefl(left);
    if cs != [] {
      var o := Match(cs[0], left);
      MatchTakesAway(cs[0], left);
      AllTakesAway(cs[1..], o.left);
      if MatchAll(cs, left).matched {
        SubsequenceTrans(MatchAll(cs, left).left, o.left, left);
      }
    }
  }

  lemma {:induction false} AnyTakesAway(cs: seq<Pattern>, left: seq<LeafPattern>)
    requires ProperAll(cs)
    ensures Subsequence(MatchAny(cs, left), left)
    decreases cs, 0, 0, 0
  {
    hide Subsequence, Match;
    SubsequenceRefl(left);
    if cs != [] {
      var o := Match(cs[0], left);
      MatchTakesAway(cs[0], left);
      AnyTakesAway(cs[1..], o.left);
      SubsequenceTrans(MatchAny(cs, left), o.left, left);
    }
  }

  lemma {:induction false} RepeatTakesAway(child: Pattern, left: seq<LeafPattern>,
                                           before: W.Option<seq<LeafPattern>>, times: nat)
    requires Proper(child) && (before == W.None || before == W.Some(left))
    ensures Subsequence(Repeat(child, left, before, times).1, left)
    decreases child, 1, |left|, if before == W.None then 1 else 0
  {
    hide Subsequence, Match;
    var o := Match(child, left);
    MatchTakesAway(child, left);
    if before != W.Some(o.left) && o.matched {
      RepeatTakesAway(child, o.left, W.Some(o.left), times + 1);
      SubsequenceTrans(Repeat(child, left, before, times).1, o.left, left);
    }
  }

  lemma {:induction false} OutcomesTakeAway(cs: seq<Pattern>, left: seq<LeafPattern>)
    requires ProperAll(cs)
    ensures forall o :: o in Outcomes(cs, left) ==> Subsequence(o.left, left)
    decreases cs, 0, 0, 0
  {
    hide Subsequence, Match;
    if cs != [] {
      MatchTakesAway(cs[0], left);
      OutcomesTakeAway(cs[1..], left);
    }
  }

  /** A leaf takes the first argument that fits; a command only if no other positional argument
      comes before it. */
  lemma {:induction false} LeafTakesFirst(l: LeafPattern, left: seq<LeafPattern>, n: nat, k: nat)
    requires n <= k < |left|
    ensures SingleMatch(l, left, n) == W.Some(k) <==>
            && Fits(l, left[k])
            && forall j :: n <= j < k ==> !Fits(l, left[j]) && !(l.Command? && left[j].Argument?)
    decreases |left| - n
  {
    if n < k && !Fits(l, left[n]) && !(l.Command? && left[n].Argument?) {
      LeafTakesFirst(l, left, n + 1, k);
    }
  }

  /** Required parts match one after the other, on what the earlier ones left, or not at all. */
  lemma {:induction false} RequiredInTurn(cs: seq<Pattern>, ds: seq<Pattern>, left: seq<LeafPattern>)
    requires ProperAll(cs) && ProperAll(ds)
    ensures ProperAll(cs + ds)
    ensures
      var first := Match(Branch(Required, cs), left);
      Match(Branch(Required, cs + ds), left) ==
      if first.matched && Match(Branch(Required, ds), first.left).matched then Match(Branch(Required, ds), first.left)
      else Outcome(false, left)
    decreases |cs|
  {
    hide Proper;
    if cs == [] {
      assert cs + ds == ds;
    } else {
      assert (cs + ds)[0] == cs[0] && (cs + ds)[1..] == cs[1..] + ds;
      RequiredInTurn(cs[1..], ds, Match(cs[0], left).left);
    }
  }

  /** Optional parts are tried one after the other, whether or not the earlier ones matched. */
  lemma {:induction false} OptionalInTurn(cs: seq<Pattern>, ds: seq<Pattern>, left: seq<LeafPattern>)
    requires ProperAll(cs) && ProperAll(ds)
    ensures ProperAll(cs + ds) && MatchAny(cs + ds, left) == MatchAny(ds, MatchAny(cs, left))
    decreases |cs|
  {
    hide Proper, Match;
    if cs == [] {
      assert cs + ds == ds;
    } else {
      assert (cs + ds)[0] == cs[0] && (cs + ds)[1..] == cs[1..] + ds;
      OptionalInTurn(cs[1..], ds, Match(cs[0], left).left);
    }
  }

  /** Repetition matches exactly when its child does, and goes on until the child takes nothing. */
  lemma {:induction false} RepeatExhausts(child: Pattern, left: seq<LeafPattern>,
                                          before: W.Option<seq<LeafPattern>>, times: nat)
    requires Proper(child) && (before == W.None || before == W.Some(left))
    ensures
      var r := Repeat(child, left, before, times);
      Match(child, r.1).left == r.1 && (r.0 > times <==> Match(child, left).matched)
    decreases |left|, if before == W.None then 1 else 0
  {
    hide Match;
    var o := Match(child, left);
    if before != W.Some(o.left) && o.matched {
      RepeatExhausts(child, o.left, W.Some(o.left), times + 1);
    }
  }

  lemma OneOrMoreExhausts(child: Pattern, left: seq<LeafPattern>)
    requires Proper(child)
    ensures
      var o := Match(Branch(OneOrMore, [child]), left);
      && (o.matched <==> Match(child, left).matched)
      && (o.matched ==> Match(child, o.left).left == o.left)
  {
    RepeatExhausts(child, left, W.None, 0);
  }

  /** Alternative k matches with outcome o; none that matches leaves fewer, no earlier one as few. */
  ghost predicate Picked(cs: seq<Pattern>, left: seq<LeafPattern>, o: Outcome, k: nat)
    requires ProperAll(cs)
  {
    && k < |cs| && o == Match(cs[k], left) && o.matched
    && (forall i :: 0 <= i < |cs| && Match(cs[i], left).matched ==> |o.left| <= |Match(cs[i], left).left|)
    && (forall i :: 0 <= i < k && Match(cs[i], left).matched ==> |o.left| < |Match(cs[i], left).left|)
  }

  lemma {:induction false} NoneMatches(cs: seq<Pattern>, left: seq<LeafPattern>)
    requires ProperAll(cs)
    ensures Outcomes(cs, left) == [] <==> forall k :: 0 <= k < |cs| ==> !Match(cs[k], left).matched
  {
    hide Match;
    if cs != [] {
      NoneMatches(cs[1..], left);
      assert forall k :: 1 <= k < |cs| ==> cs[k] == cs[1..][k - 1];
    }
  }

  lemma PickLater(cs: seq<Pattern>, left: seq<LeafPattern>, o: Outcome, k: nat)
    requires cs != [] && ProperAll(cs) && Picked(cs[1..], left, o, k)
    requires Match(cs[0], left).matched ==> |o.left| < |Match(cs[0], left).left|
    ensures Picked(cs, left, o, k + 1)
  {
    hide Match;
    assert forall i :: 1 <= i < |cs| ==> cs[i] == cs[1..][i - 1];
  }

  lemma PickFirst(cs: seq<Pattern>, left: seq<LeafPattern>, o: Outcome, k: nat)
    requires cs != [] && ProperAll(cs) && Picked(cs[1..], left, o, k)
    requires Match(cs[0], left).matched && |Match(cs[0], left).left| <= |o.left|
    ensures Picked(cs, left, Match(cs[0], left), 0)
  {
    hide Match;
    assert forall i :: 1 <= i < |cs| ==> cs[i] == cs[1..][i - 1];
  }

  lemma {:induction false} FewestPicked(cs: seq<Pattern>, left: seq<LeafPattern>) returns (k: nat)
    requires ProperAll(cs) && Outcomes(cs, left) != []
    ensures Picked(cs, left, Fewest(Outcomes(cs, left)), k)
  {
    hide Match, Picked;
    var head, later := Match(cs[0], left), Outcomes(cs[1..], left);
    assert Outcomes(cs, left) == if head.matched then [head] + later else later;
    hide Outcomes;
    if later == [] {
      assert [head] + later == [head];
      NoneMatches(cs[1..], left);
      OnlyFirst(cs, left);
      k := 0;
    } else {
      k := FewestPicked(cs[1..], left);
      var o := Fewest(later);
      if head.matched {
        assert ([head] + later)[1..] == later;
      }
      if head.matched && |head.left| <= |o.left| {
        PickFirst(cs, left, o, k);
        k := 0;
      } else {
        PickLater(cs, left, o, k);
        k := k + 1;
      }
    }
  }

  lemma OnlyFirst(cs: seq<Pattern>, left: seq<LeafPattern>)
    requires cs != [] && ProperAll(cs) && Match(cs[0], left).matched
    requires forall k :: 0 <= k < |cs[1..]| ==> !Match(cs[1..][k], left).matched
    ensures Picked(cs, left, Match(cs[0], left), 0)
  {
    hide Match;
    assert forall i :: 1 <= i < |cs| ==> cs[i] == cs[1..][i - 1];
  }

  /** A choice matches exactly when an alternative does; its result is that of an alternative
      that leaves fewest arguments, the earliest of those. */
  lemma EitherLeavesFewest(cs: seq<Pattern>, left: seq<LeafPattern>)
    requires ProperAll(cs)
    ensures
      var o := Match(Branch(Either, cs), left);
      && (o.matched <==> exists k :: 0 <= k < |cs| && Match(cs[k], left).matched)
      && (o.matched ==> exists k :: Picked(cs, left, o, k))
  {
    hide Outcomes, Fewest, Picked;
    NoneMatches(cs, left);
    if Outcomes(cs, left) != [] {
      var k := FewestPicked(cs, left);
    }
  }
}
