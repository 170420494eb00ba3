/** Which bags of arguments a usage pattern describes, apart from any order of matching; what the
    matcher and the expansion have to do with it. */
module DocoptLanguage {
  import opened Alternatives
  import opened Docopt
  import W = Wrappers
  import opened DocoptMatch

  type Bag = multiset<LeafPattern>

  ghost predicate Accepts(p: Pattern, bag: Bag)
    decreases p, 0, 0
  {
    match p
    case Leaf(l) => exists a :: Fits(l, a) && bag == multiset{a}
    case Branch(Required, cs) => AcceptsAll(cs, bag)
    case Branch(Either, cs) => exists k :: 0 <= k < |cs| && Accepts(cs[k], bag)
    case Branch(OneOrMore, cs) => exists n: nat :: n >= 1 && AcceptsTimes(cs, n, bag)
    case Branch(_, cs) => AcceptsSome(cs, bag)
  }

  /** Each of the children once. */
  ghost predicate AcceptsAll(cs: seq<Pattern>, bag: Bag)
    decreases cs, 0, 0
  {
    if cs == [] then bag == multiset{}
    else exists b :: Accepts(cs[0], b) && b <= bag && AcceptsAll(cs[1..], bag - b)
  }

  /** Each of the children at most once. */
  ghost predicate AcceptsSome(cs: seq<Pattern>, bag: Bag)
    decreases cs, 0, 0
  {
    if cs == [] then bag == multiset{}
    else AcceptsSome(cs[1..], bag) || exists b :: Accepts(cs[0], b) && b <= bag && AcceptsSome(cs[1..], bag - b)
  }

  /** All the children, n times over. */
  ghost predicate AcceptsTimes(cs: seq<Pattern>, n: nat, bag: Bag)
    decreases cs, 1, n
  {
    if n == 0 then bag == multiset{}
    else exists b :: AcceptsAll(cs, b) && b <= bag && AcceptsTimes(cs, n - 1, bag - b)
  }

  // ----- the matcher consumes only what the pattern describes

  function Taken(left: seq<LeafPattern>, rest: seq<LeafPattern>): Bag {
    multiset(left) - multiset(rest)
  }

  /** What is left was there before. */
  ghost predicate Keeps(left: seq<LeafPattern>, rest: seq<LeafPattern>) {
    multiset(rest) <= multiset(left)
  }

  lemma TakenInTurn(a: seq<LeafPattern>, b: seq<LeafPattern>, c: seq<LeafPattern>)
    requires Keeps(a, b) && Keeps(b, c)
    ensures Keeps(a, c) && Taken(a, b) <= Taken(a, c) && Taken(a, c) - Taken(a, b) == Taken(b, c)
  {
  }

  lemma TakenNothing(a: seq<LeafPattern>)
    ensures Keeps(a, a) && Taken(a, a) == multiset{}
  {
  }

  lemma TakenOne(left: seq<LeafPattern>, n: nat)
    requires n < |left|
    ensures Keeps(left, Removed(left, n)) && Taken(left, Removed(left, n)) == multiset{left[n]}
  {
    TakeOut(left, n);
  }

  lemma {:induction false} MatchSound(p: Pattern, left: seq<LeafPattern>)
    requires Proper(p)
    ensures
      var o := Match(p, left);
      Keeps(left, o.left) && (o.matched ==> Accepts(p, Taken(left, o.left)))
    decreases p, 0, 0, 0
  {
    hide Keeps, Taken;
    TakenNothing(left);
    match p
    case Leaf(l) =>
      var n := SingleMatch(l, left, 0);
      if n.Some? {
        TakenOne(left, n.value);
      }
    case Branch(Required, cs) => AllSound(cs, left);
    case Branch(OneOrMore, cs) =>
      var n := RepeatSound(cs, left, W.None, 0);
    case Branch(Either, cs) =>
      OutcomesSound(cs, left);
    case Branch(_, cs) => AnySound(cs, left);
  }

  lemma {:induction false} AllSound(cs: seq<Pattern>, left: seq<LeafPattern>)
    requires ProperAll(cs)
    ensures
      var o := MatchAll(cs, left);
      o.matched ==> Keeps(left, o.left) && AcceptsAll(cs, Taken(left, o.left))
    decreases cs, 0, 0, 0
  {
    hide Keeps, Taken, Match, Accepts;
    TakenNothing(left);
    if cs != [] {
      var o := Match(cs[0], left);
      MatchSound(cs[0], left);
      if o.matched {
        AllSound(cs[1..], o.left);
        var r := MatchAll(cs[1..], o.left);
        if r.matched {
          TakenInTurn(left, o.left, r.left);
        }
      }
    }
  }

  lemma {:induction false} AnySound(cs: seq<Pattern>, left: seq<LeafPattern>)
    requires ProperAll(cs)
    ensures
      var l := MatchAny(cs, left);
      Keeps(left, l) && AcceptsSome(cs, Taken(left, l))
    decreases cs, 0, 0, 0
  {
    hide Keeps, Taken, Match, Accepts;
    TakenNothing(left);
    if cs != [] {
      var o := Match(cs[0], left);
      MatchSound(cs[0], left);
      AnySound(cs[1..], o.left);
      if o.matched {
        TakenInTurn(left, o.left, MatchAny(cs[1..], o.left));
      }
    }
  }

  lemma {:induction false} OutcomesSound(cs: seq<Pattern>, left: seq<LeafPattern>)
    requires ProperAll(cs)
    ensures forall o :: o in Outcomes(cs, left) ==>
              Keeps(left, o.left) && Accepts(Branch(Either, cs), Taken(left, o.left))
    decreases cs, 0, 0, 0
  {
    hide Keeps, Taken, Match;
    if cs != [] {
      MatchSound(cs[0], left);
      OutcomesSound(cs[1..], left);
      forall bag | Accepts(Branch(Either, cs[1..]), bag)
        ensures Accepts(Branch(Either, cs), bag)
      {
        var k :| 0 <= k < |cs[1..]| && Accepts(cs[1..][k], bag);
        assert Accepts(cs[k + 1], bag);
      }
    }
  }

  lemma {:induction false} RepeatSound(cs: seq<Pattern>, left: seq<LeafPattern>,
                                       before: W.Option<seq<LeafPattern>>, times: nat)
    returns (n: nat)
    requires |cs| == 1 && Proper(cs[0]) && (before == W.None || before == W.Some(left))
    ensures
      var r := Repeat(cs[0], left, before, times);
      && Keeps(left, r.1) && n == r.0 - times && AcceptsTimes(cs, n, Taken(left, r.1))
    decreases cs, 1, |left|, if before == W.None then 1 else 0
  {
    hide Keeps, Taken, Match, Accepts;
    TakenNothing(left);
    var o := Match(cs[0], left);
    MatchSound(cs[0], left);
    n := 0;
    if o.matched {
      var r := Repeat(cs[0], left, before, times);
      Alone(cs, Taken(left, o.left));
      TakenNothing(o.left);
      if before != W.Some(o.left) {
        n := RepeatSound(cs, o.left, W.Some(o.left), times + 1);
        TakenInTurn(left, o.left, r.1);
      } else {
        TakenInTurn(left, o.left, o.left);
      }
      n := n + 1;
    }
  }

  lemma Alone(cs: seq<Pattern>, bag: Bag)
    requires |cs| == 1 && Accepts(cs[0], bag)
    ensures AcceptsAll(cs, bag)
  {
    assert bag - bag == multiset{} && cs[1..] == [];
  }

  // ----- the language of a collection of alternatives

  /** The arguments can be dealt out to the leaves, one each. */
  ghost predicate FitsAll(leaves: seq<LeafPattern>, bag: Bag) {
    if leaves == [] then bag == multiset{}
    else exists a :: Fits(leaves[0], a) && a in bag && FitsAll(leaves[1..], bag - multiset{a})
  }

  ghost predicate FitsBag(leaves: Bag, bag: Bag) {
    exists s: seq<LeafPattern> :: FitsAll(s, bag) && multiset(s) == leaves
  }

  ghost predicate Describes(alts: seq<Bag>, bag: Bag) {
    exists k :: 0 <= k < |alts| && FitsBag(alts[k], bag)
  }

  lemma FitsNone(bag: Bag)
    ensures FitsAll([], bag) <==> bag == multiset{}
  {
  }

  lemma FitsFirst(s: seq<LeafPattern>, bag: Bag) returns (a: LeafPattern, rest: Bag)
    requires s != [] && FitsAll(s, bag)
    ensures Fits(s[0], a) && bag == multiset{a} + rest && FitsAll(s[1..], rest)
  {
    a :| Fits(s[0], a) && a in bag && FitsAll(s[1..], bag - multiset{a});
    rest := bag - multiset{a};
  }

  lemma FitsOneMore(s: seq<LeafPattern>, a: LeafPattern, bag: Bag, rest: Bag)
    requires s != [] && Fits(s[0], a) && bag == multiset{a} + rest && FitsAll(s[1..], rest)
    ensures FitsAll(s, bag)
  {
    assert a in bag && bag - multiset{a} == rest;
  }

  lemma {:induction false} FitsAppend(s: seq<LeafPattern>, t: seq<LeafPattern>, b: Bag, c: Bag)
    requires FitsAll(s, b) && FitsAll(t, c)
    ensures FitsAll(s + t, b + c)
  {
    hide FitsAll, Fits;
    if s == [] {
      FitsNone(b);
      assert s + t == t && b + c == c;
    } else {
      var a, rest := FitsFirst(s, b);
      FitsAppend(s[1..], t, rest, c);
      assert (s + t)[1..] == s[1..] + t;
      FitsOneMore(s + t, a, b + c, rest + c);
    }
  }

  lemma {:induction false} FitsSplit(s: seq<LeafPattern>, t: seq<LeafPattern>, bag: Bag) returns (b: Bag, c: Bag)
    requires FitsAll(s + t, bag)
    ensures bag == b + c && FitsAll(s, b) && FitsAll(t, c)
  {
    hide FitsAll, Fits;
    if s == [] {
      b, c := multiset{}, bag;
      FitsNone(b);
      assert s + t == t;
    } else {
      var a, rest := FitsFirst(s + t, bag);
      assert (s + t)[1..] == s[1..] + t;
      b, c := FitsSplit(s[1..], t, rest);
      FitsOneMore(s, a, multiset{a} + b, b);
      b := multiset{a} + b;
    }
  }

  /** Any leaf may be served first. */
  lemma {:induction false} FitsPull(s: seq<LeafPattern>, i: nat, bag: Bag) returns (a: LeafPattern, rest: Bag)
    requires i < |s| && FitsAll(s, bag)
    ensures Fits(s[i], a) && bag == multiset{a} + rest && FitsAll(s[..i] + s[i + 1..], rest)
  {
    hide FitsAll, Fits;
    a, rest := FitsFirst(s, bag);
    if i == 0 {
      assert s[..0] + s[0 + 1..] == s[1..];
    } else {
      var x, t := a, s[..i] + s[i + 1..];
      assert t[1..] == s[1..][..i - 1] + s[1..][i..];
      a, rest := FitsPull(s[1..], i - 1, rest);
      FitsOneMore(t, x, multiset{x} + rest, rest);
      rest := multiset{x} + rest;
    }
  }

  lemma {:induction false} FitsInAnyOrder(s: seq<LeafPattern>, t: seq<LeafPattern>, bag: Bag)
    requires multiset(s) == multiset(t) && FitsAll(s, bag)
    ensures FitsAll(t, bag)
    decreases |t|
  {
    hide FitsAll, Fits;
    if t == [] {
      assert |s| == |multiset(s)| == |multiset(t)| == 0;
    } else {
      var i := FindHead(t, s);
      var a, rest := FitsPull(s, i, bag);
      FitsInAnyOrder(s[..i] + s[i + 1..], t[1..], rest);
      FitsOneMore(t, a, bag, rest);
    }
  }

  lemma {:induction false} Listed(b: Bag) returns (s: seq<LeafPattern>)
    ensures multiset(s) == b
    decreases |b|
  {
    if b == multiset{} {
      s := [];
    } else {
      var x :| x in b;
      s := Listed(b - multiset{x});
      s := [x] + s;
    }
  }

  lemma JoinedFits(x: Bag, y: Bag, b: Bag, c: Bag)
    requires FitsBag(x, b) && FitsBag(y, c)
    ensures FitsBag(x + y, b + c)
  {
    hide FitsAll;
    var s :| FitsAll(s, b) && multiset(s) == x;
    var t :| FitsAll(t, c) && multiset(t) == y;
    FitsAppend(s, t, b, c);
  }

  lemma JoinedSplits(x: Bag, y: Bag, bag: Bag) returns (b: Bag, c: Bag)
    requires FitsBag(x + y, bag)
    ensures bag == b + c && FitsBag(x, b) && FitsBag(y, c)
  {
    hide FitsAll;
    var u :| FitsAll(u, bag) && multiset(u) == x + y;
    var s := Listed(x);
    var t := Listed(y);
    FitsInAnyOrder(u, s + t, bag);
    b, c := FitsSplit(s, t, bag);
  }

  // ----- products and unions of alternatives

  lemma {:induction false} ShiftAt(a: Bag, xs: seq<Bag>, k: nat)
    requires k < |xs|
    ensures Shift(a, xs)[k] == a + xs[k]
  {
    if k > 0 {
      ShiftAt(a, xs[1..], k - 1);
    }
  }

  lemma DescribesEither(xs: seq<Bag>, ys: seq<Bag>, bag: Bag)
    ensures Describes(xs + ys, bag) <==> Describes(xs, bag) || Describes(ys, bag)
  {
    hide FitsBag;
    if Describes(xs, bag) {
      var k :| 0 <= k < |xs| && FitsBag(xs[k], bag);
      assert (xs + ys)[k] == xs[k];
    }
    if Describes(ys, bag) {
      var k :| 0 <= k < |ys| && FitsBag(ys[k], bag);
      assert (xs + ys)[|xs| + k] == ys[k];
    }
  }

  lemma {:induction false} ProductDescribes(xs: seq<Bag>, ys: seq<Bag>, b: Bag, c: Bag)
    requires Describes(xs, b) && Describes(ys, c)
    ensures Describes(Product(xs, ys), b + c)
    decreases |xs|
  {
    hide FitsBag;
    var i :| 0 <= i < |xs| && FitsBag(xs[i], b);
    var k :| 0 <= k < |ys| && FitsBag(ys[k], c);
    DescribesEither(Shift(xs[0], ys), Product(xs[1..], ys), b + c);
    if i == 0 {
      JoinedFits(xs[0], ys[k], b, c);
      ShiftAt(xs[0], ys, k);
      assert Describes(Shift(xs[0], ys), b + c);
    } else {
      assert FitsBag(xs[1..][i - 1], b);
      ProductDescribes(xs[1..], ys, b, c);
    }
  }

  lemma {:induction false} ProductSplits(xs: seq<Bag>, ys: seq<Bag>, bag: Bag) returns (b: Bag, c: Bag)
    requires Describes(Product(xs, ys), bag)
    ensures bag == b + c && Describes(xs, b) && Describes(ys, c)
    decreases |xs|
  {
    hide FitsBag;
    DescribesEither(Shift(xs[0], ys), Product(xs[1..], ys), bag);
    if Describes(Shift(xs[0], ys), bag) {
      var k :| 0 <= k < |ys| && FitsBag(Shift(xs[0], ys)[k], bag);
      ShiftAt(xs[0], ys, k);
      b, c := JoinedSplits(xs[0], ys[k], bag);
    } else {
      b, c := ProductSplits(xs[1..], ys, bag);
      var i :| 0 <= i < |xs[1..]| && FitsBag(xs[1..][i], b);
      assert xs[i + 1] == xs[1..][i];
    }
  }

  lemma DescribesSame(xs: seq<Bag>, ys: seq<Bag>, bag: Bag)
    requires Same(xs, ys)
    ensures Describes(xs, bag) ==> Describes(ys, bag)
  {
    hide FitsBag;
    if Describes(xs, bag) {
      var k :| 0 <= k < |xs| && FitsBag(xs[k], bag);
      assert xs[k] in multiset(xs);
      var i :| 0 <= i < |ys| && ys[i] == xs[k];
    }
  }

  // ----- the expansion against the pattern it came from

  lemma FitsBagOne(l: LeafPattern, bag: Bag)
    ensures FitsBag(multiset{l}, bag) <==> exists a :: Fits(l, a) && bag == multiset{a}
  {
    hide Fits;
    if FitsBag(multiset{l}, bag) {
      var s :| FitsAll(s, bag) && multiset(s) == multiset{l};
      assert |s| == |multiset(s)| == 1 && s[0] in multiset(s);
      var a, rest := FitsFirst(s, bag);
      assert s[1..] == [];
      FitsNone(rest);
    }
    if exists a :: Fits(l, a) && bag == multiset{a} {
      var a :| Fits(l, a) && bag == multiset{a};
      FitsNone(multiset{});
      assert [l][1..] == [];
      FitsOneMore([l], a, bag, multiset{});
      assert multiset([l]) == multiset{l};
    }
  }

  lemma FitsBagNone(bag: Bag)
    ensures FitsBag(multiset{}, bag) <==> bag == multiset{}
  {
    FitsNone(bag);
    if FitsBag(multiset{}, bag) {
      var s :| FitsAll(s, bag) && multiset(s) == multiset{};
      assert |s| == |multiset(s)| == 0;
    }
    if bag == multiset{} {
      var s: seq<LeafPattern> := [];
      assert FitsAll(s, bag) && multiset(s) == multiset{};
    }
  }

  lemma DescribesOne(a: Bag, bag: Bag)
    ensures Describes([a], bag) <==> FitsBag(a, bag)
  {
    assert [a][0] == a;
  }

  lemma AcceptsNext(cs: seq<Pattern>, b: Bag, c: Bag)
    requires cs != [] && Accepts(cs[0], b)
    ensures AcceptsAll(cs[1..], c) ==> AcceptsAll(cs, b + c)
    ensures AcceptsSome(cs[1..], c) ==> AcceptsSome(cs, b + c)
  {
    hide Accepts;
    assert b <= b + c && b + c - b == c;
  }

  lemma {:induction false} AllIsSome(cs: seq<Pattern>, bag: Bag)
    requires AcceptsAll(cs, bag)
    ensures AcceptsSome(cs, bag)
    decreases |cs|
  {
    hide Accepts;
    if cs != [] {
      var b :| Accepts(cs[0], b) && b <= bag && AcceptsAll(cs[1..], bag - b);
      AllIsSome(cs[1..], bag - b);
    }
  }

  lemma TwiceIsTimes(cs: seq<Pattern>, b: Bag, c: Bag)
    requires AcceptsAll(cs, b) && AcceptsAll(cs, c)
    ensures AcceptsTimes(cs, 2, b + c)
  {
    hide AcceptsAll;
    assert c - c == multiset{} && AcceptsTimes(cs, 0, c - c);
    assert AcceptsTimes(cs, 1, c);
    assert b + c - b == c;
  }

  /** Whatever the expansion describes, the pattern describes. */
  lemma {:induction false} ExpansionAccepted(p: Pattern, bag: Bag)
    requires Describes(Alts(p), bag)
    ensures Accepts(p, bag)
    decreases p, 0
  {
    hide Describes, FitsBag;
    match p
    case Leaf(l) =>
      DescribesOne(multiset{l}, bag);
      FitsBagOne(l, bag);
    case Branch(Required, cs) => AllExpansionAccepted(cs, bag);
    case Branch(Either, cs) => var k := AnyExpansionAccepted(cs, bag);
    case Branch(OneOrMore, cs) =>
      var b, c := ProductSplits(AltsAll(cs), AltsAll(cs), bag);
      AllExpansionAccepted(cs, b);
      AllExpansionAccepted(cs, c);
      TwiceIsTimes(cs, b, c);
    case Branch(_, cs) =>
      AllExpansionAccepted(cs, bag);
      AllIsSome(cs, bag);
  }

  lemma {:induction false} AllExpansionAccepted(cs: seq<Pattern>, bag: Bag)
    requires Describes(AltsAll(cs), bag)
    ensures AcceptsAll(cs, bag)
    decreases cs, 0
  {
    hide Describes, FitsBag, Accepts;
    if cs == [] {
      DescribesOne(multiset{}, bag);
      FitsBagNone(bag);
    } else {
      var b, c := ProductSplits(Alts(cs[0]), AltsAll(cs[1..]), bag);
      ExpansionAccepted(cs[0], b);
      AllExpansionAccepted(cs[1..], c);
      AcceptsNext(cs, b, c);
    }
  }

  lemma {:induction false} AnyExpansionAccepted(cs: seq<Pattern>, bag: Bag) returns (k: nat)
    requires Describes(AltsAny(cs), bag)
    ensures k < |cs| && Accepts(cs[k], bag)
    decreases cs, 0
  {
    hide FitsBag, Accepts, Alts;
    DescribesEither(Alts(cs[0]), AltsAny(cs[1..]), bag);
    if Describes(Alts(cs[0]), bag) {
      ExpansionAccepted(cs[0], bag);
      k := 0;
    } else {
      k := AnyExpansionAccepted(cs[1..], bag);
      k := k + 1;
    }
  }

  /** Neither optional nor repeated parts. */
  predicate Plain(p: Pattern)
    decreases p
  {
    p.Branch? ==> p.kind in {Required, Either} && forall k :: 0 <= k < |p.children| ==> Plain(p.children[k])
  }

  /** For such patterns the converse holds too. */
  lemma {:induction false} PlainExpanded(p: Pattern, bag: Bag)
    requires Plain(p) && Accepts(p, bag)
    ensures Describes(Alts(p), bag)
    decreases p, 0
  {
    hide Describes, FitsBag;
    match p
    case Leaf(l) =>
      FitsBagOne(l, bag);
      DescribesOne(multiset{l}, bag);
    case Branch(Required, cs) => AllExpanded(cs, bag);
    case Branch(Either, cs) =>
      var k :| 0 <= k < |cs| && Accepts(cs[k], bag);
      AnyExpanded(cs, k, bag);
  }

  lemma {:induction false} AllExpanded(cs: seq<Pattern>, bag: Bag)
    requires (forall k :: 0 <= k < |cs| ==> Plain(cs[k])) && AcceptsAll(cs, bag)
    ensures Describes(AltsAll(cs), bag)
    decreases cs, 0
  {
    hide Describes, FitsBag, Accepts;
    if cs == [] {
      FitsBagNone(bag);
      DescribesOne(multiset{}, bag);
    } else {
      var b :| Accepts(cs[0], b) && b <= bag && AcceptsAll(cs[1..], bag - b);
      PlainExpanded(cs[0], b);
      AllExpanded(cs[1..], bag - b);
      ProductDescribes(Alts(cs[0]), AltsAll(cs[1..]), b, bag - b);
      assert b + (bag - b) == bag;
    }
  }

  lemma {:induction false} AnyExpanded(cs: seq<Pattern>, k: nat, bag: Bag)
    requires k < |cs| && Plain(cs[k]) && Accepts(cs[k], bag)
    ensures Describes(AltsAny(cs), bag)
    decreases cs, 0
  {
    hide FitsBag, Accepts, Alts;
    DescribesEither(Alts(cs[0]), AltsAny(cs[1..]), bag);
    if k == 0 {
      PlainExpanded(cs[0], bag);
    } else {
      AnyExpanded(cs[1..], k - 1, bag);
    }
  }

  /** What `transform` does to the meaning of a pattern: nothing is added, and nothing is lost
      unless parts are optional or repeated. What exactly is lost is the subject of DocoptLoss. */
  lemma TransformMeaning(p: Pattern, r: Pattern, bag: Bag)
    requires SingleEither(r) && Same(Alts(r), Alts(p))
    ensures Accepts(r, bag) ==> Accepts(p, bag)
    ensures Plain(p) ==> (Accepts(r, bag) <==> Accepts(p, bag))
  {
    hide Accepts, Describes, Alts;
    assert Plain(r) by {
      forall k | 0 <= k < |r.children|
        ensures Plain(r.children[k])
      {
        assert r.children[k] in r.children;
        var cs := r.children[k].children;
        assert forall i :: 0 <= i < |cs| ==> cs[i] in cs;
      }
    }
    if Accepts(r, bag) {
      PlainExpanded(r, bag);
      DescribesSame(Alts(r), Alts(p), bag);
      ExpansionAccepted(p, bag);
    }
    if Plain(p) && Accepts(p, bag) {
      PlainExpanded(p, bag);
      DescribesSame(Alts(p), Alts(r), bag);
      ExpansionAccepted(r, bag);
    }
  }
}
