/** What the meaning of a pattern loses when it is expanded: exactly which language the expansion
    has, and when that is the pattern's own. */
module DocoptLoss {
  import opened Alternatives
  import opened Docopt
  import opened DocoptMatch
  import opened DocoptLanguage
  import W = Wrappers

  // ----- the language of the expansion

  /** Optional parts required, repeated parts required twice. */
  function Strict(p: Pattern): Pattern
    decreases p
  {
    match p
    case Leaf(_) => p
    case Branch(Either, cs) => Branch(Either, StrictAll(cs))
    case Branch(OneOrMore, cs) => Branch(Required, StrictAll(cs) + StrictAll(cs))
    case Branch(_, cs) => Branch(Required, StrictAll(cs))
  }

  function StrictAll(cs: seq<Pattern>): (r: seq<Pattern>)
    ensures |r| == |cs|
    decreases cs
  {
    if cs == [] then [] else [Strict(cs[0])] + StrictAll(cs[1..])
  }

  predicate PlainAll(cs: seq<Pattern>) {
    forall k :: 0 <= k < |cs| ==> Plain(cs[k])
  }

  lemma {:induction false} StrictAlts(p: Pattern)
    ensures Plain(Strict(p)) && Alts(Strict(p)) == Alts(p)
    decreases p
  {
    match p
    case Leaf(_) =>
    case Branch(kind, cs) =>
      StrictAllAlts(cs);
      var ss := StrictAll(cs);
      AltsAppend(ss, ss);
      assert PlainAll(ss + ss);
  }

  lemma {:induction false} StrictAllAlts(cs: seq<Pattern>)
    ensures PlainAll(StrictAll(cs)) && AltsAll(StrictAll(cs)) == AltsAll(cs) && AltsAny(StrictAll(cs)) == AltsAny(cs)
    decreases cs
  {
    if cs != [] {
      StrictAlts(cs[0]);
      StrictAllAlts(cs[1..]);
      assert StrictAll(cs)[1..] == StrictAll(cs[1..]);
    }
  }

  /** For every pattern, what `transform` yields accepts exactly what the strict pattern does. */
  lemma TransformStrict(p: Pattern, r: Pattern, bag: Bag)
    requires SingleEither(r) && Same(Alts(r), Alts(p))
    ensures Accepts(r, bag) <==> Accepts(Strict(p), bag)
    ensures Accepts(r, bag) <==> Describes(Alts(p), bag)
  {
    StrictAlts(p);
    hide Accepts, Alts, Describes, Plain, SingleEither;
    TransformMeaning(Strict(p), r, bag);
    if Accepts(Strict(p), bag) {
      PlainExpanded(Strict(p), bag);
    }
    if Describes(Alts(p), bag) {
      ExpansionAccepted(Strict(p), bag);
    }
  }

  // ----- the alternatives a pattern really has, repeated parts up to n times

  /** Up to n joined alternatives, at least one. */
  function Repeats(xs: seq<Bag>, n: nat): seq<Bag> {
    if n == 0 then [] else xs + Product(xs, Repeats(xs, n - 1))
  }

  function Lenient(p: Pattern, n: nat): seq<Bag>
    decreases p
  {
    match p
    case Leaf(l) => [multiset{l}]
    case Branch(Required, cs) => LenientAll(cs, n)
    case Branch(Either, cs) => LenientAny(cs, n)
    case Branch(OneOrMore, cs) => Repeats(LenientAll(cs, n), n)
    case Branch(_, cs) => LenientSome(cs, n)
  }

  function LenientAll(cs: seq<Pattern>, n: nat): seq<Bag>
    decreases cs
  {
    if cs == [] then [multiset{}] else Product(Lenient(cs[0], n), LenientAll(cs[1..], n))
  }

  function LenientAny(cs: seq<Pattern>, n: nat): seq<Bag>
    decreases cs
  {
    if cs == [] then [] else Lenient(cs[0], n) + LenientAny(cs[1..], n)
  }

  /** Each part given or not. */
  function LenientSome(cs: seq<Pattern>, n: nat): seq<Bag>
    decreases cs
  {
    if cs == [] then [multiset{}] else Product([multiset{}] + Lenient(cs[0], n), LenientSome(cs[1..], n))
  }

  // ----- they describe nothing but what the pattern accepts

  lemma DescribesNone(bag: Bag)
    ensures Describes([multiset{}], bag) <==> bag == multiset{}
  {
    DescribesOne(multiset{}, bag);
    FitsBagNone(bag);
  }

  lemma SkipOrTake(xs: seq<Bag>, bag: Bag)
    ensures Describes([multiset{}] + xs, bag) <==> bag == multiset{} || Describes(xs, bag)
  {
    DescribesEither([multiset{}], xs, bag);
    DescribesNone(bag);
  }

  lemma TimesNext(cs: seq<Pattern>, n: nat, b: Bag, c: Bag)
    requires AcceptsAll(cs, b) && AcceptsTimes(cs, n, c)
    ensures AcceptsTimes(cs, n + 1, b + c)
  {
    hide AcceptsAll;
    assert b <= b + c && b + c - b == c;
  }

  lemma TimesOnce(cs: seq<Pattern>, bag: Bag)
    requires AcceptsAll(cs, bag)
    ensures AcceptsTimes(cs, 1, bag)
  {
    hide AcceptsAll;
    TimesNext(cs, 0, bag, multiset{});
    assert bag + multiset{} == bag;
  }

  lemma {:induction false} LenientAccepted(p: Pattern, n: nat, bag: Bag)
    requires Describes(Lenient(p, n), bag)
    ensures Accepts(p, bag)
    decreases p, 0, 0
  {
    hide Describes, FitsBag;
    match p
    case Leaf(l) =>
      DescribesOne(multiset{l}, bag);
      FitsBagOne(l, bag);
    case Branch(Required, cs) => LenientAllAccepted(cs, n, bag);
    case Branch(Either, cs) => var k := LenientAnyAccepted(cs, n, bag);
    case Branch(OneOrMore, cs) => var k := RepeatsAccepted(cs, n, n, bag);
    case Branch(_, cs) => LenientSomeAccepted(cs, n, bag);
  }

  lemma {:induction false} LenientAllAccepted(cs: seq<Pattern>, n: nat, bag: Bag)
    requires Describes(LenientAll(cs, n), bag)
    ensures AcceptsAll(cs, bag)
    decreases cs, 0, 0
  {
    hide Describes, Accepts, Lenient;
    if cs == [] {
      DescribesNone(bag);
    } else {
      var b, c := ProductSplits(Lenient(cs[0], n), LenientAll(cs[1..], n), bag);
      LenientAccepted(cs[0], n, b);
      LenientAllAccepted(cs[1..], n, c);
      AcceptsNext(cs, b, c);
    }
  }

  lemma {:induction false} LenientAnyAccepted(cs: seq<Pattern>, n: nat, bag: Bag) returns (k: nat)
    requires Describes(LenientAny(cs, n), bag)
    ensures k < |cs| && Accepts(cs[k], bag)
    decreases cs, 0, 0
  {
    hide FitsBag, Accepts, Lenient;
    DescribesEither(Lenient(cs[0], n), LenientAny(cs[1..], n), bag);
    if Describes(Lenient(cs[0], n), bag) {
      LenientAccepted(cs[0], n, bag);
      k := 0;
    } else {
      k := LenientAnyAccepted(cs[1..], n, bag);
      k := k + 1;
    }
  }

  lemma {:induction false} LenientSomeAccepted(cs: seq<Pattern>, n: nat, bag: Bag)
    requires Describes(LenientSome(cs, n), bag)
    ensures AcceptsSome(cs, bag)
    decreases cs, 0, 0
  {
    hide Describes, Accepts, Lenient;
    if cs == [] {
      DescribesNone(bag);
    } else {
      var b, c := ProductSplits([multiset{}] + Lenient(cs[0], n), LenientSome(cs[1..], n), bag);
      SkipOrTake(Lenient(cs[0], n), b);
      LenientSomeAccepted(cs[1..], n, c);
      if Describes(Lenient(cs[0], n), b) {
        LenientAccepted(cs[0], n, b);
        AcceptsNext(cs, b, c);
      } else {
        assert b + c == c;
      }
    }
  }

  lemma {:induction false} RepeatsAccepted(cs: seq<Pattern>, n: nat, k: nat, bag: Bag) returns (m: nat)
    requires Describes(Repeats(LenientAll(cs, n), k), bag)
    ensures m >= 1 && AcceptsTimes(cs, m, bag)
    decreases cs, 1, k
  {
    hide FitsBag, AcceptsAll, LenientAll, AcceptsTimes, Product;
    var xs := LenientAll(cs, n);
    DescribesEither(xs, Product(xs, Repeats(xs, k - 1)), bag);
    hide Describes, Repeats;
    if Describes(xs, bag) {
      LenientAllAccepted(cs, n, bag);
      TimesOnce(cs, bag);
      m := 1;
    } else {
      var b, c := ProductSplits(xs, Repeats(xs, k - 1), bag);
      LenientAllAccepted(cs, n, b);
      m := RepeatsAccepted(cs, n, k - 1, c);
      TimesNext(cs, m, b, c);
      m := m + 1;
    }
  }

  // ----- and, up to the size n, all of that

  lemma {:induction false} FitsSize(s: seq<LeafPattern>, bag: Bag)
    requires FitsAll(s, bag)
    ensures |bag| == |s|
  {
    if s != [] {
      var a, rest := FitsFirst(s, bag);
      FitsSize(s[1..], rest);
    }
  }

  lemma FitsBagSize(a: Bag, bag: Bag)
    requires FitsBag(a, bag)
    ensures |bag| == |a|
  {
    var s :| FitsAll(s, bag) && multiset(s) == a;
    FitsSize(s, bag);
  }

  /** Some bag of at least n arguments is described. */
  ghost predicate Large(xs: seq<Bag>, n: nat) {
    exists bag: Bag :: Describes(xs, bag) && |bag| >= n
  }

  ghost predicate Reached(xs: seq<Bag>, bag: Bag, n: nat) {
    Describes(xs, bag) || Large(xs, n)
  }

  lemma ProductLarge(xs: seq<Bag>, ys: seq<Bag>, b: Bag, c: Bag, n: nat)
    requires Describes(xs, b) && Describes(ys, c) && |b| + |c| >= n
    ensures Large(Product(xs, ys), n)
  {
    hide Describes;
    ProductDescribes(xs, ys, b, c);
    assert |b + c| == |b| + |c|;
  }

  lemma ProductReached(xs: seq<Bag>, ys: seq<Bag>, b: Bag, c: Bag, n: nat)
    requires Reached(xs, b, n) && Reached(ys, c, n)
    ensures Reached(Product(xs, ys), b + c, n)
  {
    hide Describes, Product;
    if Describes(xs, b) && Describes(ys, c) {
      ProductDescribes(xs, ys, b, c);
    } else {
      var b': Bag :| Describes(xs, b') && (b' == b || |b'| >= n);
      var c': Bag :| Describes(ys, c') && (c' == c || |c'| >= n);
      ProductLarge(xs, ys, b', c', n);
    }
  }

  lemma UnionReached(xs: seq<Bag>, ys: seq<Bag>, bag: Bag, n: nat)
    requires Reached(xs, bag, n) || Reached(ys, bag, n)
    ensures Reached(xs + ys, bag, n)
  {
    hide Describes;
    DescribesEither(xs, ys, bag);
    if Large(xs, n) {
      var b: Bag :| Describes(xs, b) && |b| >= n;
      DescribesEither(xs, ys, b);
    } else if Large(ys, n) {
      var b: Bag :| Describes(ys, b) && |b| >= n;
      DescribesEither(xs, ys, b);
    }
  }

  lemma {:induction false} LenientReached(p: Pattern, n: nat, bag: Bag)
    requires n >= 1 && Accepts(p, bag)
    ensures Reached(Lenient(p, n), bag, n)
    decreases p, 0, 0
  {
    hide Describes, FitsBag, Reached;
    match p
    case Leaf(l) =>
      FitsBagOne(l, bag);
      DescribesOne(multiset{l}, bag);
      assert Reached(Lenient(p, n), bag, n) by { ReachedAt(Lenient(p, n), bag, n); }
    case Branch(Required, cs) => LenientAllReached(cs, n, bag);
    case Branch(Either, cs) =>
      var k :| 0 <= k < |cs| && Accepts(cs[k], bag);
      LenientAnyReached(cs, k, n, bag);
    case Branch(OneOrMore, cs) =>
      var m: nat :| m >= 1 && AcceptsTimes(cs, m, bag);
      TimesReached(cs, m, n, n, bag);
      LargeReached(Lenient(p, n), bag, n);
    case Branch(_, cs) => LenientSomeReached(cs, n, bag);
  }

  lemma LargeReached(xs: seq<Bag>, bag: Bag, n: nat)
    requires Describes(xs, bag) || Large(xs, n)
    ensures Reached(xs, bag, n)
  {
    hide Describes, Large;
  }

  lemma ReachedAt(xs: seq<Bag>, bag: Bag, n: nat)
    requires Describes(xs, bag)
    ensures Reached(xs, bag, n)
  {
  }

  lemma {:induction false} LenientAllReached(cs: seq<Pattern>, n: nat, bag: Bag)
    requires n >= 1 && AcceptsAll(cs, bag)
    ensures Reached(LenientAll(cs, n), bag, n)
    decreases cs, 0, 0
  {
    hide Describes, Accepts, Lenient, Reached;
    if cs == [] {
      DescribesNone(bag);
      ReachedAt([multiset{}], bag, n);
    } else {
      var b :| Accepts(cs[0], b) && b <= bag && AcceptsAll(cs[1..], bag - b);
      LenientReached(cs[0], n, b);
      LenientAllReached(cs[1..], n, bag - b);
      ProductReached(Lenient(cs[0], n), LenientAll(cs[1..], n), b, bag - b, n);
      assert b + (bag - b) == bag;
    }
  }

  lemma {:induction false} LenientAnyReached(cs: seq<Pattern>, k: nat, n: nat, bag: Bag)
    requires n >= 1 && k < |cs| && Accepts(cs[k], bag)
    ensures Reached(LenientAny(cs, n), bag, n)
    decreases cs, 0, 0
  {
    hide Accepts, Lenient, Reached;
    if k == 0 {
      LenientReached(cs[0], n, bag);
    } else {
      LenientAnyReached(cs[1..], k - 1, n, bag);
    }
    UnionReached(Lenient(cs[0], n), LenientAny(cs[1..], n), bag, n);
  }

  lemma {:induction false} LenientSomeReached(cs: seq<Pattern>, n: nat, bag: Bag)
    requires n >= 1 && AcceptsSome(cs, bag)
    ensures Reached(LenientSome(cs, n), bag, n)
    decreases cs, 0, 0
  {
    hide Describes, Accepts, Lenient, Reached;
    if cs == [] {
      DescribesNone(bag);
      ReachedAt([multiset{}], bag, n);
    } else {
      var xs, ys := [multiset{}] + Lenient(cs[0], n), LenientSome(cs[1..], n);
      var b: Bag;
      if AcceptsSome(cs[1..], bag) {
        b := multiset{};
        SkipOrTake(Lenient(cs[0], n), b);
        ReachedAt(xs, b, n);
        assert bag - b == bag;
      } else {
        b :| Accepts(cs[0], b) && b <= bag && AcceptsSome(cs[1..], bag - b);
        LenientReached(cs[0], n, b);
        UnionReached([multiset{}], Lenient(cs[0], n), b, n);
      }
      LenientSomeReached(cs[1..], n, bag - b);
      ProductReached(xs, ys, b, bag - b, n);
      assert b + (bag - b) == bag;
    }
  }

  lemma RepeatsHas(xs: seq<Bag>, k: nat, bag: Bag)
    requires k >= 1 && (Describes(xs, bag) || Describes(Product(xs, Repeats(xs, k - 1)), bag))
    ensures Describes(Repeats(xs, k), bag)
  {
    hide Describes, Product;
    DescribesEither(xs, Product(xs, Repeats(xs, k - 1)), bag);
  }

  lemma RepeatsLarge(xs: seq<Bag>, k: nat, n: nat)
    requires k >= 1 && (Large(xs, n) || Large(Product(xs, Repeats(xs, k - 1)), n))
    ensures Large(Repeats(xs, k), n)
  {
    hide Describes, Product, Repeats;
    if Large(xs, n) {
      var b: Bag :| Describes(xs, b) && |b| >= n;
      RepeatsHas(xs, k, b);
    } else {
      var b: Bag :| Describes(Product(xs, Repeats(xs, k - 1)), b) && |b| >= n;
      RepeatsHas(xs, k, b);
    }
  }

  /** One more repetition, which takes something, in front of what fewer repetitions reach. */
  lemma OneMoreTime(xs: seq<Bag>, k: nat, b: Bag, c: Bag)
    requires k >= 2 && Describes(xs, b) && b != multiset{}
    requires Describes(Repeats(xs, k - 1), c) || Large(Repeats(xs, k - 1), k - 1)
    ensures Describes(Repeats(xs, k), b + c) || Large(Repeats(xs, k), k)
  {
    hide Describes, Product, Repeats;
    var rs := Repeats(xs, k - 1);
    if Describes(rs, c) {
      ProductDescribes(xs, rs, b, c);
      RepeatsHas(xs, k, b + c);
    } else {
      var c': Bag :| Describes(rs, c') && |c'| >= k - 1;
      assert |b| >= 1;
      ProductLarge(xs, rs, b, c', k);
      RepeatsLarge(xs, k, k);
    }
  }

  lemma TimesFirst(cs: seq<Pattern>, m: nat, bag: Bag) returns (b: Bag, c: Bag)
    requires m >= 1 && AcceptsTimes(cs, m, bag)
    ensures bag == b + c && AcceptsAll(cs, b) && AcceptsTimes(cs, m - 1, c) && (m == 1 ==> c == multiset{})
  {
    hide AcceptsAll;
    b :| AcceptsAll(cs, b) && b <= bag && AcceptsTimes(cs, m - 1, bag - b);
    c := bag - b;
  }

  lemma LargeLess(xs: seq<Bag>, k: nat, n: nat)
    requires Large(xs, n) && k <= n
    ensures Large(xs, k)
  {
    hide Describes;
  }

  lemma LargeAt(xs: seq<Bag>, b: Bag)
    requires Describes(xs, b) && b != multiset{}
    ensures Large(xs, 1)
  {
    hide Describes;
    assert |b| >= 1;
  }

  /** Repetitions that take nothing may be dropped; k that take something take at least k. */
  lemma {:induction false} TimesReached(cs: seq<Pattern>, m: nat, n: nat, k: nat, bag: Bag)
    requires m >= 1 && AcceptsTimes(cs, m, bag) && 1 <= k <= n
    ensures
      var rs := Repeats(LenientAll(cs, n), k);
      Describes(rs, bag) || Large(rs, k)
    decreases cs, 1, m
  {
    hide Describes, AcceptsAll, AcceptsTimes, LenientAll, Product, Repeats, Large;
    var b, c := TimesFirst(cs, m, bag);
    var xs := LenientAll(cs, n);
    LenientAllReached(cs, n, b);
    if !Describes(xs, b) {
      LargeLess(xs, k, n);
      RepeatsLarge(xs, k, k);
    } else if m == 1 {
      assert bag == b;
      RepeatsHas(xs, k, bag);
    } else if b == multiset{} {
      assert bag == c;
      TimesReached(cs, m - 1, n, k, bag);
    } else if k == 1 {
      LargeAt(xs, b);
      RepeatsLarge(xs, 1, 1);
    } else {
      TimesReached(cs, m - 1, n, k - 1, c);
      OneMoreTime(xs, k, b, c);
    }
  }

  // ----- the condition

  /** Every argument that fits l fits m too; l fits some argument. */
  predicate Under(l: LeafPattern, m: LeafPattern) {
    match l
    case Argument(_, _) => m.Argument?
    case Command(name) => name.Some? && (m.Argument? || (m.Command? && m.name == name))
    case Option(_, _) => m.Option? && Name(l) == Name(m)
  }

  /** The leaves of one alternative can be put under those of another, one each. */
  ghost predicate CoversAll(leaves: seq<LeafPattern>, bag: Bag) {
    if leaves == [] then bag == multiset{}
    else exists l :: Under(l, leaves[0]) && l in bag && CoversAll(leaves[1..], bag - multiset{l})
  }

  ghost predicate Covers(b: Bag, a: Bag) {
    exists s: seq<LeafPattern> :: CoversAll(s, a) && multiset(s) == b
  }

  /** No leaf is a command without a name, which fits nothing. */
  predicate Possible(a: Bag) {
    forall l :: l in a ==> !(l.Command? && l.name.None?)
  }

  /** The size of the largest alternative. */
  function Largest(xs: seq<Bag>): (n: nat)
    ensures forall k :: 0 <= k < |xs| ==> |xs[k]| <= n
  {
    if xs == [] then 0
    else var n := Largest(xs[1..]); if n < |xs[0]| then |xs[0]| else n
  }

  /** Every way to give or leave out optional parts and to repeat repeated ones, up to one more than
      the largest alternative of the expansion, is covered by an alternative of the expansion. */
  ghost predicate LosesNothing(p: Pattern) {
    var xs := Lenient(p, Largest(Alts(p)) + 1);
    forall k :: 0 <= k < |xs| && Possible(xs[k]) ==> Covered(Alts(p), xs[k])
  }

  ghost predicate Covered(xs: seq<Bag>, a: Bag) {
    exists k :: 0 <= k < |xs| && Covers(xs[k], a)
  }

  // ----- covering is inclusion

  lemma UnderFits(l: LeafPattern, m: LeafPattern, arg: LeafPattern)
    requires Under(l, m) && Fits(l, arg)
    ensures Fits(m, arg)
  {
  }

  lemma CoversFirst(s: seq<LeafPattern>, a: Bag) returns (l: LeafPattern, rest: Bag)
    requires s != [] && CoversAll(s, a)
    ensures Under(l, s[0]) && a == multiset{l} + rest && CoversAll(s[1..], rest)
  {
    l :| Under(l, s[0]) && l in a && CoversAll(s[1..], a - multiset{l});
    rest := a - multiset{l};
  }

  lemma CoversOneMore(s: seq<LeafPattern>, l: LeafPattern, a: Bag, rest: Bag)
    requires s != [] && Under(l, s[0]) && a == multiset{l} + rest && CoversAll(s[1..], rest)
    ensures CoversAll(s, a)
  {
    assert l in a && a - multiset{l} == rest;
  }

  lemma {:induction false} CoveringFits(s: seq<LeafPattern>, a: Bag, bag: Bag)
    requires CoversAll(s, a) && FitsBag(a, bag)
    ensures FitsAll(s, bag)
  {
    hide FitsAll, Fits, Under;
    if s == [] {
      FitsBagNone(bag);
      FitsNone(bag);
    } else {
      var l, rest := CoversFirst(s, a);
      hide CoversAll;
      var b, c := JoinedSplits(multiset{l}, rest, bag);
      FitsBagOne(l, b);
      var arg :| Fits(l, arg) && b == multiset{arg};
      UnderFits(l, s[0], arg);
      CoveringFits(s[1..], rest, c);
      FitsOneMore(s, arg, bag, c);
    }
  }

  lemma CoveredDescribes(xs: seq<Bag>, a: Bag, bag: Bag)
    requires Covered(xs, a) && FitsBag(a, bag)
    ensures Describes(xs, bag)
  {
    hide FitsAll, CoversAll;
    var k :| 0 <= k < |xs| && Covers(xs[k], a);
    var s :| CoversAll(s, a) && multiset(s) == xs[k];
    CoveringFits(s, a, bag);
  }

  // ----- and inclusion is covering, as one typical argument for each leaf shows

  /** An argument that fits l and little else: w is a name and a value that no leaf mentions. */
  function Typical(l: LeafPattern, w: string): LeafPattern {
    match l
    case Argument(_, _) => Argument(W.Some(w), w)
    case Command(name) => Argument(W.Some(w), if name.Some? then name.value else w)
    case Option(_, _) => l
  }

  function Typicals(s: seq<LeafPattern>, w: string): seq<LeafPattern> {
    seq(|s|, i requires 0 <= i < |s| => Typical(s[i], w))
  }

  lemma TypicalUnder(l: LeafPattern, m: LeafPattern, w: string)
    requires !(l.Command? && l.name.None?) && Name(m) != W.Some(w)
    ensures Fits(l, Typical(l, w)) && (Fits(m, Typical(l, w)) ==> Under(l, m))
  {
  }

  lemma {:induction false} TypicalsFit(s: seq<LeafPattern>, w: string)
    requires Possible(multiset(s))
    ensures FitsAll(s, multiset(Typicals(s, w)))
  {
    hide FitsAll, Typical;
    var g := Typicals(s, w);
    if s == [] {
      FitsNone(multiset(g));
    } else {
      assert s == [s[0]] + s[1..] && g == [g[0]] + g[1..] && g[1..] == Typicals(s[1..], w);
      PossiblePart(s[0], multiset(s[1..]));
      TypicalsFit(s[1..], w);
      TypicalFits(s[0], w);
      hide Possible, Fits;
      FitsOneMore(s, g[0], multiset(g), multiset(g[1..]));
    }
  }

  lemma TypicalFits(l: LeafPattern, w: string)
    requires !(l.Command? && l.name.None?)
    ensures Fits(l, Typical(l, w))
  {
  }

  lemma DropTypical(s: seq<LeafPattern>, w: string, x: LeafPattern, rest: Bag) returns (i: nat)
    requires multiset(Typicals(s, w)) == multiset{x} + rest
    ensures i < |s| && Typical(s[i], w) == x
    ensures multiset(s) == multiset{s[i]} + multiset(s[..i] + s[i + 1..])
    ensures multiset(Typicals(s[..i] + s[i + 1..], w)) == rest
  {
    hide Typical;
    var g := Typicals(s, w);
    assert x in multiset(g);
    i :| 0 <= i < |g| && g[i] == x;
    TakeOut(s, i);
    TakeOut(g, i);
    assert g[..i] + g[i + 1..] == Typicals(s[..i] + s[i + 1..], w);
    assert multiset(g) - multiset{x} == rest;
  }

  lemma PossiblePart(l: LeafPattern, a: Bag)
    requires Possible(multiset{l} + a)
    ensures Possible(a) && !(l.Command? && l.name.None?)
  {
    assert l in multiset{l} + a;
    assert forall m :: m in a ==> m in multiset{l} + a;
  }

  predicate Avoids(t: seq<LeafPattern>, w: string) {
    forall i :: 0 <= i < |t| ==> Name(t[i]) != W.Some(w)
  }

  lemma NothingTypical(s: seq<LeafPattern>, w: string)
    requires FitsAll([], multiset(Typicals(s, w)))
    ensures CoversAll([], multiset(s))
  {
    assert |Typicals(s, w)| == |multiset(Typicals(s, w))| == 0;
  }

  lemma {:induction false} TypicalsCovered(t: seq<LeafPattern>, s: seq<LeafPattern>, w: string)
    requires FitsAll(t, multiset(Typicals(s, w))) && Possible(multiset(s)) && Avoids(t, w)
    ensures CoversAll(t, multiset(s))
    decreases |t|
  {
    assert t != [] ==> Name(t[0]) != W.Some(w) && Avoids(t[1..], w);
    hide FitsAll, CoversAll, Under, Fits, Possible, Typicals, Name, Avoids;
    if t == [] {
      NothingTypical(s, w);
    } else {
      var x, rest := FitsFirst(t, multiset(Typicals(s, w)));
      var i := DropTypical(s, w, x, rest);
      var s' := s[..i] + s[i + 1..];
      PossiblePart(s[i], multiset(s'));
      TypicalUnder(s[i], t[0], w);
      TypicalsCovered(t[1..], s', w);
      CoversOneMore(t, s[i], multiset(s), multiset(s'));
    }
  }

  predicate ShortNames(s: seq<LeafPattern>, n: nat) {
    forall i :: 0 <= i < |s| && Name(s[i]).Some? ==> |Name(s[i]).value| <= n
  }

  lemma {:induction false} LongestName(s: seq<LeafPattern>) returns (n: nat)
    ensures ShortNames(s, n)
  {
    n := 0;
    if s != [] {
      n := LongestName(s[1..]);
      var m := if Name(s[0]).Some? then |Name(s[0]).value| else 0;
      n := if n < m then m else n;
    }
  }

  lemma {:induction false} Unmentioned(xs: seq<Bag>) returns (n: nat)
    ensures forall k, l :: 0 <= k < |xs| && l in xs[k] && Name(l).Some? ==> |Name(l).value| <= n
  {
    n := 0;
    if xs != [] {
      n := Unmentioned(xs[1..]);
      var s := Listed(xs[0]);
      var m := LongestName(s);
      forall l | l in xs[0] && Name(l).Some?
        ensures |Name(l).value| <= m
      {
        assert l in multiset(s);
      }
      n := if n < m then m else n;
    }
  }

  /** An alternative that has all its bags among those of a collection is covered by the collection. */
  lemma CoveredIfTypical(xs: seq<Bag>, a: Bag) returns (bag: Bag)
    requires Possible(a)
    ensures FitsBag(a, bag) && (Describes(xs, bag) ==> Covered(xs, a))
  {
    hide FitsAll, CoversAll, Name;
    var n := Unmentioned(xs);
    var w := seq(n + 1, i => ' ');
    var s := Listed(a);
    bag := multiset(Typicals(s, w));
    TypicalsFit(s, w);
    if Describes(xs, bag) {
      var k :| 0 <= k < |xs| && FitsBag(xs[k], bag);
      var t :| FitsAll(t, bag) && multiset(t) == xs[k];
      assert Avoids(t, w) by {
        forall i | 0 <= i < |t|
          ensures Name(t[i]) != W.Some(w)
        {
          assert t[i] in multiset(t);
        }
      }
      TypicalsCovered(t, s, w);
      assert Covers(xs[k], a);
    }
  }

  lemma {:induction false} FittedIsPossible(s: seq<LeafPattern>, bag: Bag)
    requires FitsAll(s, bag)
    ensures forall i :: 0 <= i < |s| ==> !(s[i].Command? && s[i].name.None?)
  {
    if s != [] {
      var a, rest := FitsFirst(s, bag);
      FittedIsPossible(s[1..], rest);
      assert forall i :: 1 <= i < |s| ==> s[i] == s[1..][i - 1];
    }
  }

  lemma FitsPossible(a: Bag, bag: Bag)
    requires FitsBag(a, bag)
    ensures Possible(a)
  {
    var s :| FitsAll(s, bag) && multiset(s) == a;
    FittedIsPossible(s, bag);
    forall l | l in a
      ensures !(l.Command? && l.name.None?)
    {
      var i :| 0 <= i < |s| && s[i] == l;
    }
  }

  // ----- when nothing is lost

  lemma DescribesSmall(xs: seq<Bag>, bag: Bag)
    requires Describes(xs, bag)
    ensures |bag| <= Largest(xs)
  {
    var k :| 0 <= k < |xs| && FitsBag(xs[k], bag);
    FitsBagSize(xs[k], bag);
  }

  lemma LenientCovered(p: Pattern, n: nat, bag: Bag)
    requires LosesNothing(p) && n == Largest(Alts(p)) + 1 && Describes(Lenient(p, n), bag)
    ensures Describes(Alts(p), bag)
  {
    hide FitsBag, Covered;
    var xs := Lenient(p, n);
    var k :| 0 <= k < |xs| && FitsBag(xs[k], bag);
    FitsPossible(xs[k], bag);
    CoveredDescribes(Alts(p), xs[k], bag);
  }

  lemma NothingLost(p: Pattern, bag: Bag)
    requires LosesNothing(p) && Accepts(p, bag)
    ensures Describes(Alts(p), bag)
  {
    hide LosesNothing, Accepts, Describes;
    var n := Largest(Alts(p)) + 1;
    LenientReached(p, n, bag);
    if Describes(Lenient(p, n), bag) {
      LenientCovered(p, n, bag);
    } else {
      var big: Bag :| Describes(Lenient(p, n), big) && |big| >= n;
      LenientCovered(p, n, big);
      DescribesSmall(Alts(p), big);
    }
  }

  ghost predicate SameLanguage(p: Pattern, r: Pattern) {
    forall bag :: Accepts(r, bag) <==> Accepts(p, bag)
  }

  /** An alternative that the pattern has and the expansion does not cover tells them apart. */
  lemma UncoveredLost(p: Pattern, r: Pattern, n: nat, k: nat)
    requires SingleEither(r) && Same(Alts(r), Alts(p)) && SameLanguage(p, r)
    requires k < |Lenient(p, n)| && Possible(Lenient(p, n)[k])
    ensures Covered(Alts(p), Lenient(p, n)[k])
  {
    hide Accepts, Describes, Covered, SingleEither, Possible, Lenient, Alts, FitsBag;
    var xs := Lenient(p, n);
    var bag := CoveredIfTypical(Alts(p), xs[k]);
    DescribesAt(xs, k, bag);
    LenientAccepted(p, n, bag);
    TransformStrict(p, r, bag);
  }

  lemma SameIfNothingLost(p: Pattern, r: Pattern, bag: Bag)
    requires SingleEither(r) && Same(Alts(r), Alts(p)) && LosesNothing(p)
    ensures Accepts(r, bag) <==> Accepts(p, bag)
  {
    hide Accepts, Describes, SingleEither, LosesNothing, Alts;
    TransformStrict(p, r, bag);
    TransformMeaning(p, r, bag);
    if Accepts(p, bag) {
      NothingLost(p, bag);
    }
  }

  /** The expansion of a pattern means what the pattern means if and only if every alternative the
      pattern really has is covered by one of the expansion. */
  lemma TransformLosesNothingIff(p: Pattern, r: Pattern)
    requires SingleEither(r) && Same(Alts(r), Alts(p))
    ensures SameLanguage(p, r) <==> LosesNothing(p)
  {
    hide Accepts, Covered, SingleEither, Possible, Lenient, Alts, Largest;
    var n := Largest(Alts(p)) + 1;
    if SameLanguage(p, r) {
      forall k | 0 <= k < |Lenient(p, n)| && Possible(Lenient(p, n)[k])
        ensures Covered(Alts(p), Lenient(p, n)[k])
      {
        UncoveredLost(p, r, n, k);
      }
    }
    if LosesNothing(p) {
      hide LosesNothing;
      forall bag
        ensures Accepts(r, bag) <==> Accepts(p, bag)
      {
        SameIfNothingLost(p, r, bag);
      }
    }
  }

  lemma DescribesAt(xs: seq<Bag>, k: nat, bag: Bag)
    requires k < |xs| && FitsBag(xs[k], bag)
    ensures Describes(xs, bag)
  {
  }

  // ----- without choices

  /** No choice, and every command has a name. */
  predicate Single(p: Pattern)
    decreases p
  {
    match p
    case Leaf(l) => !(l.Command? && l.name.None?)
    case Branch(kind, cs) => kind != Either && forall k :: 0 <= k < |cs| ==> Single(cs[k])
  }

  predicate SingleAll(cs: seq<Pattern>) {
    forall k :: 0 <= k < |cs| ==> Single(cs[k])
  }

  /** Leaves, those of a repeated part twice. */
  function Weight(p: Pattern): nat
    decreases p
  {
    match p
    case Leaf(_) => 1
    case Branch(OneOrMore, cs) => 2 * WeightAll(cs)
    case Branch(_, cs) => WeightAll(cs)
  }

  function WeightAll(cs: seq<Pattern>): nat
    decreases cs
  {
    if cs == [] then 0 else Weight(cs[0]) + WeightAll(cs[1..])
  }

  /** No leaf stands below an optional or a repeated part. */
  predicate Firm(p: Pattern)
    decreases p
  {
    match p
    case Leaf(_) => true
    case Branch(Required, cs) => FirmAll(cs)
    case Branch(_, cs) => WeightAll(cs) == 0
  }

  predicate FirmAll(cs: seq<Pattern>)
    decreases cs
  {
    cs == [] || (Firm(cs[0]) && FirmAll(cs[1..]))
  }

  /** Arguments that suffice: optional parts left out, repeated ones given once. */
  function Fewest(p: Pattern): nat
    decreases p
  {
    match p
    case Leaf(_) => 1
    case Branch(Required, cs) => FewestAll(cs)
    case Branch(OneOrMore, cs) => FewestAll(cs)
    case Branch(_, cs) => 0
  }

  function FewestAll(cs: seq<Pattern>): nat
    decreases cs
  {
    if cs == [] then 0 else Fewest(cs[0]) + FewestAll(cs[1..])
  }

  lemma {:induction false} FewestFirm(p: Pattern)
    requires Single(p)
    ensures Fewest(p) <= Weight(p) && (Fewest(p) == Weight(p) <==> Firm(p))
    decreases p
  {
    match p
    case Leaf(_) =>
    case Branch(_, cs) => FewestAllFirm(cs);
  }

  lemma {:induction false} FewestAllFirm(cs: seq<Pattern>)
    requires SingleAll(cs)
    ensures FewestAll(cs) <= WeightAll(cs) && (FewestAll(cs) == WeightAll(cs) <==> FirmAll(cs))
    decreases cs
  {
    if cs != [] {
      FewestFirm(cs[0]);
      FewestAllFirm(cs[1..]);
    }
  }

  /** There is one alternative, of that size. */
  lemma {:induction false} AltsWeight(p: Pattern)
    requires Single(p)
    ensures |Alts(p)| == 1 && |Alts(p)[0]| == Weight(p)
    decreases p
  {
    match p
    case Leaf(_) =>
    case Branch(kind, cs) =>
      AltsAllWeight(cs);
      var a := AltsAll(cs)[0];
      assert AltsAll(cs) == [a];
      ProductOne(a, a);
  }

  lemma ProductOne(a: Bag, b: Bag)
    ensures Product([a], [b]) == [a + b]
  {
    assert [a][1..] == [] && Shift(a, [b]) == [a + b] && Product([a][1..], [b]) == [];
  }

  lemma {:induction false} AltsAllWeight(cs: seq<Pattern>)
    requires SingleAll(cs)
    ensures |AltsAll(cs)| == 1 && |AltsAll(cs)[0]| == WeightAll(cs)
    decreases cs
  {
    if cs != [] {
      AltsWeight(cs[0]);
      AltsAllWeight(cs[1..]);
      var a, b := Alts(cs[0])[0], AltsAll(cs[1..])[0];
      assert Alts(cs[0]) == [a] && AltsAll(cs[1..]) == [b];
      ProductOne(a, b);
    }
  }

  lemma {:induction false} FewestAccepted(p: Pattern) returns (bag: Bag)
    requires Single(p)
    ensures Accepts(p, bag) && |bag| == Fewest(p)
    decreases p
  {
    match p
    case Leaf(l) =>
      TypicalFits(l, "");
      bag := multiset{Typical(l, "")};
    case Branch(Required, cs) => bag := FewestAllAccepted(cs);
    case Branch(OneOrMore, cs) =>
      bag := FewestAllAccepted(cs);
      TimesOnce(cs, bag);
    case Branch(_, cs) =>
      bag := multiset{};
      NoneOfSome(cs);
  }

  lemma {:induction false} FewestAllAccepted(cs: seq<Pattern>) returns (bag: Bag)
    requires SingleAll(cs)
    ensures AcceptsAll(cs, bag) && |bag| == FewestAll(cs)
    decreases cs
  {
    if cs == [] {
      bag := multiset{};
    } else {
      var b := FewestAccepted(cs[0]);
      var c := FewestAllAccepted(cs[1..]);
      AcceptsNext(cs, b, c);
      bag := b + c;
    }
  }

  lemma {:induction false} NoneOfSome(cs: seq<Pattern>)
    ensures AcceptsSome(cs, multiset{})
    decreases |cs|
  {
    if cs != [] {
      NoneOfSome(cs[1..]);
    }
  }

  // ----- a pattern without leaves accepts no arguments

  lemma {:induction false} WeightlessEmpty(p: Pattern, bag: Bag)
    requires Single(p) && Weight(p) == 0 && Accepts(p, bag)
    ensures bag == multiset{}
    decreases p, 0, 0
  {
    var cs := p.children;
    if p.kind == Required {
      WeightlessAllEmpty(cs, bag);
    } else if p.kind == OneOrMore {
      var n: nat :| n >= 1 && AcceptsTimes(cs, n, bag);
      WeightlessTimesEmpty(cs, n, bag);
    } else if p.kind == Optional || p.kind == OptionsShortcut {
      WeightlessSomeEmpty(cs, bag);
    }
  }

  lemma {:induction false} WeightlessAllEmpty(cs: seq<Pattern>, bag: Bag)
    requires SingleAll(cs) && WeightAll(cs) == 0 && AcceptsAll(cs, bag)
    ensures bag == multiset{}
    decreases cs, 0, 0
  {
    if cs != [] {
      var b :| Accepts(cs[0], b) && b <= bag && AcceptsAll(cs[1..], bag - b);
      WeightlessEmpty(cs[0], b);
      WeightlessAllEmpty(cs[1..], bag - b);
    }
  }

  lemma {:induction false} WeightlessSomeEmpty(cs: seq<Pattern>, bag: Bag)
    requires SingleAll(cs) && WeightAll(cs) == 0 && AcceptsSome(cs, bag)
    ensures bag == multiset{}
    decreases cs, 0, 0
  {
    if cs != [] {
      if AcceptsSome(cs[1..], bag) {
        WeightlessSomeEmpty(cs[1..], bag);
      } else {
        var b :| Accepts(cs[0], b) && b <= bag && AcceptsSome(cs[1..], bag - b);
        WeightlessEmpty(cs[0], b);
        WeightlessSomeEmpty(cs[1..], bag - b);
      }
    }
  }

  lemma NoTimes(cs: seq<Pattern>, bag: Bag)
    ensures AcceptsTimes(cs, 0, bag) <==> bag == multiset{}
  {
  }

  lemma {:induction false} WeightlessTimesEmpty(cs: seq<Pattern>, n: nat, bag: Bag)
    requires SingleAll(cs) && WeightAll(cs) == 0 && AcceptsTimes(cs, n, bag)
    ensures bag == multiset{}
    decreases cs, 1, n
  {
    hide AcceptsTimes, AcceptsAll, WeightAll, Single;
    if n == 0 {
      NoTimes(cs, bag);
    } else {
      var b, c := TimesFirst(cs, n, bag);
      WeightlessAllEmpty(cs, b);
      WeightlessTimesEmpty(cs, n - 1, c);
    }
  }

  lemma {:induction false} FirmExact(p: Pattern, bag: Bag)
    requires Single(p) && Firm(p) && Accepts(p, bag)
    ensures Describes(Alts(p), bag)
    decreases p
  {
    hide Describes;
    match p
    case Leaf(l) =>
      FitsBagOne(l, bag);
      DescribesOne(multiset{l}, bag);
    case Branch(kind, cs) =>
      if kind == Required {
        FirmAllExact(cs, bag);
      } else if kind != Either {
        AltsWeight(p);
        assert Alts(p)[0] == multiset{} && Alts(p) == [multiset{}];
        WeightlessEmpty(p, bag);
        DescribesNone(bag);
      }
  }

  lemma {:induction false} FirmAllExact(cs: seq<Pattern>, bag: Bag)
    requires SingleAll(cs) && FirmAll(cs) && AcceptsAll(cs, bag)
    ensures Describes(AltsAll(cs), bag)
    decreases cs
  {
    hide Describes, Accepts, Alts;
    if cs == [] {
      DescribesNone(bag);
    } else {
      var b :| Accepts(cs[0], b) && b <= bag && AcceptsAll(cs[1..], bag - b);
      FirmExact(cs[0], b);
      FirmAllExact(cs[1..], bag - b);
      ProductDescribes(Alts(cs[0]), AltsAll(cs[1..]), b, bag - b);
      assert b + (bag - b) == bag;
    }
  }

  /** Without choices, nothing is lost if and only if no leaf stands below an optional or a repeated
      part. */
  lemma SingleLosesNothingIff(p: Pattern, r: Pattern)
    requires SingleEither(r) && Same(Alts(r), Alts(p)) && Single(p)
    ensures SameLanguage(p, r) <==> Firm(p)
  {
    FewestFirm(p);
    AltsWeight(p);
    hide Accepts, Describes, SingleEither, Alts, Firm, Weight, Fewest, Single;
    if Firm(p) {
      forall bag
        ensures Accepts(r, bag) <==> Accepts(p, bag)
      {
        TransformStrict(p, r, bag);
        TransformMeaning(p, r, bag);
        if Accepts(p, bag) {
          FirmExact(p, bag);
        }
      }
    } else {
      var bag := FewestAccepted(p);
      TransformStrict(p, r, bag);
      assert Describes(Alts(p), bag) ==> |bag| == Weight(p) by { DescribesOnly(Alts(p), bag); }
    }
  }

  lemma DescribesOnly(xs: seq<Bag>, bag: Bag)
    requires |xs| == 1
    ensures Describes(xs, bag) ==> |bag| == |xs[0]|
  {
    if Describes(xs, bag) {
      FitsBagSize(xs[0], bag);
    }
  }

  /** The loss is real: no arguments at all suit an optional leaf, but not what `transform` makes of
      it. */
  lemma OptionalIsLost(l: LeafPattern, r: Pattern)
    requires SingleEither(r) && Same(Alts(r), Alts(Branch(Optional, [Leaf(l)])))
    ensures Accepts(Branch(Optional, [Leaf(l)]), multiset{}) && !Accepts(r, multiset{})
  {
    var p := Branch(Optional, [Leaf(l)]);
    hide SingleEither;
    NoneOfSome([Leaf(l)]);
    TransformStrict(p, r, multiset{});
    AltsAlone(Leaf(l));
    DescribesOne(multiset{l}, multiset{});
    FitsBagOne(l, multiset{});
  }
}
