/** Usage patterns and their expansion into a single choice. */
module Docopt {
  import opened Alternatives
  import W = Wrappers

  datatype LeafPattern =
    | Argument(name: W.Option<string>, value: string)
    | Command(name: W.Option<string>)
    | Option(short: W.Option<string>, long: W.Option<string>)

  datatype Kind = Required | Optional | OptionsShortcut | Either | OneOrMore

  datatype Pattern = Leaf(leaf: LeafPattern) | Branch(kind: Kind, children: seq<Pattern>)

  type Group = seq<Pattern>

  // ----- the expansion of a tree: products and unions

  /** An optional part counts as required, a repeated part as given twice. */
  function Alts(p: Pattern): seq<multiset<LeafPattern>>
    decreases p
  {
    match p
    case Leaf(l) => [multiset{l}]
    case Branch(Either, cs) => AltsAny(cs)
    case Branch(OneOrMore, cs) => Product(AltsAll(cs), AltsAll(cs))
    case Branch(_, cs) => AltsAll(cs)
  }

  function AltsAll(cs: Group): seq<multiset<LeafPattern>>
    decreases cs
  {
    if cs == [] then [multiset{}] else Product(Alts(cs[0]), AltsAll(cs[1..]))
  }

  function AltsAny(cs: Group): seq<multiset<LeafPattern>>
    decreases cs
  {
    if cs == [] then [] else Alts(cs[0]) + AltsAny(cs[1..])
  }

  // ----- one round of the worklist

  predicate Leaves(g: Group) {
    forall c :: c in g ==> c.Leaf?
  }

  function FirstBranch(g: Group): (i: nat)
    requires !Leaves(g)
    ensures i < |g| && g[i].Branch? && Leaves(g[..i])
  {
    if g[0].Branch? then 0
    else
      assert !Leaves(g[1..]) by {
        var c :| c in g && !c.Leaf?;
        assert c in g[1..];
      }
      var i := FirstBranch(g[1..]);
      assert g[..1 + i] == [g[0]] + g[1..][..i];
      1 + i
  }

  function Without(g: Group, i: nat): Group
    requires i < |g|
  {
    g[..i] + g[i + 1..]
  }

  /** The groups that replace a group with a branch. */
  function Next(g: Group): seq<Group>
    requires !Leaves(g)
  {
    var i := FirstBranch(g);
    var child, rest := g[i], Without(g, i);
    match child.kind
    case Either => seq(|child.children|, k requires 0 <= k < |child.children| => [child.children[k]] + rest)
    case OneOrMore => [child.children + child.children + rest]
    case _ => [child.children + rest]
  }

  // ----- how much work a group is

  function Rank(p: Pattern): nat
    decreases p
  {
    match p
    case Leaf(_) => 0
    case Branch(OneOrMore, cs) => 1 + 2 * RankAll(cs)
    case Branch(_, cs) => 1 + RankAll(cs)
  }

  function RankAll(cs: Group): nat
    decreases cs
  {
    if cs == [] then 0 else Rank(cs[0]) + RankAll(cs[1..])
  }

  lemma {:induction false} RankAppend(cs: Group, ds: Group)
    ensures RankAll(cs + ds) == RankAll(cs) + RankAll(ds)
  {
    if cs == [] {
      assert cs + ds == ds;
    } else {
      assert (cs + ds)[1..] == cs[1..] + ds;
      RankAppend(cs[1..], ds);
    }
  }

  lemma RankCons(c: Pattern, cs: Group)
    ensures RankAll([c] + cs) == Rank(c) + RankAll(cs)
  {
    assert ([c] + cs)[1..] == cs;
  }

  lemma RankWithout(g: Group, i: nat)
    requires i < |g|
    ensures RankAll(g) == Rank(g[i]) + RankAll(Without(g, i))
  {
    hide RankAll, Rank;
    assert g == g[..i] + ([g[i]] + g[i + 1..]);
    RankAppend(g[..i], [g[i]] + g[i + 1..]);
    RankAppend(g[..i], g[i + 1..]);
    RankCons(g[i], g[i + 1..]);
  }

  lemma {:induction false} RankChild(cs: Group, k: nat)
    requires k < |cs|
    ensures Rank(cs[k]) <= RankAll(cs)
  {
    if k > 0 {
      RankChild(cs[1..], k - 1);
    }
  }

  lemma NextRanks(g: Group)
    requires !Leaves(g)
    ensures forall k :: 0 <= k < |Next(g)| ==> RankAll(Next(g)[k]) < RankAll(g)
  {
    hide RankAll, FirstBranch;
    var i := FirstBranch(g);
    var cs, rest := g[i].children, Without(g, i);
    RankWithout(g, i);
    RankAppend(cs, cs);
    RankAppend(cs + cs, rest);
    RankAppend(cs, rest);
    forall k | 0 <= k < |Next(g)|
      ensures RankAll(Next(g)[k]) < RankAll(g)
    {
      if g[i].kind == Either {
        RankChild(cs, k);
        RankCons(cs[k], rest);
      }
    }
  }

  /** Rounds until a group and everything it becomes are done. */
  function Steps(g: Group): nat
    decreases RankAll(g)
  {
    if Leaves(g) then 1 else
      NextRanks(g);
      1 + StepsBelow(Next(g), RankAll(g))
  }

  function StepsBelow(gs: seq<Group>, r: nat): nat
    requires forall k :: 0 <= k < |gs| ==> RankAll(gs[k]) < r
    decreases r, |gs|
  {
    if gs == [] then 0 else Steps(gs[0]) + StepsBelow(gs[1..], r)
  }

  function StepsAll(gs: seq<Group>): nat {
    if gs == [] then 0 else Steps(gs[0]) + StepsAll(gs[1..])
  }

  lemma {:induction false} StepsBelowAll(gs: seq<Group>, r: nat)
    requires forall k :: 0 <= k < |gs| ==> RankAll(gs[k]) < r
    ensures StepsBelow(gs, r) == StepsAll(gs)
    decreases |gs|
  {
    if gs != [] {
      StepsBelowAll(gs[1..], r);
    }
  }

  lemma {:induction false} StepsAppend(gs: seq<Group>, hs: seq<Group>)
    ensures StepsAll(gs + hs) == StepsAll(gs) + StepsAll(hs)
  {
    if gs == [] {
      assert gs + hs == hs;
    } else {
      assert (gs + hs)[1..] == gs[1..] + hs;
      StepsAppend(gs[1..], hs);
    }
  }

  // ----- a round keeps the alternatives

  lemma {:induction false} AltsAppend(cs: Group, ds: Group)
    ensures AltsAll(cs + ds) == Product(AltsAll(cs), AltsAll(ds))
  {
    if cs == [] {
      assert cs + ds == ds;
      ProductUnit(AltsAll(ds));
    } else {
      assert (cs + ds)[1..] == cs[1..] + ds;
      AltsAppend(cs[1..], ds);
      ProductAssociates(Alts(cs[0]), AltsAll(cs[1..]), AltsAll(ds));
    }
  }

  lemma AltsCons(c: Pattern, cs: Group)
    ensures AltsAll([c] + cs) == Product(Alts(c), AltsAll(cs))
  {
    assert ([c] + cs)[1..] == cs;
  }

  lemma AltsWithout(g: Group, i: nat)
    requires i < |g|
    ensures Same(AltsAll(g), Product(Alts(g[i]), AltsAll(Without(g, i))))
  {
    hide AltsAll, Alts, Product;
    var before, after := g[..i], g[i + 1..];
    assert g == before + ([g[i]] + after);
    AltsAppend(before, [g[i]] + after);
    AltsCons(g[i], after);
    ProductToFront(AltsAll(before), Alts(g[i]), AltsAll(after));
    AltsAppend(before, after);
  }

  function AltsGroups(gs: seq<Group>): seq<multiset<LeafPattern>> {
    if gs == [] then [] else AltsAll(gs[0]) + AltsGroups(gs[1..])
  }

  lemma {:induction false} AltsGroupsAppend(gs: seq<Group>, hs: seq<Group>)
    ensures AltsGroups(gs + hs) == AltsGroups(gs) + AltsGroups(hs)
  {
    if gs == [] {
      assert gs + hs == hs;
    } else {
      assert (gs + hs)[1..] == gs[1..] + hs;
      AltsGroupsAppend(gs[1..], hs);
    }
  }

  lemma {:induction false} AltsChoices(cs: Group, rest: Group)
    ensures Product(AltsAny(cs), AltsAll(rest)) == AltsGroups(seq(|cs|, k requires 0 <= k < |cs| => [cs[k]] + rest))
    decreases |cs|
  {
    var gs := seq(|cs|, k requires 0 <= k < |cs| => [cs[k]] + rest);
    if cs != [] {
      AltsChoices(cs[1..], rest);
      assert gs[1..] == seq(|cs[1..]|, k requires 0 <= k < |cs[1..]| => [cs[1..][k]] + rest);
      assert gs[0][1..] == rest;
      ProductAppend(Alts(cs[0]), AltsAny(cs[1..]), AltsAll(rest));
    }
  }

  lemma AltsAlone(p: Pattern)
    ensures AltsAll([p]) == Alts(p)
  {
    ProductUnitRight(Alts(p));
  }

  lemma AltsGroupAlone(g: Group)
    ensures AltsGroups([g]) == AltsAll(g)
  {
    assert [g][1..] == [];
  }

  lemma NextAlts(g: Group)
    requires !Leaves(g)
    ensures Same(AltsAll(g), AltsGroups(Next(g)))
  {
    hide AltsAll, AltsGroups, Product, AltsAny;
    var i := FirstBranch(g);
    var cs, rest := g[i].children, Without(g, i);
    AltsWithout(g, i);
    if g[i].kind == Either {
      AltsChoices(cs, rest);
    } else if g[i].kind == OneOrMore {
      AltsAppend(cs, cs);
      AltsAppend(cs + cs, rest);
      AltsGroupAlone(cs + cs + rest);
    } else {
      AltsAppend(cs, rest);
      AltsGroupAlone(cs + rest);
    }
  }

  function LeafBag(g: Group): multiset<LeafPattern>
    requires Leaves(g)
  {
    if g == [] then multiset{} else multiset{g[0].leaf} + LeafBag(g[1..])
  }

  lemma {:induction false} AltsOfLeaves(g: Group)
    requires Leaves(g)
    ensures AltsAll(g) == [LeafBag(g)]
  {
    if g != [] {
      AltsOfLeaves(g[1..]);
      var bag := multiset{g[0].leaf};
      assert Alts(g[0]) == [bag] && [bag][1..] == [];
      assert Product([bag], [LeafBag(g[1..])])
        == Shift(bag, [LeafBag(g[1..])]) + Product([bag][1..], [LeafBag(g[1..])]);
    }
  }

  /** A choice among lists of leaves. */
  predicate SingleEither(p: Pattern) {
    p.Branch? && p.kind == Either &&
    forall c :: c in p.children ==> c.Branch? && c.kind == Required && Leaves(c.children)
  }

  function Choice(groups: seq<Group>): Pattern {
    Branch(Either, seq(|groups|, k requires 0 <= k < |groups| => Branch(Required, groups[k])))
  }

  lemma {:induction false} AltsOfChoice(groups: seq<Group>)
    ensures Alts(Choice(groups)) == AltsGroups(groups)
  {
    if groups != [] {
      AltsOfChoice(groups[1..]);
      var cs := Choice(groups).children;
      assert cs[1..] == Choice(groups[1..]).children;
      assert cs[0] == Branch(Required, groups[0]);
      assert Alts(cs[0]) == AltsAll(groups[0]);
      assert Alts(Choice(groups)) == AltsAny(cs);
      assert Alts(Choice(groups[1..])) == AltsAny(cs[1..]);
    }
  }

  /** In a choice among lists of leaves, each alternative is the bag of one list. */
  lemma {:induction false} AltsOfSingleEither(groups: seq<Group>)
    requires forall g :: g in groups ==> Leaves(g)
    ensures AltsGroups(groups) == seq(|groups|, k requires 0 <= k < |groups| => LeafBag(groups[k]))
  {
    if groups != [] {
      AltsOfLeaves(groups[0]);
      AltsOfSingleEither(groups[1..]);
    }
  }

  lemma NextSteps(g: Group)
    requires !Leaves(g)
    ensures StepsAll(Next(g)) < Steps(g)
  {
    NextRanks(g);
    StepsBelowAll(Next(g), RankAll(g));
  }

  /** One round of the loop: alternatives are kept, work is not. */
  lemma Round(result: seq<Group>, groups: seq<Group>)
    requires groups != []
    ensures
      var g, rest := groups[0], groups[1..];
      if Leaves(g) then
        && Same(AltsGroups(result + [g]) + AltsGroups(rest), AltsGroups(result) + AltsGroups(groups))
        && StepsAll(rest) < StepsAll(groups)
      else
        && Same(AltsGroups(result) + AltsGroups(rest + Next(g)), AltsGroups(result) + AltsGroups(groups))
        && StepsAll(rest + Next(g)) < StepsAll(groups)
  {
    hide Next, AltsAll;
    var g, rest := groups[0], groups[1..];
    if Leaves(g) {
      AltsGroupsAppend(result, [g]);
      AltsGroupAlone(g);
      assert Steps(g) == 1;
    } else {
      NextAlts(g);
      AltsGroupsAppend(rest, Next(g));
      NextSteps(g);
      StepsAppend(rest, Next(g));
    }
  }

  method Transform(pattern: Pattern) returns (r: Pattern)
    ensures SingleEither(r)
    ensures Same(Alts(r), Alts(pattern))
  {
    hide AltsGroups, Alts, StepsAll;
    var result: seq<Group>, groups: seq<Group> := [], [[pattern]];
    Start(pattern);
    while groups != []
      invariant forall g :: g in result ==> Leaves(g)
      invariant Same(AltsGroups(result) + AltsGroups(groups), Alts(pattern))
      decreases StepsAll(groups)
    {
      Round(result, groups);
      var children := groups[0];
      groups := groups[1..];
      if Leaves(children) {
        result := result + [children];
      } else {
        groups := groups + Next(children);
      }
    }
    Finish(result);
    r := Choice(result);
  }

  lemma Start(pattern: Pattern)
    ensures AltsGroups([]) + AltsGroups([[pattern]]) == Alts(pattern)
  {
    AltsGroupAlone([pattern]);
    AltsAlone(pattern);
  }

  lemma Finish(result: seq<Group>)
    ensures AltsGroups(result) + AltsGroups([]) == Alts(Choice(result))
  {
    AltsOfChoice(result);
  }
}
