/** Collections of alternatives: each alternative is a bag, and only how often it occurs counts. */
module Alternatives {

  /** `a` joined to every alternative. */
  function Shift<T>(a: multiset<T>, bs: seq<multiset<T>>): (r: seq<multiset<T>>)
    ensures |r| == |bs|
  {
    if bs == [] then [] else [a + bs[0]] + Shift(a, bs[1..])
  }

  /** Every alternative of the one joined to every alternative of the other. */
  function Product<T>(xs: seq<multiset<T>>, ys: seq<multiset<T>>): seq<multiset<T>> {
    if xs == [] then [] else Shift(xs[0], ys) + Product(xs[1..], ys)
  }

  /** The same alternatives, each as often. */
  ghost predicate Same<T>(xs: seq<multiset<T>>, ys: seq<multiset<T>>) {
    multiset(xs) == multiset(ys)
  }

  lemma {:induction false} ShiftAppend<T>(a: multiset<T>, xs: seq<multiset<T>>, ys: seq<multiset<T>>)
    ensures Shift(a, xs + ys) == Shift(a, xs) + Shift(a, ys)
  {
    if xs == [] {
      assert xs + ys == ys;
    } else {
      assert (xs + ys)[1..] == xs[1..] + ys;
      ShiftAppend(a, xs[1..], ys);
    }
  }

  lemma {:induction false} ShiftTwice<T>(a: multiset<T>, b: multiset<T>, xs: seq<multiset<T>>)
    ensures Shift(a, Shift(b, xs)) == Shift(a + b, xs)
  {
    if xs != [] {
      ShiftTwice(a, b, xs[1..]);
      assert a + (b + xs[0]) == a + b + xs[0];
      assert Shift(b, xs)[1..] == Shift(b, xs[1..]);
    }
  }

  lemma {:induction false} ProductAppend<T>(xs: seq<multiset<T>>, ys: seq<multiset<T>>, zs: seq<multiset<T>>)
    ensures Product(xs + ys, zs) == Product(xs, zs) + Product(ys, zs)
  {
    if xs == [] {
      assert xs + ys == ys;
    } else {
      assert (xs + ys)[1..] == xs[1..] + ys;
      ProductAppend(xs[1..], ys, zs);
      assert Shift(xs[0], zs) + (Product(xs[1..], zs) + Product(ys, zs))
        == Shift(xs[0], zs) + Product(xs[1..], zs) + Product(ys, zs);
    }
  }

  lemma {:induction false} ShiftProduct<T>(a: multiset<T>, xs: seq<multiset<T>>, ys: seq<multiset<T>>)
    ensures Product(Shift(a, xs), ys) == Shift(a, Product(xs, ys))
  {
    if xs != [] {
      ShiftProduct(a, xs[1..], ys);
      assert Shift(a, xs)[1..] == Shift(a, xs[1..]);
      ShiftTwice(a, xs[0], ys);
      ShiftAppend(a, Shift(xs[0], ys), Product(xs[1..], ys));
    }
  }

  lemma {:induction false} ProductAssociates<T>(xs: seq<multiset<T>>, ys: seq<multiset<T>>, zs: seq<multiset<T>>)
    ensures Product(Product(xs, ys), zs) == Product(xs, Product(ys, zs))
  {
    if xs != [] {
      ProductAssociates(xs[1..], ys, zs);
      ProductAppend(Shift(xs[0], ys), Product(xs[1..], ys), zs);
      ShiftProduct(xs[0], ys, zs);
    }
  }

  lemma {:induction false} ShiftByNothing<T>(xs: seq<multiset<T>>)
    ensures Shift(multiset{}, xs) == xs
  {
    if xs != [] {
      ShiftByNothing(xs[1..]);
      assert multiset{} + xs[0] == xs[0];
    }
  }

  lemma ProductUnit<T>(xs: seq<multiset<T>>)
    ensures Product([multiset{}], xs) == xs
  {
    ShiftByNothing(xs);
    var unit: seq<multiset<T>> := [multiset{}];
    assert unit[1..] == [] && Product(unit[1..], xs) == [];
  }

  lemma {:induction false} ProductUnitRight<T>(xs: seq<multiset<T>>)
    ensures Product(xs, [multiset{}]) == xs
  {
    if xs != [] {
      ProductUnitRight(xs[1..]);
      assert xs[0] + multiset{} == xs[0];
    }
  }

  // ----- up to order

  /** Joining on the right, one alternative at a time. */
  lemma {:induction false} ProductSnoc<T>(xs: seq<multiset<T>>, b: multiset<T>, ys: seq<multiset<T>>)
    ensures Same(Product(xs, [b] + ys), Shift(b, xs) + Product(xs, ys))
  {
    if xs != [] {
      var x, rest := xs[0], xs[1..];
      ProductSnoc(rest, b, ys);
      assert ([b] + ys)[1..] == ys;
      assert x + b == b + x;
      assert Product(xs, [b] + ys) == [b + x] + Shift(x, ys) + Product(rest, [b] + ys);
      assert Shift(b, xs) + Product(xs, ys) == [b + x] + Shift(b, rest) + (Shift(x, ys) + Product(rest, ys));
    }
  }

  lemma {:induction false} ProductByNone<T>(xs: seq<multiset<T>>)
    ensures Product(xs, []) == []
  {
    if xs != [] {
      ProductByNone(xs[1..]);
    }
  }

  lemma {:induction false} ProductCommutes<T>(xs: seq<multiset<T>>, ys: seq<multiset<T>>)
    ensures Same(Product(xs, ys), Product(ys, xs))
    decreases ys
  {
    if ys == [] {
      ProductByNone(xs);
    } else {
      ProductSnoc(xs, ys[0], ys[1..]);
      assert [ys[0]] + ys[1..] == ys;
      ProductCommutes(xs, ys[1..]);
    }
  }

  lemma TakeOut<U>(xs: seq<U>, i: nat)
    requires i < |xs|
    ensures multiset(xs) == multiset{xs[i]} + multiset(xs[..i] + xs[i + 1..])
  {
    assert xs == xs[..i] + ([xs[i]] + xs[i + 1..]);
  }

  /** The head of one occurs in the other, and the rests are the same again. */
  lemma FindHead<U>(xs: seq<U>, ys: seq<U>) returns (i: nat)
    requires xs != [] && multiset(xs) == multiset(ys)
    ensures i < |ys| && ys[i] == xs[0] && multiset(xs[1..]) == multiset(ys[..i] + ys[i + 1..])
  {
    assert xs[0] in multiset(xs);
    i :| 0 <= i < |ys| && ys[i] == xs[0];
    TakeOut(ys, i);
    assert xs == [xs[0]] + xs[1..];
    assert multiset(xs[1..]) == multiset(xs) - multiset{xs[0]};
    assert multiset(ys[..i] + ys[i + 1..]) == multiset(ys) - multiset{xs[0]};
  }

  lemma ShiftTakeOut<T>(a: multiset<T>, xs: seq<multiset<T>>, i: nat)
    requires i < |xs|
    ensures multiset(Shift(a, xs)) == multiset{a + xs[i]} + multiset(Shift(a, xs[..i] + xs[i + 1..]))
  {
    var before, after := xs[..i], xs[i + 1..];
    assert xs == before + ([xs[i]] + after);
    ShiftAppend(a, before, after);
    ShiftAppend(a, before, [xs[i]] + after);
    assert ([xs[i]] + after)[1..] == after;
  }

  lemma {:induction false} ShiftSame<T>(a: multiset<T>, xs: seq<multiset<T>>, ys: seq<multiset<T>>)
    requires Same(xs, ys)
    ensures Same(Shift(a, xs), Shift(a, ys))
  {
    if xs == [] {
      assert |ys| == |multiset(ys)| == |multiset(xs)| == 0;
    } else {
      var i := FindHead(xs, ys);
      ShiftSame(a, xs[1..], ys[..i] + ys[i + 1..]);
      ShiftTakeOut(a, ys, i);
      ShiftTakeOut(a, xs, 0);
      assert xs[..0] + xs[0 + 1..] == xs[1..];
    }
  }

  lemma {:induction false} ProductSameRight<T>(xs: seq<multiset<T>>, ys: seq<multiset<T>>, zs: seq<multiset<T>>)
    requires Same(ys, zs)
    ensures Same(Product(xs, ys), Product(xs, zs))
  {
    if xs != [] {
      ShiftSame(xs[0], ys, zs);
      ProductSameRight(xs[1..], ys, zs);
    }
  }

  lemma ProductSameLeft<T>(xs: seq<multiset<T>>, ys: seq<multiset<T>>, zs: seq<multiset<T>>)
    requires Same(xs, ys)
    ensures Same(Product(xs, zs), Product(ys, zs))
  {
    ProductCommutes(xs, zs);
    ProductSameRight(zs, xs, ys);
    ProductCommutes(ys, zs);
  }

  /** A factor may be brought to the front. */
  lemma ProductToFront<T>(xs: seq<multiset<T>>, ys: seq<multiset<T>>, zs: seq<multiset<T>>)
    ensures Same(Product(xs, Product(ys, zs)), Product(ys, Product(xs, zs)))
  {
    ProductAssociates(xs, ys, zs);
    ProductCommutes(xs, ys);
    ProductSameLeft(Product(xs, ys), Product(ys, xs), zs);
    ProductAssociates(ys, xs, zs);
  }
}
