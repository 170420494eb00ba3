/** The magnitudes a binary floating-point format can represent, the exponent unbounded above, in
    units of 2^b for any b that is low enough for all of them to be integers; the neighbours of a
    magnitude among them. */
module FloatGrid {
  import opened Arithmetic

  /** Exponent and fraction width, and the exponent of the smallest normal number. */
  datatype Format = Format(exponentWidth: nat, fraction: nat, minExponent: int)

  const HALF: Format := Format(5, 10, -14)
  const SINGLE: Format := Format(8, 23, -126)
  const DOUBLE: Format := Format(11, 52, -1022)

  /** The exponent of the last place of subnormal numbers. */
  function Lowest(f: Format): int {
    f.minExponent - f.fraction
  }

  predicate HasForm(f: Format, b: int, x: int, k: nat, q: int)
    requires b <= Lowest(f)
  {
    k < Pow2(f.fraction + 1) && q >= Lowest(f) && x == k * Pow2(q - b)
  }

  ghost predicate Representable(f: Format, b: int, x: int)
    requires b <= Lowest(f)
  {
    exists k: nat, q: int :: HasForm(f, b, x, k, q)
  }

  ghost predicate IsFloor(f: Format, b: int, v: int, r: int)
    requires b <= Lowest(f)
  {
    Representable(f, b, r) && r <= v && forall x :: Representable(f, b, x) && x <= v ==> x <= r
  }

  ghost predicate IsCeil(f: Format, b: int, v: int, r: int)
    requires b <= Lowest(f)
  {
    Representable(f, b, r) && v <= r && forall x :: Representable(f, b, x) && v <= x ==> r <= x
  }

  /** An integer significand for last place q: normal, or the place is the lowest. */
  predicate Significand(f: Format, q: int, n: nat) {
    n < Pow2(f.fraction + 1) && q >= Lowest(f) && (q == Lowest(f) || n >= Pow2(f.fraction))
  }

  lemma Pow2Split(a: int, b: int, c: int)
    requires a >= b >= c
    ensures Pow2(a - c) == Pow2(a - b) * Pow2(b - c)
  {
    Pow2Add(a - b, b - c);
  }

  lemma FactorLe(a: int, b: int, g: int)
    requires g > 0 && a * g < (b + 1) * g
    ensures a <= b
  {
    if a > b {
      MulMonotonic(b + 1, a, g);
    }
  }

  /** A representable magnitude is a multiple of the last place, or lies at or below the smallest
      significand of that place. */
  lemma OnPlaceOrBelow(f: Format, b: int, q: int, n: nat, x: int) returns (j: int)
    requires b <= Lowest(f) && Significand(f, q, n) && Representable(f, b, x)
    ensures x == j * Pow2(q - b) || x <= n * Pow2(q - b)
  {
    var k: nat, p: int :| HasForm(f, b, x, k, p);
    if p >= q {
      Pow2Split(p, q, b);
      j := k * Pow2(p - q);
      Associate(k, Pow2(p - q), Pow2(q - b));
    } else {
      j := 0;
      BelowPlace(f, b, q, n, k, p);
    }
  }

  lemma BelowPlace(f: Format, b: int, q: int, n: nat, k: nat, p: int)
    requires b <= p < q && k < Pow2(f.fraction + 1) && n >= Pow2(f.fraction)
    ensures k * Pow2(p - b) <= n * Pow2(q - b)
  {
    Pow2Monotonic(p - b, q - 1 - b);
    assert Pow2(q - b) == 2 * Pow2(q - 1 - b) && Pow2(f.fraction + 1) == 2 * Pow2(f.fraction);
    ProductBelow(k, Pow2(f.fraction), n, Pow2(p - b), Pow2(q - 1 - b));
  }

  lemma ProductBelow(k: nat, c: nat, n: nat, s: nat, g: nat)
    requires k <= 2 * c && c <= n && s <= g
    ensures k * s <= n * (2 * g)
  {
    calc {
      k * s;
    <= { MulMonotonic(k, 2 * c, s); }
      2 * c * s;
    == { Associate(2, c, s); }
      2 * (c * s);
    <= { MulMonotonic(s, g, c); MulMonotonic(c, n, g); }
      2 * (n * g);
    ==
      n * (2 * g);
    }
  }

  lemma SignificandRepresentable(f: Format, b: int, q: int, n: nat)
    requires b <= Lowest(f) <= q && n <= Pow2(f.fraction + 1)
    ensures Representable(f, b, n * Pow2(q - b))
  {
    if n < Pow2(f.fraction + 1) {
      assert HasForm(f, b, n * Pow2(q - b), n, q);
    } else {
      var c := Pow2(f.fraction);
      assert Pow2(q + 1 - b) == 2 * Pow2(q - b) && n == 2 * c;
      Associate(c, 2, Pow2(q - b));
      assert HasForm(f, b, n * Pow2(q - b), c, q + 1);
    }
  }

  lemma FloorOnGrid(f: Format, b: int, q: int, n: nat, v: int)
    requires b <= Lowest(f) && Significand(f, q, n)
    requires n * Pow2(q - b) <= v < (n + 1) * Pow2(q - b)
    ensures IsFloor(f, b, v, n * Pow2(q - b))
  {
    var g := Pow2(q - b);
    SignificandRepresentable(f, b, q, n);
    forall x | Representable(f, b, x) && x <= v
      ensures x <= n * g
    {
      var j := OnPlaceOrBelow(f, b, q, n, x);
      if x == j * g {
        FactorLe(j, n, g);
        MulMonotonic(j, n, g);
      }
    }
  }

  lemma CeilOnGrid(f: Format, b: int, q: int, n: nat, v: int)
    requires b <= Lowest(f) && Significand(f, q, n)
    requires n * Pow2(q - b) < v <= (n + 1) * Pow2(q - b)
    ensures IsCeil(f, b, v, (n + 1) * Pow2(q - b))
  {
    var g := Pow2(q - b);
    SignificandRepresentable(f, b, q, n + 1);
    forall x | Representable(f, b, x) && v <= x
      ensures (n + 1) * g <= x
    {
      var j := OnPlaceOrBelow(f, b, q, n, x);
      if x == j * g {
        FactorLe(n + 1, j, g) by { assert (j + 1) * g == j * g + g && (n + 1) * g == n * g + g; }
        MulMonotonic(n + 1, j, g);
      }
    }
  }

  /** The smallest nonzero number of a format is a power of two. */
  lemma AtLeastSmallest(f: Format, b: int, x: nat)
    requires b <= Lowest(f) && Representable(f, b, x) && x > 0
    ensures x >= Pow2(Lowest(f) - b)
  {
    var k: nat, q: int :| HasForm(f, b, x, k, q);
    Pow2Monotonic(Lowest(f) - b, q - b);
    MulMonotonic(1, k, Pow2(q - b));
  }
}
