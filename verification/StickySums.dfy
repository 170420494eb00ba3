/** Multiplying and adding with a single rounding: the sum is formed in 128 bits, what is shifted out
    remembered in the last bit, and stands for the exact one, except after a near-total cancellation. */
module StickySums {
  import opened Arithmetic
  import opened WideIntegers
  import opened FloatGrid
  import F = FloatRounding
  import opened FloatPacking
  import opened FloatSticky
  import opened FloatUnpacking

  type Unpacked = F.Unpacked

  // ----- sums with a sticky bit

  lemma Parts(y: nat, d: nat, w: nat, u: nat)
    requires d > 0 && w > 0 && u == d * w
    ensures 0 <= y % d * w < u && y * w == y / d * u + y % d * w
    ensures y % d > 0 <==> y % d * w > 0
  {
    SplitUnits(y, d, w);
    var r := y % d;
    if r > 0 {
      MulMonotonic(1, r, w);
    }
  }

  /** A multiple of two units and a number shifted by the sticky shift. */
  lemma JamSum(n: nat, y: nat, d: nat, w: nat, u: nat)
    requires d > 0 && w > 0 && n % 2 == 0 && u == d * w
    ensures Sticks(n + Jam(y, d), u, n * u + y * w)
  {
    Parts(y, d, w, u);
    var q, rest, j := y / d, y % d * w, Jam(y, d);
    assert (n + j) * u == n * u + j * u;
    assert j == q || (j == q + 1 && q % 2 == 0 && rest > 0);
    assert (q + 1) * u == q * u + u;
  }

  lemma JamDifference(n: nat, y: nat, d: nat, w: nat, u: nat)
    requires d > 0 && w > 0 && n % 2 == 0 && u == d * w && Jam(y, d) <= n
    ensures n * u >= y * w && Sticks(n - Jam(y, d), u, n * u - y * w)
  {
    Parts(y, d, w, u);
    var q, rest := y / d, y % d * w;
    AtLeastParts(n, q, u, rest);
    if rest == 0 {
      Distribute(u, n - q, q);
    } else {
      DifferenceSticks(n, q, u, rest);
    }
  }

  lemma DifferenceSticks(n: nat, q: nat, u: nat, rest: nat)
    requires n % 2 == 0 && 0 < rest < u && SetIf(q, true) <= n && n * u >= q * u + rest
    ensures Sticks(n - SetIf(q, true), u, n * u - q * u - rest)
  {
    var m := n - SetIf(q, true);
    if q % 2 == 1 {
      Distribute(u, m, q);
    } else {
      Distribute(u, m, q + 1);
      Distribute(u, q, 1);
    }
  }

  lemma AtLeastParts(n: nat, q: nat, u: nat, rest: nat)
    requires rest < u && q <= n && (rest > 0 ==> q + 1 <= n)
    ensures n * u >= q * u + rest
  {
    MulMonotonic(if rest > 0 then q + 1 else q, n, u);
    assert (q + 1) * u == q * u + u;
  }

  // ----- from 128 bits to 64

  /** The upper word, its last bit set if the lower word is not zero. */
  function ReduceMantissa(sign: bool, exponent: int, mantissa: U128): Unpacked {
    F.Unpacked(sign, exponent + 2, SetIf(mantissa.upper, mantissa.lower != 0))
  }

  /** Strictly between two multiples of a unit, the odd one sticks. */
  lemma OddSticks(q: nat, u: nat, v: nat)
    requires q * u < v < (q + 1) * u
    ensures Sticks(SetIf(q, true), u, v)
  {
    assert (q + 1) * u == q * u + u;
  }

  /** A number that sticks lies strictly inside any larger unit it is not a multiple of. */
  lemma StrictlyInside(n: nat, u: nat, v: nat, q: nat, c: nat, l: nat)
    requires u > 0 && Sticks(n, u, v) && n == q * c + l && 0 < l < c
    ensures q * (c * u) < v < (q + 1) * (c * u)
  {
    assert n * u == q * (c * u) + l * u by {
      assert (q * c + l) * u == q * c * u + l * u;
      Associate(q, c, u);
    }
    MulMonotonic(1, l, u);
    MulMonotonic(l + 1, c, u);
    assert (l + 1) * u == l * u + u && (q + 1) * (c * u) == q * (c * u) + c * u;
  }

  lemma ReduceSticks(n: nat, p: nat, c: nat, w: nat, v: nat, q: nat, l: nat)
    requires p > 0 && w > 0 && c % 2 == 0 && l < c && n == q * c + l && Sticks(n, p * w, v)
    ensures Sticks(SetIf(q, l != 0), c * (p * w), v)
  {
    var u := p * w;
    assert u > 0 by { MulMonotonic(1, p, w); }
    if l == 0 {
      assert n % 2 == 0 by { Associate(q, 2, c / 2); Parity(q * (c / 2), 0); }
      Associate(q, c, u);
    } else {
      StrictlyInside(n, u, v, q, c, l);
      OddSticks(q, c * u, v);
    }
  }

  /** The words of a shifted number, in units of the shift. */
  lemma ShiftedWords(m: U128, n: nat, p: nat, c: nat)
    requires Valid(m) && p > 0 && c * p == TWO64 && Wide(m) == n * p
    ensures m.lower % p == 0 && n == m.upper * c + m.lower / p
    ensures m.lower / p < c && (m.lower / p != 0 <==> m.lower != 0)
  {
    var l, r := m.lower / p, m.lower % p;
    assert m.lower == l * p + r;
    assert (m.upper * c + l) * p == m.upper * c * p + l * p;
    Associate(m.upper, c, p);
    RemainderUnique(n * p, p, m.upper * c + l, r);
    RemainderUnique(n * p, p, n, 0);
    QuotientBelow(m.lower, p, c);
  }

  lemma Reduced(sign: bool, exponent: int, m: U128, n: nat, s: nat, v: nat, b: int)
    requires Valid(m) && Wide(m) == n * Pow2(s) && s <= 62 && Wide(m) >= Pow2(124) && b <= exponent - 124
    requires Sticks(n, Pow2(exponent + s - 124 - b), v)
    ensures StandsFor(ReduceMantissa(sign, exponent, m), v, b)
  {
    hide Pow2, Wide, SetIf, Sticks;
    var p, c, w := Pow2(s), Pow2(64 - s), Pow2(exponent - 124 - b);
    ReducedPowers(exponent, s, b);
    UpperAtLeast(m);
    ShiftedWords(m, n, p, c);
    ReduceSticks(n, p, c, w, v, m.upper, m.lower / p);
    SetKeeps(m.upper, m.lower != 0);
  }

  lemma ReducedPowers(exponent: int, s: nat, b: int)
    requires s <= 62 && b <= exponent - 124
    ensures
      var p, c, w := Pow2(s), Pow2(64 - s), Pow2(exponent - 124 - b);
      && c * p == TWO64 && c % 2 == 0
      && p * w == Pow2(exponent + s - 124 - b) && c * (p * w) == Pow2(exponent - 60 - b)
  {
    hide Pow2;
    WordPowers(s);
    PowerEven(64 - s);
    Pow2Add(s, exponent - 124 - b);
    Pow2Add(64 - s, exponent + s - 124 - b);
  }

  lemma PowerEven(k: nat)
    requires k > 0
    ensures Pow2(k) % 2 == 0
  {
    assert Pow2(k) == 2 * Pow2(k - 1);
  }

  lemma UpperAtLeast(m: U128)
    requires Valid(m) && Wide(m) >= Pow2(124)
    ensures m.upper >= Pow2(60)
  {
    hide Pow2;
    ProductPowers();
    WordAtLeast(m, Pow2(60));
  }

  lemma SetKeeps(x: nat, sticky: bool)
    requires x < TWO64
    ensures x <= SetIf(x, sticky) < TWO64
  {
    SetBelow(x, sticky);
  }

  // ----- the product

  /** Zero, or in normal form with its last bit clear, as every unpacked number is. */
  predicate Even(op: Unpacked) {
    op.mantissa == 0 || (Normal(op) && op.mantissa % 2 == 0)
  }

  /** The product of the mantissas, its point moved by one place if it is two or more. */
  predicate ProductOf(op1: Unpacked, op2: Unpacked, exponent: int, value: U128) {
    && Valid(value) && Wide(value) % 2 == 0
    && (if Wide(value) == 0 then Times(op1.mantissa, op2.mantissa) == 0 else Pow2(124) <= Wide(value) < Pow2(125))
    && (|| (exponent == op1.exponent + op2.exponent && Wide(value) == Times(op1.mantissa, op2.mantissa))
        || (exponent == op1.exponent + op2.exponent + 1 && 2 * Wide(value) == Times(op1.mantissa, op2.mantissa)))
  }

  lemma TimesBounds(a: nat, b: nat, x: nat, y: nat)
    requires x <= a < y && x <= b < y
    ensures x * x <= Times(a, b) < y * y
  {
    TimesAtLeast(a, b, x);
    TimesBelow(a, b, y);
  }

  lemma TimesAtLeast(a: nat, b: nat, x: nat)
    requires x <= a && x <= b
    ensures x * x <= Times(a, b)
  {
    MulMonotonic(x, a, x);
    MulMonotonic(x, b, a);
  }

  lemma TimesBelow(a: nat, b: nat, y: nat)
    requires a < y && b < y
    ensures Times(a, b) < y * y
  {
    MulMonotonic(b, y, a);
    MulMonotonic(a + 1, y, y);
    assert (a + 1) * y == y * a + y;
  }

  /** The powers of two around the product's point. */
  lemma ProductPowers()
    ensures Pow2(62) * Pow2(62) == Pow2(124) && Pow2(63) * Pow2(63) == Pow2(126)
    ensures Pow2(126) == 2 * Pow2(125) && Pow2(125) == 2 * Pow2(124)
    ensures Pow2(124) == Pow2(60) * TWO64 && Pow2(125) == Pow2(61) * TWO64 && Pow2(61) == 2 * Pow2(60)
    ensures Pow2(1) == 2
  {
    Pow2Add(62, 62);
    Pow2Add(63, 63);
    Pow2Add(60, 64);
    Pow2Add(61, 64);
    Pow2Values();
  }

  lemma ProductBounds(a: nat, b: nat)
    requires Pow2(62) <= a < Pow2(63) && Pow2(62) <= b < Pow2(63) && a % 2 == 0 && b % 2 == 0
    ensures Pow2(124) <= Times(a, b) < Pow2(126) && Times(a, b) % 4 == 0
  {
    hide Pow2, Times;
    ProductPowers();
    TimesBounds(a, b, Pow2(62), Pow2(63));
    FourTimes(a / 2, b / 2);
  }

  lemma FourTimes(a: nat, b: nat)
    ensures Times(2 * a, 2 * b) % 4 == 0
  {
    assert (2 * a) * (2 * b) == 4 * (a * b);
  }

  lemma TopBit(u: U128)
    requires Valid(u) && Wide(u) < Pow2(126)
    ensures Quotient(u.upper, Pow2(61)) % 2 == 1 <==> Wide(u) >= Pow2(125)
  {
    hide Pow2;
    ProductPowers();
    var p, x := Pow2(61), u.upper;
    WordAtLeast(u, p);
    WordAtLeast(u, 2 * p);
    if x >= p {
      RemainderUnique(x, p, 1, x - p);
    } else {
      RemainderUnique(x, p, 0, x);
    }
  }

  lemma WordAtLeast(u: U128, k: nat)
    requires Valid(u)
    ensures Wide(u) >= k * TWO64 <==> u.upper >= k
  {
  }

  method Product(op1: Unpacked, op2: Unpacked) returns (exponent: int, value: U128)
    requires Even(op1) && Even(op2)
    ensures ProductOf(op1, op2, exponent, value)
  {
    MantissaFits(op1);
    MantissaFits(op2);
    exponent := op1.exponent + op2.exponent;
    value := Multiply(op1.mantissa, op2.mantissa);
    ProductRight(op1, op2);
    if Quotient(value.upper, Pow2(61)) % 2 == 1 {
      value := ShiftRight(value, 1);
      exponent := exponent + 1;
    }
  }

  lemma MantissaFits(op: Unpacked)
    requires Even(op)
    ensures op.mantissa < TWO64 && op.mantissa < Pow2(63)
  {
    if op.mantissa > 0 {
      NormalInput(op);
    }
  }

  lemma ProductRight(op1: Unpacked, op2: Unpacked)
    requires Even(op1) && Even(op2) && op1.mantissa < TWO64 && op2.mantissa < TWO64
    ensures
      var value, e := Multiply(op1.mantissa, op2.mantissa), op1.exponent + op2.exponent;
      if Quotient(value.upper, Pow2(61)) % 2 == 1 then ProductOf(op1, op2, e + 1, ShiftRight(value, 1))
      else ProductOf(op1, op2, e, value)
  {
    hide Pow2, Times, Multiply, ShiftRight, Wide, Normal, ProductOf;
    var m1, m2 := op1.mantissa, op2.mantissa;
    var value := Multiply(m1, m2);
    MultiplyValue(m1, m2);
    ShiftRightValue(value, 1);
    MantissaProduct(op1, op2);
    TopBit(value);
    if Wide(value) >= Pow2(125) {
      ProductHalved(op1, op2, ShiftRight(value, 1));
    } else {
      ProductWhole(op1, op2, value);
    }
  }

  lemma MantissaProduct(op1: Unpacked, op2: Unpacked)
    requires Even(op1) && Even(op2)
    ensures
      var v := Times(op1.mantissa, op2.mantissa);
      v % 4 == 0 && v < Pow2(126) && (v == 0 || v >= Pow2(124)) && Pow2(1) == 2
  {
    hide Pow2, Times;
    ProductPowers();
    if op1.mantissa == 0 || op2.mantissa == 0 {
      TimesNothing(op1.mantissa, op2.mantissa);
    } else {
      ProductBounds(op1.mantissa, op2.mantissa);
    }
  }

  lemma ProductHalved(op1: Unpacked, op2: Unpacked, half: U128)
    requires Valid(half) && Wide(half) == Quotient(Times(op1.mantissa, op2.mantissa), 2)
    requires Times(op1.mantissa, op2.mantissa) % 4 == 0 && Pow2(125) <= Times(op1.mantissa, op2.mantissa) < Pow2(126)
    ensures ProductOf(op1, op2, op1.exponent + op2.exponent + 1, half)
  {
    hide Pow2, Times, Wide;
    PointPowers();
    Halved(Times(op1.mantissa, op2.mantissa));
  }

  lemma Halved(v: nat)
    requires v % 4 == 0
    ensures 2 * Quotient(v, 2) == v && Quotient(v, 2) % 2 == 0
  {
  }

  lemma PointPowers()
    ensures Pow2(126) == 2 * Pow2(125) && Pow2(125) == 2 * Pow2(124)
  {
  }

  lemma ProductWhole(op1: Unpacked, op2: Unpacked, value: U128)
    requires Valid(value) && Wide(value) == Times(op1.mantissa, op2.mantissa)
    requires Wide(value) % 4 == 0 && Wide(value) < Pow2(125) && (Wide(value) == 0 || Wide(value) >= Pow2(124))
    ensures ProductOf(op1, op2, op1.exponent + op2.exponent, value)
  {
    hide Pow2, Times, Wide;
  }

  lemma TimesNothing(a: nat, b: nat)
    requires a == 0 || b == 0
    ensures Times(a, b) == 0 && 0 < Pow2(124) < Pow2(125) < Pow2(126)
  {
    hide Pow2;
    ProductPowers();
  }

  // ----- values

  /** A unit below every bit of the operands, with room for the normalising shift. */
  predicate Deep(e1: int, e2: int, b: int) {
    b <= e1 - 200 && b <= e2 - 200
  }

  /** A nonzero product, as it comes out of the multiplication. */
  predicate IsProduct(p: U128) {
    Valid(p) && Wide(p) % 2 == 0 && Pow2(124) <= Wide(p) < Pow2(125)
  }

  predicate IsMantissa(m: nat) {
    Pow2(62) <= m < Pow2(63) && m % 2 == 0
  }

  /** n at a place and y at a place k bits lower. */
  lemma PlacedSum(n: nat, y: nat, k: nat, x: nat)
    requires n % 2 == 0
    ensures Sticks(n + Jam(y, Pow2(k)), Pow2(k + x), Scale(n, k + x) + Scale(y, x))
  {
    Pow2Add(k, x);
    hide Pow2, Jam, Sticks;
    JamSum(n, y, Pow2(k), Pow2(x), Pow2(k + x));
  }

  lemma PlacedDifference(n: nat, y: nat, k: nat, x: nat)
    requires n % 2 == 0 && Jam(y, Pow2(k)) <= n
    ensures Scale(n, k + x) >= Scale(y, x)
    ensures Sticks(n - Jam(y, Pow2(k)), Pow2(k + x), Scale(n, k + x) - Scale(y, x))
  {
    Pow2Add(k, x);
    hide Pow2, Jam, Sticks;
    JamDifference(n, y, Pow2(k), Pow2(x), Pow2(k + x));
  }

  /** n at a place and y at a place k bits higher. */
  lemma PlacedHigher(n: nat, y: nat, k: nat, x: nat)
    ensures Sticks(n + Scale(y, k), Pow2(x), Scale(n, x) + Scale(y, k + x))
  {
    Rescaled(y, k, x);
    hide Pow2;
    assert (n + Scale(y, k)) * Pow2(x) == n * Pow2(x) + Scale(y, k) * Pow2(x);
  }

  lemma ScaleTwice(y: nat, k: nat, x: nat)
    ensures Scale(Scale(y, k), x) == Scale(y, k + x)
  {
    Rescaled(y, k, x);
  }

  // ----- sums of equal sign

  /** What a shift of at least 62 leaves of a product is below 2^63. */
  lemma JamBelow(y: nat, k: nat)
    requires y < Pow2(125) && k >= 62
    ensures Jam(y, Pow2(k)) < Pow2(63)
  {
    PowerEven(63);
    Pow2Add(62, 63);
    Pow2Monotonic(62, k);
    hide Pow2;
    MulMonotonic(Pow2(62), Pow2(k), Pow2(63));
    JamUnder(y, Pow2(k), Pow2(63));
  }

  lemma JamUnder(y: nat, d: nat, c: nat)
    requires d > 0 && c % 2 == 0 && y < d * c
    ensures Jam(y, d) < c
  {
    QuotientBelow(y, d, c);
  }

  lemma LowerIsAll(u: U128)
    requires Valid(u) && Wide(u) < TWO64
    ensures u.lower == Wide(u)
  {
  }

  /** The product is the smaller one. */
  lemma SumSmall(p: U128, am: nat, k: nat)
    requires IsProduct(p) && IsMantissa(am) && k >= 62
    ensures
      var m := Wrap64(am + StickyRight(p, k).lower);
      m == am + Jam(Wide(p), Pow2(k)) && Pow2(60) <= m < TWO64
  {
    StickyValue(p, k);
    JamBelow(Wide(p), k);
    assert Pow2(64) == 2 * Pow2(63) && Pow2(64) == TWO64 by { Pow2Values(); }
    Pow2Monotonic(60, 62);
    hide Pow2, Jam, StickyRight;
    LowerIsAll(StickyRight(p, k));
  }

  /** The mantissa moved to the place of the product: exactly, or with a sticky bit. */
  function Moved(am: nat, a: int): nat {
    if a < 0 then Scale(am, -a) else Jam(am, Pow2(a))
  }

  lemma MovedValue(am: nat, a: int)
    requires IsMantissa(am) && a > -62
    ensures
      var s := StickyRight(U128(am, 0), a);
      Valid(s) && Wide(s) == Moved(am, a) < Pow2(124)
  {
    MantissaWord(am);
    if a < 0 {
      ShiftLeftValue(U128(am, 0), -a);
      assert Scale(am, -a) < Pow2(124) by {
        BelowPower(am, 63, -a);
        Pow2Monotonic(63 - a, 124);
      }
      TwoTo128();
      hide Pow2;
      RemainderUnique(Scale(am, -a), TWO128, 0, Scale(am, -a));
    } else {
      StickyValue(U128(am, 0), a);
      JamAtMost(am, Pow2(a));
      assert Pow2(63) < Pow2(124) by { Pow2Monotonic(64, 124); }
    }
  }

  lemma MantissaWord(am: nat)
    requires am < Pow2(63)
    ensures Valid(U128(am, 0)) && Wide(U128(am, 0)) == am
  {
    assert Pow2(64) == 2 * Pow2(63) && Pow2(64) == TWO64 by { Pow2Values(); }
  }

  lemma TwoTo128()
    ensures Pow2(124) < TWO128 && Pow2(125) < TWO128 && Pow2(127) < TWO128 && Pow2(128) == TWO128
  {
    Pow2Add(64, 64);
    Pow2Values();
    Pow2Monotonic(124, 127);
    Pow2Monotonic(125, 127);
    assert Pow2(128) == 2 * Pow2(127);
  }

  lemma JamAtMost(y: nat, d: nat)
    requires d > 0
    ensures Jam(y, d) <= y
  {
    UpperBelow(y, d);
    if y % d != 0 && d > 1 {
      DivisionBounds(y, d);
      MulMonotonic(2, d, y / d);
    }
  }

  /** The product is the larger one. */
  lemma SumBig(p: U128, am: nat, a: int)
    requires IsProduct(p) && IsMantissa(am) && a > -62
    ensures
      var s := Add(p, StickyRight(U128(am, 0), a));
      Valid(s) && Wide(s) == Wide(p) + Moved(am, a) && Pow2(124) <= Wide(s) < Pow2(127)
  {
    var t := StickyRight(U128(am, 0), a);
    MovedValue(am, a);
    AddValue(p, t);
    TwoTo128();
    ProductPowers();
    assert Pow2(127) == 2 * Pow2(126);
    hide Pow2, Moved, StickyRight, Add, Wide;
    RemainderUnique(Wide(p) + Wide(t), TWO128, 0, Wide(p) + Wide(t));
  }

  lemma SumBigSticks(wp: nat, am: nat, pe: int, ae: int, b: int)
    requires wp % 2 == 0 && pe > ae && Deep(pe, ae, b)
    ensures Sticks(wp + Moved(am, pe - ae - 62), Pow2(pe - 124 - b), Scale(wp, pe - 124 - b) + Scale(am, ae - 62 - b))
  {
    var a := pe - ae - 62;
    hide Pow2, Sticks, Scale, Jam;
    if a < 0 {
      PlacedHigher(wp, am, -a, pe - 124 - b);
    } else {
      PlacedSum(wp, am, a, ae - 62 - b);
    }
  }

  /** r stands for a magnitude, in every unit deep enough, and is not misjudged when rounded. */
  ghost predicate Stands(r: Unpacked, v: nat, b: int) {
    b <= r.exponent - 62 && StandsFor(r, v, b)
  }

  /** r stands for the sum. */
  ghost predicate SumStands(r: Unpacked, pe: int, p: U128, ae: int, am: nat) {
    forall b :: Deep(pe, ae, b) ==> Stands(r, Scale(Wide(p), pe - 124 - b) + Scale(am, ae - 62 - b), b)
  }

  lemma SmallStands(sign: bool, pe: int, p: U128, ae: int, am: nat)
    requires IsProduct(p) && IsMantissa(am) && pe <= ae
    ensures SumStands(F.Unpacked(sign, ae, Wrap64(am + StickyRight(p, 62 - (pe - ae)).lower)), pe, p, ae, am)
  {
    hide Pow2, Sticks, Scale, Jam, Wide, StickyRight;
    var k := 62 - (pe - ae);
    var r := F.Unpacked(sign, ae, Wrap64(am + StickyRight(p, k).lower));
    SumSmall(p, am, k);
    forall b | Deep(pe, ae, b)
      ensures Stands(r, Scale(Wide(p), pe - 124 - b) + Scale(am, ae - 62 - b), b)
    {
      PlacedSum(am, Wide(p), k, pe - 124 - b);
    }
  }

  lemma BigStands(sign: bool, pe: int, p: U128, ae: int, am: nat)
    requires IsProduct(p) && IsMantissa(am) && pe > ae
    ensures
      var r := ReduceMantissa(sign, pe, Add(p, StickyRight(U128(am, 0), pe - ae - 62)));
      SumStands(r, pe, p, ae, am) && r.mantissa < Pow2(63)
  {
    hide Pow2, Sticks, Scale, Moved, Wide, Add, StickyRight, StandsFor;
    var a := pe - ae - 62;
    var s := Add(p, StickyRight(U128(am, 0), a));
    SumBig(p, am, a);
    ReducedBelow(s);
    forall b | Deep(pe, ae, b)
      ensures Stands(ReduceMantissa(sign, pe, s), Scale(Wide(p), pe - 124 - b) + Scale(am, ae - 62 - b), b)
    {
      SumBigSticks(Wide(p), am, pe, ae, b);
      ReducedPlain(sign, pe, s, Scale(Wide(p), pe - 124 - b) + Scale(am, ae - 62 - b), b);
    }
  }

  lemma ReducedPlain(sign: bool, exponent: int, m: U128, v: nat, b: int)
    requires Valid(m) && Wide(m) >= Pow2(124) && b <= exponent - 124 && Sticks(Wide(m), Pow2(exponent - 124 - b), v)
    ensures StandsFor(ReduceMantissa(sign, exponent, m), v, b)
  {
    assert Pow2(0) == 1;
    Reduced(sign, exponent, m, Wide(m), 0, v, b);
  }

  lemma ReducedBelow(m: U128)
    requires Valid(m) && Wide(m) < Pow2(127)
    ensures SetIf(m.upper, m.lower != 0) < Pow2(63)
  {
    hide Pow2;
    Pow2Add(63, 64);
    assert Pow2(64) == TWO64 by { Pow2Values(); }
    PowerEven(63);
    WordAtLeast(m, Pow2(63));
    SetUnder(m.upper, Pow2(63));
  }

  lemma SetUnder(x: nat, c: nat)
    requires x < c && c % 2 == 0
    ensures SetIf(x, true) < c
  {
  }

  /** Operands of equal sign. */
  method SumSame(sign: bool, pe: int, p: U128, ae: int, am: nat) returns (r: Unpacked)
    requires IsProduct(p) && IsMantissa(am)
    ensures r.sign == sign && (r.mantissa < Pow2(63) || r.exponent == ae) && SumStands(r, pe, p, ae, am)
  {
    var expDiff := pe - ae;
    if expDiff <= 0 {
      var result := Wrap64(am + StickyRight(p, 62 - expDiff).lower);
      SmallStands(sign, pe, p, ae, am);
      return F.Unpacked(sign, ae, result);
    }
    var result := Add(p, StickyRight(U128(am, 0), expDiff - 62));
    BigStands(sign, pe, p, ae, am);
    return ReduceMantissa(sign, pe, result);
  }

  // ----- differences

  /** The mantissa at the product's precision. */
  lemma LongAddend(am: nat)
    requires IsMantissa(am)
    ensures
      var l := ShiftLeft(U128(am, 0), 62);
      IsProduct(l) && Wide(l) == Scale(am, 62)
  {
    var v := Scale(am, 62);
    MantissaWord(am);
    ShiftLeftValue(U128(am, 0), 62);
    Pow2Add(62, 62);
    Pow2Add(63, 62);
    TwoTo128();
    assert v == am / 2 * 2 * Pow2(62);
    hide Pow2, ShiftLeft;
    MulMonotonic(Pow2(62), am, Pow2(62));
    MulMonotonic(am + 1, Pow2(63), Pow2(62));
    assert (am + 1) * Pow2(62) == am * Pow2(62) + Pow2(62);
    RemainderUnique(v, TWO128, 0, v);
    EvenScale(am, 62);
  }

  lemma EvenScale(m: nat, k: nat)
    requires m % 2 == 0
    ensures Scale(m, k) % 2 == 0
  {
    Associate(2, m / 2, Pow2(k));
    Parity(m / 2 * Pow2(k), 0);
  }

  /** n less y shifted down by k. */
  lemma DifferenceStep(n: U128, y: U128, k: nat)
    requires IsProduct(n) && IsProduct(y) && (k == 0 ==> Wide(n) >= Wide(y))
    ensures Jam(Wide(y), Pow2(k)) <= Wide(n)
    ensures
      var s := Sub(n, StickyRight(y, k));
      && Valid(s) && Wide(s) == Wide(n) - Jam(Wide(y), Pow2(k)) && Wide(s) < Pow2(125)
      && (Wide(s) >= TWO64 || k <= 1)
  {
    var t := StickyRight(y, k);
    hide Pow2, Wide, StickyRight, Sub, Jam;
    StickyValue(y, k);
    SubValue(n, t);
    TwoTo128();
    JamOfProduct(Wide(y), k);
    RemainderUnique(Wide(n) - Wide(t), TWO128, 0, Wide(n) - Wide(t));
  }

  lemma JamOfProduct(y: nat, k: nat)
    requires y < Pow2(125)
    ensures k == 0 ==> Jam(y, Pow2(k)) == y
    ensures k >= 1 ==> Jam(y, Pow2(k)) < Pow2(124)
    ensures k >= 2 ==> Jam(y, Pow2(k)) < Pow2(123) && Pow2(124) - Pow2(123) >= TWO64
  {
    if k == 0 {
      assert Pow2(0) == 1;
    } else {
      JamShifted(y, k, 1);
    }
    if k >= 2 {
      JamShifted(y, k, 2);
      assert Pow2(124) == 2 * Pow2(123);
      assert Pow2(123) >= TWO64 by { Pow2Monotonic(64, 123); Pow2Values(); }
    }
  }

  lemma JamShifted(y: nat, k: nat, j: nat)
    requires y < Pow2(125) && j <= k && j <= 2
    ensures Jam(y, Pow2(k)) < Pow2(125 - j)
  {
    Pow2Add(j, 125 - j);
    Pow2Monotonic(j, k);
    PowerEven(125 - j);
    hide Pow2, Jam;
    MulMonotonic(Pow2(j), Pow2(k), Pow2(125 - j));
    JamUnder(y, Pow2(k), Pow2(125 - j));
  }

  /** The result is the difference v, or stands for it if it is large. */
  predicate Differs(s: U128, exponent: int, b: int, v: nat) {
    && b <= exponent - 124 && Sticks(Wide(s), Pow2(exponent - 124 - b), v)
    && (Wide(s) >= TWO64 || Scale(Wide(s), exponent - 124 - b) == v)
  }

  lemma ExactJam(n: nat, y: nat, k: nat, x: nat)
    requires y % 2 == 0 && k <= 1 && Jam(y, Pow2(k)) <= n
    ensures Scale(n - Jam(y, Pow2(k)), k + x) == Scale(n, k + x) - Scale(y, x)
  {
    HalfExact(y, k);
    Pow2Add(k, x);
    hide Pow2, Jam;
    UnitsDiffer(n, Jam(y, Pow2(k)), y, Pow2(k), Pow2(x));
  }

  lemma HalfExact(y: nat, k: nat)
    requires y % 2 == 0 && k <= 1
    ensures Jam(y, Pow2(k)) * Pow2(k) == y
  {
    assert Pow2(k) == if k == 0 then 1 else 2;
  }

  lemma UnitsDiffer(n: nat, j: nat, y: nat, d: nat, w: nat)
    requires j * d == y && j <= n
    ensures (n - j) * (d * w) == n * (d * w) - y * w
  {
    var u := d * w;
    assert (n - j) * u == n * u - j * u;
    Associate(j, d, w);
  }

  lemma StepDiffers(n: U128, y: U128, k: nat, exponent: int, b: int)
    requires IsProduct(n) && IsProduct(y) && (k == 0 ==> Wide(n) >= Wide(y)) && b <= exponent - k - 124
    ensures Scale(Wide(n), exponent - 124 - b) >= Scale(Wide(y), exponent - k - 124 - b)
    ensures
      var s := Sub(n, StickyRight(y, k));
      Differs(s, exponent, b, Scale(Wide(n), exponent - 124 - b) - Scale(Wide(y), exponent - k - 124 - b))
  {
    hide Pow2, Wide, StickyRight, Sub, Jam, Scale, Sticks;
    DifferenceStep(n, y, k);
    PlacedDifference(Wide(n), Wide(y), k, exponent - k - 124 - b);
    if k <= 1 {
      ExactJam(Wide(n), Wide(y), k, exponent - k - 124 - b);
    }
  }

  // ----- the result of a difference

  lemma ShiftUp(m: U128)
    requires Valid(m) && m.upper > 0 && Wide(m) < Pow2(125)
    ensures
      var h := F.HighestSetBit(m.upper);
      && h <= 60
      && var t := ShiftLeft(m, 62 - h);
         Valid(t) && Wide(t) == Wide(m) * Pow2(62 - h) && Pow2(126) <= Wide(t) < Pow2(127)
  {
    var h := F.HighestSetBit(m.upper);
    TopWord(m, h);
    ShiftLeftValue(m, 62 - h);
    F.LeftBounds(Wide(m), h + 64, 62 - h);
    TwoTo128();
    hide Pow2, ShiftLeft, Wide;
    RemainderUnique(Wide(m) * Pow2(62 - h), TWO128, 0, Wide(m) * Pow2(62 - h));
  }

  lemma TopWord(m: U128, h: nat)
    requires Valid(m) && Pow2(h) <= m.upper < Pow2(h + 1) && Wide(m) < Pow2(125)
    ensures h <= 60 && Pow2(h + 64) <= Wide(m) < Pow2(h + 65)
  {
    Pow2Add(h, 64);
    Pow2Add(h + 1, 64);
    assert Pow2(64) == TWO64 by { Pow2Values(); }
    hide Pow2;
    WordAtLeast(m, Pow2(h));
    WordAtLeast(m, Pow2(h + 1));
    Pow2Below(h + 64, 125);
  }
}
