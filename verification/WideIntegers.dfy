/** Integers of 128 bits as pairs of 64-bit words: sums and differences with their carries, the product
    of two words from its four partial products, and shifts, one of which keeps a sticky bit. */
module WideIntegers {
  import opened Arithmetic

  datatype U128 = U128(lower: nat, upper: nat)

  predicate Valid(u: U128) {
    u.lower < TWO64 && u.upper < TWO64
  }

  function Wide(u: U128): nat {
    u.upper * TWO64 + u.lower
  }

  // ----- sums, differences and products

  function Add(a: U128, b: U128): U128 {
    var lower := Wrap64(a.lower + b.lower);
    U128(lower, Wrap64(a.upper + b.upper + if a.lower > lower then 1 else 0))
  }

  function Sub(a: U128, b: U128): U128 {
    var lower := Wrap64(a.lower - b.lower);
    U128(lower, Wrap64(a.upper - b.upper - if a.lower < lower then 1 else 0))
  }

  lemma AddValue(a: U128, b: U128)
    requires Valid(a) && Valid(b)
    ensures Valid(Add(a, b)) && Wide(Add(a, b)) == (Wide(a) + Wide(b)) % TWO128
  {
    var r := Add(a, b);
    var carry := if a.lower > r.lower then 1 else 0;
    assert r.lower == a.lower + b.lower - carry * TWO64;
    var top := a.upper + b.upper + carry;
    assert r.upper == top - (if top >= TWO64 then TWO64 else 0);
    RemainderUnique(Wide(a) + Wide(b), TWO128, if top >= TWO64 then 1 else 0, Wide(r));
  }

  lemma SubValue(a: U128, b: U128)
    requires Valid(a) && Valid(b)
    ensures Valid(Sub(a, b)) && Wide(Sub(a, b)) == (Wide(a) - Wide(b)) % TWO128
  {
    var r := Sub(a, b);
    var borrow := if a.lower < r.lower then 1 else 0;
    assert r.lower == a.lower - b.lower + borrow * TWO64;
    var top := a.upper - b.upper - borrow;
    assert r.upper == top + (if top < 0 then TWO64 else 0);
    RemainderUnique(Wide(a) - Wide(b), TWO128, if top < 0 then -1 else 0, Wide(r));
  }

  predicate Greater(a: U128, b: U128) {
    a.upper > b.upper || (a.upper == b.upper && a.lower > b.lower)
  }

  lemma GreaterValue(a: U128, b: U128)
    requires Valid(a) && Valid(b)
    ensures Greater(a, b) <==> Wide(a) > Wide(b)
  {
  }

  /** The product of two words. */
  function Multiply(a: nat, b: nat): U128
    requires a < TWO64 && b < TWO64
  {
    var a0, b0, a1, b1 := a % TWO32, b % TWO32, a / TWO32, b / TWO32;
    var c0, c10, c11, c2 := Times(a0, b0), Times(a1, b0), Times(a0, b1), Times(a1, b1);
    var c1 := Wrap64(c10 + c11);
    var c1Overflow := if c1 < c10 then 1 else 0;
    var lower := Wrap64(c0 + Wrap64(c1 * TWO32));
    var lowerOverflow := if lower < c0 then 1 else 0;
    U128(lower, Wrap64(lowerOverflow + c1 / TWO32 + c1Overflow * TWO32 + c2))
  }

  lemma PartialBelow(a: nat, b: nat)
    requires a < TWO32 && b < TWO32
    ensures Times(a, b) <= (TWO32 - 1) * (TWO32 - 1)
  {
    MulMonotonic(a, TWO32 - 1, b);
    MulMonotonic(b, TWO32 - 1, TWO32 - 1);
  }

  /** From the partial products to the product, the two carries included. */
  lemma PartialSum(c0: nat, c10: nat, c11: nat, c2: nat)
    requires c0 <= (TWO32 - 1) * (TWO32 - 1) && c10 <= (TWO32 - 1) * (TWO32 - 1)
    requires c11 <= (TWO32 - 1) * (TWO32 - 1) && c2 <= (TWO32 - 1) * (TWO32 - 1)
    requires c2 * TWO64 + (c10 + c11) * TWO32 + c0 < TWO128
    ensures
      var c1 := Wrap64(c10 + c11);
      var lower := Wrap64(c0 + Wrap64(c1 * TWO32));
      var top := (if lower < c0 then 1 else 0) + c1 / TWO32 + (if c1 < c10 then 1 else 0) * TWO32 + c2;
      top < TWO64 && top * TWO64 + lower == c2 * TWO64 + (c10 + c11) * TWO32 + c0
  {
    var c1 := Wrap64(c10 + c11);
    var over := if c1 < c10 then 1 else 0;
    assert c1 == c10 + c11 - over * TWO64;
    var h, l := c1 / TWO32, c1 % TWO32;
    assert c1 == h * TWO32 + l;
    RemainderUnique(c1 * TWO32, TWO64, h, l * TWO32);
    var lower := Wrap64(c0 + l * TWO32);
    assert lower == c0 + l * TWO32 - (if lower < c0 then TWO64 else 0);
  }

  lemma MultiplyValue(a: nat, b: nat)
    requires a < TWO64 && b < TWO64
    ensures Valid(Multiply(a, b)) && Wide(Multiply(a, b)) == Times(a, b)
  {
    hide Times, Wrap64;
    var a0, b0, a1, b1 := a % TWO32, b % TWO32, a / TWO32, b / TWO32;
    var c0, c10, c11, c2 := Times(a0, b0), Times(a1, b0), Times(a0, b1), Times(a1, b1);
    ProductInParts(a, b);
    PartialSum(c0, c10, c11, c2);
    var c1 := Wrap64(c10 + c11);
    var lower := Wrap64(c0 + Wrap64(c1 * TWO32));
    WrapNothing((if lower < c0 then 1 else 0) + c1 / TWO32 + (if c1 < c10 then 1 else 0) * TWO32 + c2);
  }

  lemma WrapNothing(x: nat)
    requires x < TWO64
    ensures Wrap64(x) == x
  {
  }

  lemma ProductInParts(a: nat, b: nat)
    requires a < TWO64 && b < TWO64
    ensures
      var a0, b0, a1, b1, m := a % TWO32, b % TWO32, a / TWO32, b / TWO32, (TWO32 - 1) * (TWO32 - 1);
      && Times(a0, b0) <= m && Times(a1, b0) <= m && Times(a0, b1) <= m && Times(a1, b1) <= m
      && Times(a1, b1) * TWO64 + (Times(a1, b0) + Times(a0, b1)) * TWO32 + Times(a0, b0) == Times(a, b) < TWO128
  {
    hide Times;
    var a0, b0, a1, b1 := a % TWO32, b % TWO32, a / TWO32, b / TWO32;
    PartialBelow(a0, b0);
    PartialBelow(a1, b0);
    PartialBelow(a0, b1);
    PartialBelow(a1, b1);
    assert a == a1 * TWO32 + a0 && b == b1 * TWO32 + b0;
    FourProducts(a0, a1, b0, b1);
    ProductBelow128(a, b);
  }

  lemma FourProducts(a0: nat, a1: nat, b0: nat, b1: nat)
    ensures Times(a1 * TWO32 + a0, b1 * TWO32 + b0)
         == Times(a1, b1) * TWO64 + (Times(a1, b0) + Times(a0, b1)) * TWO32 + Times(a0, b0)
  {
  }

  lemma ProductBelow128(a: nat, b: nat)
    requires a < TWO64 && b < TWO64
    ensures Times(a, b) < TWO128
  {
    MulMonotonic(a, TWO64 - 1, b);
    MulMonotonic(b, TWO64 - 1, TWO64 - 1);
  }

  // ----- shifts

  /** A word shifted left, the bits above it lost. */
  function Left(x: nat, amount: nat): (w: nat)
    ensures w < TWO64
  {
    Wrap64(Times(x, Pow2(amount)))
  }

  function Right(x: nat, amount: nat): nat {
    Quotient(x, Pow2(amount))
  }

  function ShiftLeft(u: U128, amount: int): U128
    decreases amount < 0
  {
    if amount < 0 then ShiftRight(u, -amount)
    else if amount == 0 then u
    else if amount < 64 then
      U128(Left(u.lower, amount), Left(u.upper, amount) + Right(u.lower, 64 - amount))
    else if amount < 128 then U128(0, Left(u.lower, amount - 64))
    else U128(0, 0)
  }

  function ShiftRight(u: U128, amount: int): U128
    decreases amount < 0
  {
    if amount < 0 then ShiftLeft(u, -amount)
    else if amount == 0 then u
    else if amount < 64 then
      U128(Right(u.lower, amount) + Left(u.upper, 64 - amount), Right(u.upper, amount))
    else if amount < 128 then U128(Right(u.upper, amount - 64), 0)
    else U128(0, 0)
  }

  /** The lowest bit set. */
  function SetLowest(x: nat): nat {
    if x % 2 == 0 then x + 1 else x
  }

  function SetIf(x: nat, sticky: bool): nat {
    if sticky then SetLowest(x) else x
  }

  /** The shift that sets the lowest bit if it shifts out a one. */
  function StickyRight(u: U128, amount: int): U128 {
    if amount < 0 then ShiftLeft(u, -amount)
    else if amount == 0 then u
    else if amount < 64 then
      U128(SetIf(Right(u.lower, amount) + Left(u.upper, 64 - amount), Left(u.lower, 64 - amount) != 0),
           Right(u.upper, amount))
    else if amount == 64 then U128(SetIf(u.upper, u.lower != 0), 0)
    else if amount < 128 then
      U128(SetIf(SetIf(Right(u.upper, amount - 64), u.lower != 0), Left(u.upper, 128 - amount) != 0), 0)
    else U128(if u.lower != 0 || u.upper != 0 then 1 else 0, 0)
  }

  /** A quotient, its lowest bit set if the division leaves a remainder. */
  function Jam(x: nat, d: nat): nat
    requires d > 0
  {
    SetIf(x / d, x % d != 0)
  }

  /** The bits that a word shifted left loses, and the ones it keeps. */
  lemma LeftSplits(x: nat, a: nat)
    requires a <= 64
    ensures Times(x, Pow2(a)) == Right(x, 64 - a) * TWO64 + Left(x, a)
    ensures Left(x, a) == Times(x % Pow2(64 - a), Pow2(a))
    ensures Left(x, a) != 0 <==> x % Pow2(64 - a) != 0
  {
    var p, c := Pow2(a), Pow2(64 - a);
    Pow2Add(64 - a, a);
    assert c * p == TWO64 by { Pow2Values(); }
    hide Pow2, Times;
    PowerSplits(x, c, p);
  }

  lemma PowerSplits(x: nat, c: nat, p: nat)
    requires c > 0 && p > 0 && c * p == TWO64
    ensures Times(x, p) == Quotient(x, c) * TWO64 + Wrap64(Times(x, p))
    ensures Wrap64(Times(x, p)) == Times(x % c, p) && (Times(x % c, p) != 0 <==> x % c != 0)
  {
    var q, r := x / c, x % c;
    assert x == q * c + r;
    SplitProduct(q, c, r, p);
    LessProduct(r, c, p);
    hide Times;
    RemainderUnique(Times(x, p), TWO64, q, Times(r, p));
  }

  lemma SplitProduct(q: nat, c: nat, r: nat, p: nat)
    ensures Times(q * c + r, p) == q * (c * p) + Times(r, p)
  {
    Associate(q, c, p);
  }

  lemma LessProduct(r: nat, c: nat, p: nat)
    requires r < c && p > 0
    ensures Times(r, p) < c * p && (r > 0 <==> Times(r, p) > 0)
  {
    MulMonotonic(r + 1, c, p);
    if r > 0 {
      MulMonotonic(1, r, p);
    }
  }

  lemma PartBelow(x: nat, c: nat, p: nat)
    requires c > 0 && p > 0
    ensures Times(x % c, p) + p <= c * p
  {
    var r := x % c;
    MulMonotonic(r + 1, c, p);
    assert (r + 1) * p == Times(r, p) + p;
  }

  /** Both words shifted left by less than a word. */
  lemma LeftWords(u: U128, a: nat)
    requires Valid(u) && a <= 64
    ensures
      var top := Left(u.upper, a) + Right(u.lower, 64 - a);
      && top < TWO64
      && Times(u.upper, Pow2(a)) * TWO64 + Times(u.lower, Pow2(a))
         == Right(u.upper, 64 - a) * TWO128 + top * TWO64 + Left(u.lower, a)
  {
    var p, c := Pow2(a), Pow2(64 - a);
    WordPowers(a);
    LeftSplits(u.upper, a);
    LeftSplits(u.lower, a);
    QuotientBelow(u.lower, c, p);
    PartBelow(u.upper, c, p);
    hide Pow2, Left, Times, Quotient;
  }

  lemma WordPowers(a: nat)
    requires a <= 64
    ensures Pow2(64 - a) * Pow2(a) == TWO64 == Pow2(a) * Pow2(64 - a)
  {
    Pow2Add(64 - a, a);
    Pow2Values();
  }

  lemma Spread(u: U128, p: nat)
    ensures Times(Wide(u), p) == Times(u.upper, p) * TWO64 + Times(u.lower, p)
  {
  }

  lemma ShiftLeftValue(u: U128, a: nat)
    requires Valid(u)
    ensures Valid(ShiftLeft(u, a)) && Wide(ShiftLeft(u, a)) == Times(Wide(u), Pow2(a)) % TWO128
  {
    if a == 0 {
      RemainderUnique(Wide(u), TWO128, 0, Wide(u));
    } else if a < 64 {
      LeftWords(u, a);
      Spread(u, Pow2(a));
      hide Times, Pow2, Left, Right;
      RemainderUnique(Times(Wide(u), Pow2(a)), TWO128, Right(u.upper, 64 - a), Wide(ShiftLeft(u, a)));
    } else if a < 128 {
      LeftSplits(u.lower, a - 64);
      Spread(u, Pow2(a));
      PowerOver(u.lower, a);
      PowerOver(u.upper, a);
      hide Times, Pow2, Left, Right;
      RemainderUnique(Times(Wide(u), Pow2(a)), TWO128,
                      Times(u.upper, Pow2(a - 64)) + Right(u.lower, 128 - a), Wide(ShiftLeft(u, a)));
    } else {
      PowerOver(Wide(u), a);
      PowerOver(Wide(u), a - 64);
      hide Times, Pow2;
      RemainderUnique(Times(Wide(u), Pow2(a)), TWO128, Times(Wide(u), Pow2(a - 128)), 0);
    }
  }

  lemma PowerOver(x: nat, a: nat)
    requires a >= 64
    ensures Times(x, Pow2(a)) == Times(x, Pow2(a - 64)) * TWO64
  {
    assert Pow2(64) == TWO64 by { Pow2Values(); }
    Pow2Add(a - 64, 64);
    Associate(x, Pow2(a - 64), TWO64);
  }

  /** What a right shift divides by, and whether it shifts out a one. */
  lemma ShiftRightValue(u: U128, a: nat)
    requires Valid(u)
    ensures Valid(ShiftRight(u, a)) && Wide(ShiftRight(u, a)) == Quotient(Wide(u), Pow2(a))
    ensures Wide(u) % Pow2(a) != 0 <==>
            if a < 64 then u.lower % Pow2(a) != 0
            else u.lower != 0 || (if a < 128 then u.upper % Pow2(a - 64) else u.upper) != 0
  {
    if a == 0 {
    } else if a < 64 {
      RightWords(u, a);
    } else if a < 128 {
      UpperWord(u, a);
    } else {
      assert Pow2(a) >= TWO128 by { Pow2Monotonic(128, a); Pow2Add(64, 64); Pow2Values(); }
      hide Pow2;
      RemainderUnique(Wide(u), Pow2(a), 0, Wide(u));
    }
  }

  lemma RightWords(u: U128, a: nat)
    requires Valid(u) && 0 < a < 64
    ensures Valid(ShiftRight(u, a)) && Wide(ShiftRight(u, a)) == Quotient(Wide(u), Pow2(a))
    ensures Wide(u) % Pow2(a) == u.lower % Pow2(a)
  {
    var p, c := Pow2(a), Pow2(64 - a);
    WordPowers(a);
    LeftSplits(u.upper, 64 - a);
    QuotientBelow(u.lower, p, c);
    UpperBelow(u.upper, p);
    PartBelow(u.upper, p, c);
    TwoWords(u.upper, u.lower, p, c);
    hide Pow2, Left, Times, Quotient;
  }

  lemma UpperBelow(x: nat, p: nat)
    requires p > 0
    ensures Quotient(x, p) <= x
  {
    var q := x / p;
    assert q >= 0 && q * p <= x by { DivisionBounds(x, p); }
    MulMonotonic(1, p, q);
  }

  /** The quotient and the remainder of two words by a divisor of the word size. */
  lemma TwoWords(upper: nat, lower: nat, p: nat, c: nat)
    requires p > 0 && c * p == TWO64
    ensures Quotient(upper * TWO64 + lower, p) == Times(upper, c) + Quotient(lower, p)
    ensures (upper * TWO64 + lower) % p == lower % p
  {
    var q, r, t := lower / p, lower % p, upper * c;
    assert lower == q * p + r;
    Associate(upper, c, p);
    assert (t + q) * p == t * p + q * p;
    RemainderUnique(upper * TWO64 + lower, p, t + q, r);
  }

  lemma UpperWord(u: U128, a: nat)
    requires Valid(u) && 64 <= a < 128
    ensures Right(u.upper, a - 64) < TWO64 && Right(u.upper, a - 64) == Quotient(Wide(u), Pow2(a))
    ensures Wide(u) % Pow2(a) != 0 <==> u.lower != 0 || u.upper % Pow2(a - 64) != 0
  {
    var p := Pow2(a - 64);
    assert Pow2(a) == p * TWO64 by { Pow2Add(a - 64, 64); Pow2Values(); }
    hide Pow2;
    UpperBelow(u.upper, p);
    LongDivisor(u.upper, u.lower, p);
  }

  lemma LongDivisor(upper: nat, lower: nat, p: nat)
    requires p > 0 && lower < TWO64
    ensures Quotient(upper * TWO64 + lower, p * TWO64) == Quotient(upper, p)
    ensures (upper * TWO64 + lower) % (p * TWO64) == upper % p * TWO64 + lower
  {
    var q, r := upper / p, upper % p;
    assert upper == q * p + r;
    Associate(q, p, TWO64);
    RemainderUnique(upper * TWO64 + lower, p * TWO64, q, r * TWO64 + lower);
  }

  lemma SetWide(u: U128, sticky: bool)
    ensures Wide(U128(SetIf(u.lower, sticky), u.upper)) == SetIf(Wide(u), sticky)
  {
    Parity(u.upper * 0x8000_0000_0000_0000, u.lower);
  }

  lemma SetBelow(x: nat, sticky: bool)
    requires x < TWO64
    ensures SetIf(x, sticky) < TWO64
  {
  }

  lemma StickyValue(u: U128, a: nat)
    requires Valid(u)
    ensures Valid(StickyRight(u, a)) && Wide(StickyRight(u, a)) == Jam(Wide(u), Pow2(a))
  {
    var s := ShiftRight(u, a);
    ShiftRightValue(u, a);
    SetWide(s, Wide(u) % Pow2(a) != 0);
    SetBelow(s.lower, Wide(u) % Pow2(a) != 0);
    StickyShift(u, a);
    hide *;
  }

  lemma StickyShift(u: U128, a: nat)
    requires Valid(u)
    ensures
      var s := ShiftRight(u, a);
      StickyRight(u, a) == U128(SetIf(s.lower, Wide(u) % Pow2(a) != 0), s.upper)
  {
    ShiftRightValue(u, a);
    hide Pow2, Left, Right, Wide, Valid, SetIf;
    if 0 < a < 64 {
      LeftSplits(u.lower, 64 - a);
    } else if a == 64 {
      ShiftByNone(u.upper);
    } else if 64 < a < 128 {
      LeftSplits(u.upper, 128 - a);
      SetEither(Right(u.upper, a - 64), u.lower != 0, Left(u.upper, 128 - a) != 0);
    } else if a >= 128 {
      SetEither(0, u.lower != 0, u.upper != 0);
    }
  }

  lemma SetEither(x: nat, a: bool, b: bool)
    ensures SetIf(SetIf(x, a), b) == SetIf(x, a || b)
    ensures SetIf(0, a) == if a then 1 else 0
    ensures SetIf(0, a || b) == if a || b then 1 else 0
  {
  }

  lemma ShiftByNone(x: nat)
    ensures Right(x, 0) == x && x % Pow2(0) == 0
  {
  }
}
