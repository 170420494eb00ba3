/** Machine words as bit sequences, least significant bit first, with the conversions to and
    from integers and their inverse laws. */
module Words {
  import opened Arithmetic

  type Word = w: seq<bool> | |w| == 32 witness seq(32, _ => false)

  /** The low `k` bits of `n`, two's complement for negative `n`. */
  function Bits(n: int, k: nat): (b: seq<bool>)
    ensures |b| == k
    decreases k
  {
    if k == 0 then [] else [n % 2 == 1] + Bits(n / 2, k - 1)
  }

  /** The number a bit sequence writes. */
  function Nat(b: seq<bool>): (n: nat)
    ensures n < Pow2(|b|)
  {
    if b == [] then 0 else (if b[0] then 1 else 0) + 2 * Nat(b[1..])
  }

  /** A conversion to uint32_t. */
  function U32(n: int): Word {
    Bits(n, 32)
  }

  /** Two's complement reading of a bit sequence. */
  function SignedNat(b: seq<bool>): int
    requires b != []
  {
    if b[|b| - 1] then Nat(b) - Pow2(|b|) else Nat(b)
  }

  /** n is a k-bit two's complement number. */
  predicate FitsSigned(n: int, k: nat)
    requires k > 0
  {
    0 <= n + Pow2(k - 1) && n < Pow2(k - 1)
  }

  function Or(a: Word, b: Word): Word {
    seq(32, j requires 0 <= j < 32 => a[j] || b[j])
  }

  /** Bits lo..hi of `x` moved so that bit lo lands at position `at`: a mask and a shift. */
  function Field(x: Word, lo: nat, hi: nat, at: nat): Word
    requires lo <= hi <= 32 && at + (hi - lo) <= 32
  {
    seq(32, j requires 0 <= j < 32 => at <= j < at + (hi - lo) && x[j - at + lo])
  }

  // ----- inverse laws

  /** A prefix of the bits of an integer is the integer modulo a power of two. */
  lemma {:induction false} BitsPrefix(n: int, k: nat, j: nat)
    requires j <= k
    ensures Bits(n, k)[..j] == Bits(n, j)
    decreases j
  {
    if j > 0 {
      BitsPrefix(n / 2, k - 1, j - 1);
      assert Bits(n, k)[..j] == [n % 2 == 1] + Bits(n / 2, k - 1)[..j - 1];
    }
  }

  lemma {:induction false} NatOfBits(n: int, k: nat)
    ensures Nat(Bits(n, k)) == n % Pow2(k)
    decreases k
  {
    if k > 0 {
      NatOfBits(n / 2, k - 1);
      assert Bits(n, k)[1..] == Bits(n / 2, k - 1);
      ModHalves(n, Pow2(k - 1));
    }
  }

  lemma {:induction false} BitsOfNat(b: seq<bool>)
    ensures Bits(Nat(b), |b|) == b
    decreases |b|
  {
    if b != [] {
      BitsOfNat(b[1..]);
      var n := Nat(b);
      assert n / 2 == Nat(b[1..]) && (n % 2 == 1 <==> b[0]);
      assert b == [b[0]] + b[1..];
    }
  }

  /** A number written in two parts. */
  lemma {:induction false} NatSplit(b: seq<bool>, k: nat)
    requires k <= |b|
    ensures Nat(b) == Nat(b[..k]) + Times(Pow2(k), Nat(b[k..]))
    decreases k
  {
    if k == 0 {
      assert b[..0] == [] && b[0..] == b;
    } else {
      assert b[..k][1..] == b[1..][..k - 1] && b[1..][k - 1..] == b[k..];
      NatSplit(b[1..], k - 1);
      TwiceTimes(Pow2(k - 1), Nat(b[k..]));
      hide Times;
    }
  }

  lemma TwiceTimes(a: nat, b: nat)
    ensures Times(2 * a, b) == 2 * Times(a, b)
  {
  }

  /** The top bit of a converted integer is its sign when it is in range. */
  lemma {:induction false} SignBit(n: int, k: nat)
    requires k > 0 && FitsSigned(n, k)
    ensures Bits(n, k)[k - 1] == (n < 0)
    decreases k
  {
    if k == 1 {
      assert Pow2(0) == 1;
    } else {
      assert Pow2(k - 1) == 2 * Pow2(k - 2);
      SignBit(n / 2, k - 1);
      assert Bits(n, k)[k - 1] == Bits(n / 2, k - 1)[k - 2];
    }
  }

  /** Conversion and signed reading are inverse on the signed range. */
  lemma SignedReadBack(n: int, k: nat)
    requires k > 0 && FitsSigned(n, k)
    ensures SignedNat(Bits(n, k)) == n
  {
    assert Pow2(k) == 2 * Pow2(k - 1);
    SignBit(n, k);
    NatOfBits(n, k);
    if n < 0 {
      RemainderUnique(n, Pow2(k), -1, n + Pow2(k));
    } else {
      RemainderUnique(n, Pow2(k), 0, n);
    }
  }

  /** Dropping the lowest bit of the encoding reads back the integer rounded down to even. */
  lemma EvenReadBack(n: int, k: nat)
    requires k > 1 && FitsSigned(n, k)
    ensures SignedNat([false] + Bits(n, k)[1..]) == n - n % 2
  {
    var m := n - n % 2;
    assert Pow2(k - 1) == 2 * Pow2(k - 2);
    assert m / 2 == n / 2 && m % 2 == 0;
    assert Bits(n, k) == [n % 2 == 1] + Bits(n / 2, k - 1);
    assert Bits(m, k) == [false] + Bits(n / 2, k - 1);
    assert [false] + Bits(n, k)[1..] == Bits(m, k);
    SignedReadBack(m, k);
  }
}
