/** Bitwise operations on unbounded natural numbers, bit by bit. */
module Bits {

  function Pow2(n: nat): (p: nat)
    ensures p > 0
  {
    if n == 0 then 1 else 2 * Pow2(n - 1)
  }

  function BitAnd(x: nat, y: nat): nat {
    if x == 0 || y == 0 then 0 else x % 2 * (y % 2) + 2 * BitAnd(x / 2, y / 2)
  }

  function BitOr(x: nat, y: nat): nat {
    if x == 0 then y else if y == 0 then x
    else (if x % 2 == 1 || y % 2 == 1 then 1 else 0) + 2 * BitOr(x / 2, y / 2)
  }

  function BitXor(x: nat, y: nat): nat
    decreases x + y
  {
    if x == 0 then y else if y == 0 then x
    else (if x % 2 == y % 2 then 0 else 1) + 2 * BitXor(x / 2, y / 2)
  }

  lemma OrDouble(y: nat, lo: nat)
    requires BitOr(y, lo / 2) == y + lo / 2
    ensures BitOr(2 * y, lo) == 2 * y + lo
  {
  }

  lemma TimesDouble(hi: nat, p: nat)
    ensures hi * p >= 0 && hi * (2 * p) == 2 * (hi * p)
  {
  }

  /** Or-ing a number into zero low bits adds it. */
  lemma {:induction false} OrIsSum(hi: nat, k: nat, lo: nat)
    requires lo < Pow2(k)
    ensures hi * Pow2(k) >= 0 && BitOr(hi * Pow2(k), lo) == hi * Pow2(k) + lo
  {
    hide BitOr;
    if k == 0 {
      OrZero(hi);
      assert hi * Pow2(0) == hi;
    } else {
      OrIsSum(hi, k - 1, lo / 2);
      TimesDouble(hi, Pow2(k - 1));
      OrDouble(hi * Pow2(k - 1), lo);
    }
  }

  lemma OrZero(x: nat)
    ensures BitOr(x, 0) == x
  {
  }

  // ---- single bits ----

  function Quotient(x: nat, p: nat): nat
    requires p > 0
  {
    x / p
  }

  /** Bit k of x, counted from the lowest. */
  function Bit(x: nat, k: nat): (b: nat)
    ensures b < 2
  {
    Quotient(x, Pow2(k)) % 2
  }

  lemma AtLeastOnce(n: int, d: int)
    requires n >= 1 && d > 0
    ensures n * d >= d
  {
  }

  lemma SplitIsUnique(d: int, q: int, r: int, q': int, r': int)
    requires d > 0 && q * d + r == q' * d + r' && 0 <= r < d && 0 <= r' < d
    ensures q == q' && r == r'
  {
    assert (q - q') * d == r' - r && (q' - q) * d == r - r';
    if q > q' {
      AtLeastOnce(q - q', d);
    } else if q < q' {
      AtLeastOnce(q' - q, d);
    }
  }

  lemma DivisionSplits(x: int, d: int)
    requires d > 0
    ensures x == x / d * d + x % d && 0 <= x % d < d
  {
  }

  lemma QuotientIs(x: int, d: int, q: int, r: int)
    requires d > 0 && x == q * d + r && 0 <= r < d
    ensures x / d == q && x % d == r
  {
    DivisionSplits(x, d);
    SplitIsUnique(d, q, r, x / d, x % d);
  }

  /** Dividing by 2p halves first; what is left over halves too. */
  lemma HalfFirst(x: nat, p: nat)
    requires p > 0
    ensures x / (2 * p) == x / 2 / p && x % (2 * p) / 2 == x / 2 % p && x % (2 * p) % 2 == x % 2
  {
    var q, r := x / 2 / p, x / 2 % p;
    assert x / 2 == q * p + r;
    assert x == q * (2 * p) + (2 * r + x % 2);
    QuotientIs(x, 2 * p, q, 2 * r + x % 2);
  }

  lemma BitHalf(x: nat, k: nat)
    ensures Bit(x, 0) == x % 2 && Bit(x, k + 1) == Bit(x / 2, k)
  {
    HalfFirst(x, Pow2(k));
  }

  lemma {:induction false} AndBit(x: nat, y: nat, k: nat)
    ensures Bit(BitAnd(x, y), k) == if Bit(x, k) == 1 && Bit(y, k) == 1 then 1 else 0
  {
    HalfAnd(x, y);
    BitHalf(x, k);
    BitHalf(y, k);
    BitHalf(BitAnd(x, y), k);
    if k > 0 {
      AndBit(x / 2, y / 2, k - 1);
      BitHalf(x, k - 1);
      BitHalf(y, k - 1);
      BitHalf(BitAnd(x, y), k - 1);
    }
    hide BitAnd, Bit, Pow2;
  }

  lemma HalfAnd(x: nat, y: nat)
    ensures BitAnd(x, y) / 2 == BitAnd(x / 2, y / 2) && BitAnd(x, y) % 2 == if x % 2 == 1 && y % 2 == 1 then 1 else 0
  {
  }

  lemma {:induction false} OrBit(x: nat, y: nat, k: nat)
    ensures Bit(BitOr(x, y), k) == if Bit(x, k) == 1 || Bit(y, k) == 1 then 1 else 0
  {
    HalfOr(x, y);
    BitHalf(x, k);
    BitHalf(y, k);
    BitHalf(BitOr(x, y), k);
    if k > 0 {
      OrBit(x / 2, y / 2, k - 1);
      BitHalf(x, k - 1);
      BitHalf(y, k - 1);
      BitHalf(BitOr(x, y), k - 1);
    }
    hide BitOr, Bit, Pow2;
  }

  lemma HalfOr(x: nat, y: nat)
    ensures BitOr(x, y) / 2 == BitOr(x / 2, y / 2) && BitOr(x, y) % 2 == if x % 2 == 1 || y % 2 == 1 then 1 else 0
  {
  }

  lemma {:induction false} XorBit(x: nat, y: nat, k: nat)
    ensures Bit(BitXor(x, y), k) == if Bit(x, k) == Bit(y, k) then 0 else 1
  {
    HalfXor(x, y);
    BitHalf(x, k);
    BitHalf(y, k);
    BitHalf(BitXor(x, y), k);
    if k > 0 {
      XorBit(x / 2, y / 2, k - 1);
      BitHalf(x, k - 1);
      BitHalf(y, k - 1);
      BitHalf(BitXor(x, y), k - 1);
    }
    hide BitXor, Bit, Pow2;
  }

  lemma HalfXor(x: nat, y: nat)
    ensures BitXor(x, y) / 2 == BitXor(x / 2, y / 2) && BitXor(x, y) % 2 == if x % 2 == y % 2 then 0 else 1
  {
  }

  /** Subtracting from all ones flips every bit. */
  lemma {:induction false} FlipBit(x: nat, n: nat, k: nat)
    requires x < Pow2(n) && k < n
    ensures Bit(Pow2(n) - 1 - x, k) == 1 - Bit(x, k)
  {
    var y := Pow2(n) - 1 - x;
    assert Pow2(n) == 2 * Pow2(n - 1);
    assert y / 2 == Pow2(n - 1) - 1 - x / 2 && y % 2 == 1 - x % 2;
    hide Bit, Pow2;
    BitHalf(x, k);
    BitHalf(y, k);
    if k > 0 {
      FlipBit(x / 2, n - 1, k - 1);
      BitHalf(x, k - 1);
      BitHalf(y, k - 1);
    }
  }

  /** Multiplying by a power of two moves bits up. */
  lemma {:induction false} UpBit(x: nat, s: nat, k: nat)
    ensures x * Pow2(s) >= 0 && Bit(x * Pow2(s), k) == if k < s then 0 else Bit(x, k - s)
  {
    if s == 0 {
      assert x * Pow2(0) == x;
    } else {
      UpBit(x, s - 1, if k > 0 then k - 1 else 0);
      TimesDouble(x, Pow2(s - 1));
      var y := x * Pow2(s);
      assert y == 2 * (x * Pow2(s - 1));
      hide Bit, Pow2;
      BitHalf(y, if k > 0 then k - 1 else 0);
    }
  }

  /** Dividing by one moves them down. */
  lemma {:induction false} DownBit(x: nat, m: nat, k: nat)
    ensures Bit(Quotient(x, Pow2(m)), k) == Bit(x, k + m)
  {
    if m == 0 {
      assert x / 1 == x;
    } else {
      HalfFirst(x, Pow2(m - 1));
      DownBit(x / 2, m - 1, k);
      BitHalf(x, k + m - 1);
      hide Bit;
    }
  }

  /** Reducing modulo a power of two keeps the low bits. */
  lemma {:induction false} LowBit(x: nat, n: nat, k: nat)
    requires k < n
    ensures Bit(x % Pow2(n), k) == Bit(x, k)
  {
    HalfFirst(x, Pow2(n - 1));
    var y := x % Pow2(n);
    assert y / 2 == x / 2 % Pow2(n - 1) && y % 2 == x % 2;
    hide Bit, Pow2;
    BitHalf(x, k);
    BitHalf(y, k);
    if k > 0 {
      LowBit(x / 2, n - 1, k - 1);
      BitHalf(x, k - 1);
      BitHalf(y, k - 1);
    }
  }

  lemma {:induction false} NoHighBit(x: nat, n: nat, k: nat)
    requires x < Pow2(n) && n <= k
    ensures Bit(x, k) == 0
  {
    PowerMonotone(n, k);
    QuotientIs(x, Pow2(k), 0, x);
  }

  lemma {:induction false} PowerMonotone(n: nat, k: nat)
    requires n <= k
    ensures Pow2(n) <= Pow2(k)
  {
    if n < k {
      PowerMonotone(n, k - 1);
    }
  }

  /** Numbers with the same bits are the same. */
  lemma {:induction false} SameBits(x: nat, y: nat, n: nat)
    requires x < Pow2(n) && y < Pow2(n) && forall k: nat :: k < n ==> Bit(x, k) == Bit(y, k)
    ensures x == y
  {
    if n > 0 {
      assert Pow2(n) == 2 * Pow2(n - 1);
      hide Pow2, Bit;
      forall k: nat | k < n - 1
        ensures Bit(x / 2, k) == Bit(y / 2, k)
      {
        BitHalf(x, k);
        BitHalf(y, k);
        assert Bit(x, k + 1) == Bit(y, k + 1);
      }
      SameBits(x / 2, y / 2, n - 1);
      BitHalf(x, 0);
      BitHalf(y, 0);
      assert Bit(x, 0) == Bit(y, 0);
    }
  }
}
