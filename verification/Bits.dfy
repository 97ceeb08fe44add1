/** Shifts, masks and bitwise-or on non-negative machine words, with the
    arithmetic each one stands for. */
module Bits {

  function Pow2(k: nat): (p: nat)
    ensures p > 0
  {
    if k == 0 then 1 else 2 * Pow2(k - 1)
  }

  function Shl(x: nat, k: nat): nat { x * Pow2(k) }

  function Shr(x: nat, k: nat): nat {
    QuotientIsNat(x, Pow2(k));
    x / Pow2(k)
  }

  lemma QuotientIsNat(x: nat, m: nat)
    requires m > 0
    ensures x / m >= 0
  {
    assert x == m * (x / m) + x % m;
    MultipleGap(x / m, m);
  }

  function BitOr(a: nat, b: nat): nat
    decreases a + b
  {
    if a == 0 && b == 0 then 0
    else (if a % 2 == 1 || b % 2 == 1 then 1 else 0) + 2 * BitOr(a / 2, b / 2)
  }

  function BitAnd(a: nat, b: nat): nat
    decreases a + b
  {
    if a == 0 || b == 0 then 0
    else (if a % 2 == 1 && b % 2 == 1 then 1 else 0) + 2 * BitAnd(a / 2, b / 2)
  }

  lemma {:induction false} OrZero(b: nat)
    ensures BitOr(0, b) == b
    ensures BitOr(b, 0) == b
  {
    if b > 0 { OrZero(b / 2); }
  }

  lemma {:induction false} OrCommutes(a: nat, b: nat)
    ensures BitOr(a, b) == BitOr(b, a)
    decreases a + b
  {
    if a > 0 || b > 0 { OrCommutes(a / 2, b / 2); }
  }

  lemma OrEven(a: nat, h: nat)
    ensures BitOr(a, 2 * h) == a % 2 + 2 * BitOr(a / 2, h)
  {
    assert (2 * h) % 2 == 0 && (2 * h) / 2 == h;
    if a == 0 { OrZero(h); OrZero(2 * h); }
  }

  /** Or-ing bits that lie wholly above the low `k` onto a `k`-bit number adds them. */
  lemma {:induction false} OrDisjoint(a: nat, b: nat, k: nat)
    requires a < Pow2(k)
    ensures BitOr(a, b * Pow2(k)) == a + b * Pow2(k)
    ensures BitOr(b * Pow2(k), a) == a + b * Pow2(k)
  {
    hide BitOr;
    OrCommutes(a, b * Pow2(k));
    if k == 0 {
      OrZero(b);
    } else {
      var h := b * Pow2(k - 1);
      DoubleProduct(b, Pow2(k - 1));
      OrDisjoint(a / 2, b, k - 1);
      OrEven(a, h);
    }
  }

  lemma DoubleProduct(b: nat, p: nat)
    ensures b * (2 * p) == 2 * (b * p)
  {}

  /** Masking with `k` one-bits is the remainder modulo 2^k. */
  lemma {:induction false} AndMask(x: nat, k: nat)
    ensures BitAnd(x, Pow2(k) - 1) == x % Pow2(k)
  {
    if k == 0 || x == 0 {
      assert x % 1 == 0;
      Remainder(0, 0, Pow2(k), 0);
    } else {
      hide BitAnd;
      AndMask(x / 2, k - 1);
      HalfModulo(x, Pow2(k - 1));
      AndOdd(x, Pow2(k - 1));
      assert Pow2(k) == 2 * Pow2(k - 1);
      hide Pow2;
    }
  }

  lemma AndOdd(x: nat, m: nat)
    requires x > 0 && m > 0
    ensures BitAnd(x, 2 * m - 1) == x % 2 + 2 * BitAnd(x / 2, m - 1)
  {
    assert (2 * m - 1) / 2 == m - 1 && (2 * m - 1) % 2 == 1;
  }

  lemma {:induction false} HalfModulo(x: nat, m: nat)
    requires m > 0
    ensures x % (2 * m) == x % 2 + 2 * ((x / 2) % m)
  {
    var q, r := x / 2 / m, x / 2 % m;
    assert x == 2 * (q * m + r) + x % 2;
    assert x == q * (2 * m) + (2 * r + x % 2);
    Remainder(x, q, 2 * m, 2 * r + x % 2);
  }

  lemma {:induction false} Remainder(x: nat, q: nat, m: nat, r: nat)
    requires m > 0 && r < m && x == q * m + r
    ensures x / m == q && x % m == r
  {
    var d := x / m - q;
    assert x == (x / m) * m + x % m;
    assert d * m == r - x % m by {
      assert (x / m) * m - q * m == d * m;
    }
    MultipleGap(d, m);
  }

  lemma MultipleGap(d: int, m: nat)
    ensures d * m >= m || d == 0 || d * m <= -(m as int)
  {
    if d > 0 { assert (d - 1) * m >= 0; }
    if d < 0 { assert (-1 - d) * m >= 0; }
  }

  lemma {:induction false} Pow2Add(a: nat, b: nat)
    ensures Pow2(a + b) == Pow2(a) * Pow2(b)
  {
    if a > 0 {
      Pow2Add(a - 1, b);
      assert Pow2(a + b) == 2 * (Pow2(a - 1) * Pow2(b));
    }
  }

  lemma {:induction false} Pow2Mono(a: nat, b: nat)
    requires a <= b
    ensures Pow2(a) <= Pow2(b)
    decreases b
  {
    if a < b { Pow2Mono(a, b - 1); }
  }

  /* ----- bit by bit ----- */

  /** Bit `k`, counted from the lowest. */
  function Bit(x: nat, k: nat): (b: nat)
    ensures b < 2
  {
    Shr(x, k) % 2
  }

  lemma BitZero(x: nat)
    ensures Bit(x, 0) == x % 2
  {
    assert Shr(x, 0) == x / 1;
  }

  lemma {:induction false} BitHalf(x: nat, k: nat)
    requires k > 0
    ensures Bit(x, k) == Bit(x / 2, k - 1)
  {
    var p, y := Pow2(k - 1), x / 2;
    QuotientIsNat(y, p);
    assert x == 2 * y + x % 2 && y == (y / p) * p + y % p;
    assert x == (y / p) * (2 * p) + (2 * (y % p) + x % 2) by { DoubleProduct(y / p, p); }
    Remainder(x, y / p, 2 * p, 2 * (y % p) + x % 2);
  }

  /** The bits of a bitwise or are those of either number. */
  lemma {:induction false} OrBits(a: nat, b: nat, k: nat)
    ensures Bit(BitOr(a, b), k) == 1 <==> Bit(a, k) == 1 || Bit(b, k) == 1
    decreases k
  {
    var c := BitOr(a, b);
    OrHalves(a, b);
    BitZero(a); BitZero(b); BitZero(c);
    hide Bit, BitOr;
    if k > 0 {
      BitHalf(a, k); BitHalf(b, k); BitHalf(c, k);
      OrBits(a / 2, b / 2, k - 1);
    }
  }

  lemma OrHalves(a: nat, b: nat)
    ensures var c := BitOr(a, b); c / 2 == BitOr(a / 2, b / 2) && (c % 2 == 1 <==> a % 2 == 1 || b % 2 == 1)
  {}

  /** The bits of a bitwise and are those of both numbers. */
  lemma {:induction false} AndBits(a: nat, b: nat, k: nat)
    ensures Bit(BitAnd(a, b), k) == 1 <==> Bit(a, k) == 1 && Bit(b, k) == 1
    decreases k
  {
    var c := BitAnd(a, b);
    AndHalves(a, b);
    BitZero(a); BitZero(b); BitZero(c);
    hide Bit, BitAnd;
    if k > 0 {
      BitHalf(a, k); BitHalf(b, k); BitHalf(c, k);
      AndBits(a / 2, b / 2, k - 1);
    }
  }

  lemma AndHalves(a: nat, b: nat)
    ensures var c := BitAnd(a, b); c / 2 == BitAnd(a / 2, b / 2) && (c % 2 == 1 <==> a % 2 == 1 && b % 2 == 1)
  {
    AndZero(b / 2);
    AndZero(a / 2);
  }

  lemma AndZero(b: nat)
    ensures BitAnd(0, b) == 0 && BitAnd(b, 0) == 0
  {}
}
