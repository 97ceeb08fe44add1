/** Numbers as little-endian byte strings. */
module LittleEndian {
  import opened Bytes
  import opened Bits

  function Pow256(k: nat): (p: nat)
    ensures p > 0
  {
    if k == 0 then 1 else 256 * Pow256(k - 1)
  }

  /** Little-endian bytes of a number, and the number back. */
  function ToLE(n: nat, k: nat): (b: bytes)
    ensures |b| == k
  {
    if k == 0 then [] else [n % 256] + ToLE(n / 256, k - 1)
  }

  function FromLE(b: bytes): (n: nat)
    ensures n < Pow256(|b|)
  {
    if b == [] then 0 else b[0] as nat + 256 * FromLE(b[1..])
  }

  lemma {:induction false} FromToLE(n: nat, k: nat)
    requires n < Pow256(k)
    ensures FromLE(ToLE(n, k)) == n
  {
    if k > 0 {
      FromToLE(n / 256, k - 1);
      assert ToLE(n, k)[1..] == ToLE(n / 256, k - 1);
    }
  }

  lemma {:induction false} ToFromLE(b: bytes)
    ensures ToLE(FromLE(b), |b|) == b
  {
    if b != [] {
      ToFromLE(b[1..]);
      var n := FromLE(b);
      assert n % 256 == b[0] && n / 256 == FromLE(b[1..]);
      assert b == [b[0]] + b[1..];
    }
  }

  lemma {:induction false} Pow256IsPow2(k: nat)
    ensures Pow256(k) == Pow2(8 * k)
  {
    if k > 0 {
      Pow256IsPow2(k - 1);
      Pow2Add(8, 8 * (k - 1));
      assert Pow2(8) == 256 by { assert Pow2(4) == 16; }
    }
  }

  /** A byte string cut in two: the second part counts 256^i times. */
  lemma {:induction false} FromLESplit(s: bytes, i: nat)
    requires i <= |s|
    ensures FromLE(s) == FromLE(s[..i]) + Pow256(i) * FromLE(s[i..])
  {
    if i == 0 {
      assert s[0..] == s;
    } else {
      FromLESplit(s[1..], i - 1);
      assert s[1..][..i - 1] == s[..i][1..] && s[1..][i - 1..] == s[i..];
      ShiftedByOne(FromLE(s[..i][1..]), Pow256(i - 1), FromLE(s[i..]));
    }
  }

  lemma ShiftedByOne(a: nat, p: nat, t: nat)
    ensures 256 * (a + p * t) == 256 * a + (256 * p) * t
  {}

  /** The `i`-th byte of a number is its digit of weight 256^i. */
  lemma {:induction false} ToLEAt(n: nat, k: nat, i: nat)
    requires i < k
    ensures ToLE(n, k)[i] == n / Pow256(i) % 256
    decreases k
  {
    if i > 0 {
      ToLEAt(n / 256, k - 1, i - 1);
      QuotientTwice(n, Pow256(i - 1));
    }
  }

  lemma QuotientTwice(n: nat, p: nat)
    requires p > 0
    ensures n / 256 / p == n / (256 * p)
  {
    var y := n / 256;
    QuotientIsNat(y, p);
    assert n == 256 * y + n % 256 && y == (y / p) * p + y % p;
    ShiftedByOne(y % p, p, y / p);
    assert n == (y / p) * (256 * p) + (256 * (y % p) + n % 256);
    Remainder(n, y / p, 256 * p, 256 * (y % p) + n % 256);
  }
}
