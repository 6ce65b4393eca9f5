/** Bitwise operations on natural numbers. */
module Bits {

  function Pow2(k: nat): (r: nat)
    ensures r >= 1
  {
    if k == 0 then 1 else 2 * Pow2(k - 1)
  }

  lemma Powers()
    ensures Pow2(8) == 0x100 && Pow2(16) == 0x1_0000 && Pow2(24) == 0x100_0000 && Pow2(32) == 0x1_0000_0000
  {
    assert Pow2(4) == 16;
    assert Pow2(8) == 0x100;
    assert Pow2(12) == 0x1000;
    assert Pow2(16) == 0x1_0000;
    assert Pow2(20) == 0x10_0000;
    assert Pow2(24) == 0x100_0000;
    assert Pow2(28) == 0x1000_0000;
  }

  function BitOr(x: nat, y: nat): nat {
    if x == 0 && y == 0 then 0
    else 2 * BitOr(x / 2, y / 2) + (if x % 2 == 1 || y % 2 == 1 then 1 else 0)
  }

  function BitAnd(x: nat, y: nat): nat {
    if x == 0 || y == 0 then 0
    else 2 * BitAnd(x / 2, y / 2) + (if x % 2 == 1 && y % 2 == 1 then 1 else 0)
  }

  /** Fields that do not overlap: `or` is addition. */
  lemma {:induction false} OrDisjoint(x: nat, y: nat, k: nat)
    requires y < Pow2(k)
    ensures BitOr(x * Pow2(k), y) == x * Pow2(k) + y
    decreases k, x
  {
    if k == 0 {
      OrZero(x);
    } else {
      var h := x * Pow2(k - 1);
      assert x * Pow2(k) == 2 * h;
      OrDisjoint(x, y / 2, k - 1);
    }
  }

  lemma {:induction false} OrZero(x: nat)
    ensures BitOr(x, 0) == x
  {
    if x != 0 {
      OrZero(x / 2);
    }
  }

  /** Masking a k-bit number, and filling the masked-out bits, both stay within k bits. */
  lemma {:induction false} AndBounds(x: nat, m: nat, k: nat)
    requires x < Pow2(k) && m < Pow2(k)
    ensures BitAnd(x, m) <= x
    ensures BitAnd(x, m) + (Pow2(k) - 1 - m) < Pow2(k)
    ensures x <= BitAnd(x, m) + (Pow2(k) - 1 - m)
  {
    if k > 0 {
      AndBounds(x / 2, m / 2, k - 1);
    }
  }

  /** One less than twice a positive number: its lowest bit and the others. */
  lemma HalfOfOdd(p: nat)
    requires p >= 1
    ensures (2 * p - 1) / 2 == p - 1 && (2 * p - 1) % 2 == 1
  {
  }

  lemma AndOdd(x: nat, m: nat)
    requires x > 0 && m % 2 == 1
    ensures BitAnd(x, m) == 2 * BitAnd(x / 2, m / 2) + x % 2
  {
  }

  lemma {:induction false} AndAllOnes(x: nat, k: nat)
    requires x < Pow2(k)
    ensures BitAnd(x, Pow2(k) - 1) == x
  {
    if k > 0 && x > 0 {
      HalfOfOdd(Pow2(k - 1));
      AndAllOnes(x / 2, k - 1);
      AndOdd(x, Pow2(k) - 1);
    }
  }

  lemma {:induction false} Pow2Monotone(n: nat, k: nat)
    requires n <= k
    ensures Pow2(n) <= Pow2(k)
  {
    if n < k {
      Pow2Monotone(n, k - 1);
    }
  }

  lemma Twice(q: nat, h: nat)
    ensures q * (2 * h) == 2 * (q * h)
  {
  }

  /** Masking with k - n leading ones rounds down to a multiple of 2^n. */
  lemma {:induction false} AndPrefix(x: nat, m: nat, k: nat, n: nat) returns (q: nat)
    requires n <= k && x < Pow2(k) && m == Pow2(k) - Pow2(n)
    ensures BitAnd(x, m) == q * Pow2(n)
    ensures q * Pow2(n) <= x < q * Pow2(n) + Pow2(n)
  {
    if n == 0 {
      AndAllOnes(x, k);
      q := x;
    } else {
      Pow2Monotone(n - 1, k - 1);
      q := AndPrefix(x / 2, m / 2, k - 1, n - 1);
      Twice(q, Pow2(n - 1));
      assert BitAnd(x, m) == 2 * BitAnd(x / 2, m / 2);
    }
  }

  lemma NextBlock(p: nat, q: nat, n: nat)
    requires p < q
    ensures p * n + n <= q * n
  {
    assert (p + 1) * n <= q * n;
  }

  /** A number lies in one block of length n only. */
  lemma SameBlock(p: nat, q: nat, n: nat, x: nat)
    requires p * n <= x < p * n + n && q * n <= x < q * n + n
    ensures p == q
  {
    if p < q {
      NextBlock(p, q, n);
    } else if q < p {
      NextBlock(q, p, n);
    }
  }
}
