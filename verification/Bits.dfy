/** Powers of two and the bit statistics of a natural number. */
module Bits {

  /** `a` shifted left by `k` bits. */
  function Shift(a: int, k: nat): int {
    if k == 0 then a else 2 * Shift(a, k - 1)
  }

  function Pow2(k: nat): (r: nat)
    ensures r >= 1
  {
    if k == 0 then 1 else 2 * Pow2(k - 1)
  }

  /** Number of one bits. */
  function Popcount(n: nat): (r: nat)
    ensures r <= n
  {
    if n == 0 then 0 else n % 2 + Popcount(n / 2)
  }

  /** Number of zero bits below the lowest one bit. */
  function Trailing(n: nat): nat
    requires n > 0
  {
    if n % 2 == 1 then 0 else 1 + Trailing(n / 2)
  }

  /** Number of bits up to and including the highest one bit. */
  function BitLen(n: nat): nat {
    if n == 0 then 0 else 1 + BitLen(n / 2)
  }

  lemma {:induction false} Pow2Mono(j: nat, k: nat)
    requires j <= k
    ensures Pow2(j) <= Pow2(k)
    ensures j < k ==> 2 * Pow2(j) <= Pow2(k)
  {
    if j < k {
      Pow2Mono(j, k - 1);
    }
  }

  lemma Pow2Literals()
    ensures Pow2(8) == 0x100 && Pow2(16) == 0x1_0000
  {}

  lemma {:induction false} ShiftOne(k: nat)
    ensures Shift(1, k) == Pow2(k)
  {
    if k > 0 {
      ShiftOne(k - 1);
    }
  }

  lemma {:induction false} ShiftPow2(j: nat, k: nat)
    ensures Shift(Pow2(j), k) == Pow2(j + k)
  {
    if k > 0 {
      ShiftPow2(j, k - 1);
    }
  }

  lemma {:induction false} ShiftAdd(a: int, b: int, k: nat)
    ensures Shift(a + b, k) == Shift(a, k) + Shift(b, k)
  {
    if k > 0 {
      ShiftAdd(a, b, k - 1);
    }
  }

  lemma {:induction false} ShiftSign(a: int, k: nat)
    ensures Shift(a, k) > 0 <==> a > 0
    ensures Shift(a, k) == 0 <==> a == 0
  {
    if k > 0 {
      ShiftSign(a, k - 1);
    }
  }

  /** `2^BitLen(n)` is the least power of two above `n`. */
  lemma {:induction false} BitLenBounds(n: nat)
    ensures n < Pow2(BitLen(n))
    ensures n > 0 ==> BitLen(n) > 0 && Pow2(BitLen(n) - 1) <= n
  {
    if n > 0 {
      BitLenBounds(n / 2);
    }
  }

  /** A number split at bit `k` has the one bits of both parts. */
  lemma {:induction false} PopcountSplit(a: nat, k: nat, d: nat)
    requires d < Pow2(k)
    ensures Shift(a, k) + d >= 0
    ensures Popcount(Shift(a, k) + d) == Popcount(a) + Popcount(d)
  {
    ShiftSign(a, k);
    if k > 0 {
      ShiftSign(a, k - 1);
      HalveSplit(Shift(a, k - 1), d);
      PopcountSplit(a, k - 1, d / 2);
    }
  }

  lemma HalveSplit(high: nat, d: nat)
    ensures (2 * high + d) % 2 == d % 2 && (2 * high + d) / 2 == high + d / 2
  {}

  /** A non-zero low part decides the trailing zeros, and there are fewer than `k` of them. */
  lemma {:induction false} TrailingSplit(a: nat, k: nat, d: nat)
    requires 0 < d < Pow2(k)
    ensures Shift(a, k) + d > 0
    ensures Trailing(Shift(a, k) + d) == Trailing(d) < k
  {
    ShiftSign(a, k);
    ShiftSign(a, k - 1);
    HalveSplit(Shift(a, k - 1), d);
    if d % 2 == 0 {
      TrailingSplit(a, k - 1, d / 2);
    }
  }

  lemma {:induction false} TrailingShift(a: nat, k: nat)
    requires a > 0
    ensures Shift(a, k) > 0
    ensures Trailing(Shift(a, k)) == k + Trailing(a)
  {
    if k > 0 {
      TrailingShift(a, k - 1);
      HalveSplit(Shift(a, k - 1), 0);
    }
  }
}
