/**
 The priority of a block address in the free trees: with `n = 2^width - address`,
 `n - popcount(n) + 2^trailing(n)`, which is the post-order index of `n` in the perfect
 binary tree over 1 .. 2^width - 1.
 */
module NodeScore {
  import opened Bits

  function PostOrder(n: nat): int
    requires n > 0
  {
    n - Popcount(n) + Pow2(Trailing(n))
  }

  /** Splitting `n` at bit `k` shifts the index of the low part. */
  lemma PostOrderSplit(a: nat, k: nat, d: nat)
    requires 0 < d < Pow2(k)
    ensures Shift(a, k) + d > 0
    ensures PostOrder(Shift(a, k) + d) == Shift(a, k) - Popcount(a) + PostOrder(d)
  {
    PopcountSplit(a, k, d);
    TrailingSplit(a, k, d);
  }

  /** The index of an odd multiple of `2^k`. */
  lemma PostOrderOddMultiple(a: nat, k: nat)
    requires a % 2 == 1
    ensures Shift(a, k) > 0
    ensures PostOrder(Shift(a, k)) == Shift(a, k) - Popcount(a) + Pow2(k)
  {
    PopcountSplit(a, k, 0);
    TrailingShift(a, k);
  }

  lemma PostOrderTop(k: nat)
    ensures PostOrder(Pow2(k)) == 2 * Pow2(k) - 1
  {
    ShiftOne(k);
    PostOrderOddMultiple(1, k);
    PopcountOdd(1);
  }

  lemma PopcountOdd(a: nat)
    requires a % 2 == 1
    ensures Popcount(a) == 1 + Popcount(a - 1)
  {
    assert (a - 1) / 2 == a / 2;
  }

  lemma PostOrderUpperHalf(k: nat, n: nat)
    requires Pow2(k) < n < 2 * Pow2(k)
    ensures PostOrder(n) == Pow2(k) - 1 + PostOrder(n - Pow2(k))
  {
    ShiftOne(k);
    PostOrderSplit(1, k, n - Pow2(k));
    PopcountOdd(1);
  }

  /** The index ranges over exactly 1 .. 2^width - 1. */
  lemma {:induction false} PostOrderRange(width: nat, n: nat)
    requires 0 < n < Pow2(width)
    ensures 1 <= PostOrder(n) <= Pow2(width) - 1
  {
    var half := Pow2(width - 1);
    if n < half {
      PostOrderRange(width - 1, n);
    } else if n == half {
      PostOrderTop(width - 1);
    } else {
      PostOrderUpperHalf(width - 1, n);
      PostOrderRange(width - 1, n - half);
    }
  }

  /** The indices of the two halves lie on different sides of `2^k`; that of the middle is largest. */
  lemma PostOrderHalves(k: nat, n: nat)
    requires 0 < n < 2 * Pow2(k)
    ensures n < Pow2(k) ==> PostOrder(n) < Pow2(k)
    ensures n == Pow2(k) ==> PostOrder(n) == 2 * Pow2(k) - 1
    ensures n > Pow2(k) ==> Pow2(k) <= PostOrder(n) < 2 * Pow2(k) - 1
  {
    if n < Pow2(k) {
      PostOrderRange(k, n);
    } else if n == Pow2(k) {
      PostOrderTop(k);
    } else {
      PostOrderUpperHalf(k, n);
      PostOrderRange(k, n - Pow2(k));
    }
  }

  lemma PostOrderAfterMultiple(a: nat, k: nat, d: nat)
    requires a % 2 == 1 && 0 < d < Pow2(k)
    ensures Shift(a, k) > 0
    ensures PostOrder(Shift(a, k) + d) < PostOrder(Shift(a, k))
  {
    PostOrderOddMultiple(a, k);
    PostOrderSplit(a, k, d);
    PostOrderRange(k, d);
  }

  lemma PostOrderBeforeMultiple(a: nat, k: nat, d: nat)
    requires a % 2 == 1 && 0 < d < Pow2(k)
    ensures Shift(a - 1, k) + d > 0 && Shift(a, k) == Shift(a - 1, k) + Pow2(k) > 0
    ensures PostOrder(Shift(a - 1, k) + d) < PostOrder(Shift(a, k))
  {
    ShiftAdd(a - 1, 1, k);
    ShiftOne(k);
    PopcountOdd(a);
    PostOrderOddMultiple(a, k);
    PostOrderSplit(a - 1, k, d);
    PostOrderRange(k, d);
  }

  /** An odd multiple of `2^k` comes after everything closer to it than `2^k`. */
  lemma PostOrderDominates(a: nat, k: nat, n: nat)
    requires a % 2 == 1
    requires Shift(a, k) - Pow2(k) < n < Shift(a, k) + Pow2(k) && n != Shift(a, k)
    ensures 0 < n && 0 < Shift(a, k)
    ensures PostOrder(n) < PostOrder(Shift(a, k))
  {
    if n > Shift(a, k) {
      PostOrderAfterMultiple(a, k, n - Shift(a, k));
    } else {
      assert Shift(a, k) == Shift(a - 1, k) + Pow2(k) by {
        ShiftAdd(a - 1, 1, k);
        ShiftOne(k);
      }
      PostOrderBeforeMultiple(a, k, n - Shift(a - 1, k));
    }
  }

  // ---------------------------------------------------------------- what the index says

  /** The subtree of `m` in the perfect tree holds `n`: it is closer than the least one bit of `m` tells. */
  predicate Under(m: nat, n: nat)
    requires m > 0
  {
    m - Pow2(Trailing(m)) < n < m + Pow2(Trailing(m))
  }

  /** A number without its trailing zeros is odd. */
  lemma {:induction false} OddPart(n: nat) returns (a: nat)
    requires n > 0
    ensures a % 2 == 1 && n == Shift(a, Trailing(n))
  {
    if n % 2 == 1 {
      a := n;
    } else {
      a := OddPart(n / 2);
    }
  }

  lemma UnderComesFirst(m: nat, n: nat)
    requires m > 0 && n > 0 && m != n && Under(m, n)
    ensures PostOrder(n) < PostOrder(m)
  {
    var a := OddPart(m);
    PostOrderDominates(a, Trailing(m), n);
  }

  /** Numbers in no subtree of each other keep their order. */
  lemma {:induction false} ApartInOrder(width: nat, m: nat, n: nat)
    requires 0 < m < n < Pow2(width) && !Under(m, n) && !Under(n, m)
    ensures PostOrder(m) < PostOrder(n)
  {
    hide PostOrder, Trailing;
    var half := Pow2(width - 1);
    PostOrderHalves(width - 1, m);
    PostOrderHalves(width - 1, n);
    if n < half {
      ApartInOrder(width - 1, m, n);
    } else if m >= half {
      UpperHalfBits(width - 1, n);
      if m == half {
        UpperMiddle(width - 1);
      } else {
        UpperHalfBits(width - 1, m);
        PostOrderUpperHalf(width - 1, m);
        PostOrderUpperHalf(width - 1, n);
        ApartInOrder(width - 1, m - half, n - half);
      }
    }
  }

  lemma UpperMiddle(k: nat)
    ensures Trailing(Pow2(k)) == k
  {
    ShiftOne(k);
    TrailingShift(1, k);
  }

  lemma UpperHalfBits(k: nat, n: nat)
    requires Pow2(k) < n < 2 * Pow2(k)
    ensures Trailing(n) == Trailing(n - Pow2(k))
  {
    ShiftOne(k);
    TrailingSplit(1, k, n - Pow2(k));
  }

  /** The index is post-order: first what the subtree of `m` holds, then `m`, then what is greater. */
  lemma PostOrderIsPostOrder(width: nat, m: nat, n: nat)
    requires 0 < m < Pow2(width) && 0 < n < Pow2(width) && m != n
    ensures PostOrder(n) < PostOrder(m) <==> Under(m, n) || (!Under(n, m) && n < m)
  {
    if Under(m, n) {
      UnderComesFirst(m, n);
    } else if Under(n, m) {
      UnderComesFirst(n, m);
    } else if n < m {
      ApartInOrder(width, n, m);
    } else {
      ApartInOrder(width, m, n);
    }
  }

  /** Distinct addresses have distinct scores, whatever the width. */
  lemma PostOrderInjective(width: nat, m: nat, n: nat)
    requires 0 < m < n < Pow2(width)
    ensures PostOrder(m) != PostOrder(n)
  {
    hide PostOrder, Under;
    PostOrderIsPostOrder(width, m, n);
    PostOrderIsPostOrder(width, n, m);
  }

  /** Every index is that of some number. */
  lemma {:induction false} PostOrderOnto(width: nat, r: nat) returns (n: nat)
    requires 0 < r < Pow2(width)
    ensures 0 < n < Pow2(width) && PostOrder(n) == r
  {
    var half := Pow2(width - 1);
    if r < half {
      n := PostOrderOnto(width - 1, r);
    } else if r == 2 * half - 1 {
      PostOrderTop(width - 1);
      n := half;
    } else {
      n := PostOrderOnto(width - 1, r - half + 1);
      PostOrderUpperHalf(width - 1, n + half);
      n := n + half;
    }
  }
}
