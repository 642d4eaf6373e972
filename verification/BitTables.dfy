/** The byte tables from which node scores and size classes are read off. */
module BitTables {
  import opened Bits
  import opened NodeScore
  import opened FreeTree

  /** The table entry for trailing zeros: 8 for a zero byte. */
  function ByteTrailing(i: nat): nat {
    if i == 0 then 8 else Trailing(i)
  }

  /** `2^bits` divides `i` exactly when `bits` does not exceed the trailing zeros. */
  lemma {:induction false} DividesIffTrailing(i: nat, bits: nat)
    requires i > 0
    ensures i % Pow2(bits) == 0 <==> bits <= Trailing(i)
  {
    if bits > 0 {
      HalfRemainder(i, Pow2(bits - 1));
      if i % 2 == 0 {
        DividesIffTrailing(i / 2, bits - 1);
      }
    }
  }

  lemma HalfRemainder(i: nat, q: nat)
    requires q > 0
    ensures i % (2 * q) == 0 <==> i % 2 == 0 && (i / 2) % q == 0
  {
    var m, rest := (i / 2) / q, 2 * ((i / 2) % q) + i % 2;
    assert i == (2 * q) * m + rest;
    Remainder(i, 2 * q, m, rest);
  }

  lemma Remainder(n: nat, q: nat, m: nat, rest: nat)
    requires q > 0 && n == q * m + rest && rest < q
    ensures n % q == rest
  {
    var d := n / q - m;
    assert n == q * (n / q) + n % q;
    assert q * d == q * (n / q) - q * m;
    assert d >= 1 ==> q * d >= q;
    assert d <= -1 ==> q * d + q <= 0;
    assert d == 0 ==> q * d == 0;
  }

  lemma {:induction false} TrailingOfByte(i: nat)
    requires 0 < i < 256
    ensures Trailing(i) < 8
  {
    Pow2Literals();
    TrailingSplit(0, 8, i);
    ShiftSign(0, 8);
  }

  class BitTables {
    const leftBits: array<nat>
    const numBits: array<nat>
    const logBits: array<nat>

    ghost predicate Valid()
      reads leftBits, numBits, logBits
    {
      && leftBits.Length == 256 && numBits.Length == 256 && logBits.Length == 256
      && forall i | 0 <= i < 256 ::
           leftBits[i] == ByteTrailing(i) && numBits[i] == Popcount(i) && logBits[i] == BitLen(i)
    }

    constructor ()
      ensures Valid() && fresh(leftBits) && fresh(numBits) && fresh(logBits)
    {
      leftBits, numBits, logBits := new nat[256], new nat[256], new nat[256];
      new;
      Fill(leftBits, numBits, logBits);
    }

    static method Fill(left: array<nat>, num: array<nat>, log: array<nat>)
      requires left.Length == 256 && num.Length == 256 && log.Length == 256
      requires left != num && num != log && log != left
      modifies left, num, log
      ensures forall j | 0 <= j < 256 :: left[j] == ByteTrailing(j) && num[j] == Popcount(j) && log[j] == BitLen(j)
    {
      hide ByteTrailing, Popcount, BitLen;
      for i := 0 to 256
        invariant forall j | 0 <= j < i :: left[j] == ByteTrailing(j) && num[j] == Popcount(j) && log[j] == BitLen(j)
      {
        var ones := CountOnes(i);
        var zeros := CountTrailing(i);
        var length := CountLength(i);
        num[i], left[i], log[i] := ones, zeros, length;
      }
    }

    static method CountOnes(i: nat) returns (bits: nat)
      ensures bits == Popcount(i)
    {
      bits := 0;
      var temp := i;
      while temp != 0
        invariant bits + Popcount(temp) == Popcount(i)
      {
        if temp % 2 == 1 {
          bits := bits + 1;
        }
        temp := temp / 2;
      }
    }

    static method CountTrailing(i: nat) returns (bits: nat)
      requires i < 256
      ensures bits == ByteTrailing(i)
    {
      bits := 8;
      if i > 0 {
        TrailingOfByte(i);
        DividesIffTrailing(i, bits);
      }
      while i % Pow2(bits) != 0
        invariant i == 0 ==> bits == 8
        invariant i > 0 ==> Trailing(i) <= bits && (i % Pow2(bits) == 0 <==> bits <= Trailing(i))
        decreases bits
      {
        bits := bits - 1;
        DividesIffTrailing(i, bits);
      }
    }

    static method CountLength(i: nat) returns (bits: nat)
      ensures bits == BitLen(i)
    {
      bits := 0;
      var temp := i;
      while temp != 0
        invariant bits + BitLen(temp) == BitLen(i)
      {
        bits := bits + 1;
        temp := temp / 2;
      }
    }

    /** The score is read from the tables a byte at a time. */
    method GetScore(num: NodeNum) returns (score: int)
      requires Valid()
      ensures score == Score(num)
    {
      var n := NODE_COUNT - num;
      var low, high := n % 256, n / 256;
      var bits := leftBits[low];
      if low == 0 {
        bits := bits + leftBits[high];
      }
      ScoreByBytes(high, low);
      score := n - (numBits[high] + numBits[low]) + Pow2(bits);
    }

    /** The least `size` whose block of `2^size` cells of 16 bytes holds `numBytes`; 0 for a request that is too large. */
    method GetSize(numBytes: int) returns (size: nat)
      requires Valid() && 0 < numBytes
      ensures size == if numBytes < NODE_COUNT then SizeClass(numBytes) else 0
    {
      if numBytes >= NODE_COUNT {
        return 0;
      }
      var numBuckets := (numBytes + 15) / 16 - 1;
      if numBuckets > 255 {
        BitLenByBytes(numBuckets);
        size := logBits[numBuckets / 256] + 8;
      } else {
        size := logBits[numBuckets];
      }
    }
  }

  lemma ScoreByBytes(high: nat, low: nat)
    requires low < 256 && high < 256 && 256 * high + low > 0
    ensures Popcount(256 * high + low) == Popcount(high) + Popcount(low)
    ensures Trailing(256 * high + low) == if low == 0 then 8 + Trailing(high) else Trailing(low)
  {
    Shift8(high);
    Pow2Literals();
    PopcountSplit(high, 8, low);
    if low == 0 {
      TrailingShift(high, 8);
    } else {
      TrailingSplit(high, 8, low);
    }
  }

  lemma Shift8(a: int)
    ensures Shift(a, 8) == 256 * a
  {
    assert Shift(a, 1) == 2 * a && Shift(a, 2) == 4 * a;
    assert Shift(a, 3) == 8 * a && Shift(a, 4) == 16 * a;
    assert Shift(a, 5) == 32 * a && Shift(a, 6) == 64 * a;
    assert Shift(a, 7) == 128 * a;
  }

  lemma {:induction false} BitLenShift(n: nat, k: nat)
    requires Pow2(k) <= n
    ensures BitLen(n) == k + BitLen(n / Pow2(k))
  {
    if k > 0 {
      BitLenShift(n / 2, k - 1);
      assert n / 2 / Pow2(k - 1) == n / Pow2(k) by { QuotientOfHalf(n, Pow2(k - 1)); }
    }
  }

  lemma QuotientOfHalf(n: nat, q: nat)
    requires q > 0
    ensures n / 2 / q == n / (2 * q)
  {
    var m, rest := (n / 2) / q, 2 * ((n / 2) % q) + n % 2;
    assert n == (2 * q) * m + rest;
    Remainder(n, 2 * q, m, rest);
    assert (2 * q) * (n / (2 * q) - m) == 0;
  }

  lemma BitLenByBytes(n: nat)
    requires 256 <= n
    ensures BitLen(n) == 8 + BitLen(n / 256)
  {
    Pow2Literals();
    BitLenShift(n, 8);
  }

  lemma {:induction false} BitLenAtMost(n: nat, k: nat)
    requires n < Pow2(k)
    ensures BitLen(n) <= k
  {
    if n > 0 {
      BitLenAtMost(n / 2, k - 1);
    }
  }

  /** The size class of a request. */
  function SizeClass(numBytes: int): nat
    requires 0 < numBytes < NODE_COUNT
  {
    BitLen((numBytes + 15) / 16 - 1)
  }

  /** A block of the size class holds the request, the next smaller one does not. */
  lemma SizeClassIsLeast(numBytes: int)
    requires 0 < numBytes < NODE_COUNT
    ensures numBytes <= 16 * Pow2(SizeClass(numBytes))
    ensures SizeClass(numBytes) > 0 ==> numBytes > 16 * Pow2(SizeClass(numBytes) - 1)
    ensures SizeClass(numBytes) <= 12
  {
    var buckets := (numBytes + 15) / 16 - 1;
    BitLenBounds(buckets);
    assert Pow2(12) == 4096;
    BitLenAtMost(buckets, 12);
  }
}
