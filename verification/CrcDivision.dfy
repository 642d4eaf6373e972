/**
 What the CRC is: the remainder of dividing the message by a polynomial over the integers modulo 2.
 A polynomial is the set of its exponents; the first bit of a message has the highest, and bytes
 are read from their lowest bit on.
 */
module CrcDivision {
  import opened Crc32

  /** The exponents of the generator of ISO 3309 and ITU-T V.42. */
  predicate Generates(e: nat) {
    || e == 32 || e == 26 || e == 23 || e == 22 || e == 16 || e == 12 || e == 11 || e == 10
    || e == 8 || e == 7 || e == 5 || e == 4 || e == 2 || e == 1 || e == 0
  }

  ghost function Generator(): set<nat> {
    set e: nat | e <= 32 && Generates(e)
  }

  function Sum(a: set<nat>, b: set<nat>): set<nat> {
    (a - b) + (b - a)
  }

  /** The polynomial times `x^k`. */
  ghost function Raised(a: set<nat>, k: nat): set<nat> {
    set e | e in a :: e + k
  }

  /** The polynomial with the coefficients `bits`, that of the highest exponent first. */
  ghost function Poly(bits: seq<bool>): set<nat> {
    set i: nat | i < |bits| && bits[i] :: |bits| - 1 - i
  }

  /** The generator times the polynomial with the coefficients `q`. */
  ghost function Times(q: seq<bool>): set<nat> {
    if q == [] then {} else Sum(Raised(Times(q[..|q| - 1]), 1), if q[|q| - 1] then Generator() else {})
  }

  /** The lowest `n` bits of a word, lowest first. */
  function BitsOf(c: bv32, n: nat): (bits: seq<bool>)
    ensures |bits| == n
    decreases n
  {
    if n == 0 then [] else [Odd(c)] + BitsOf(Half(c), n - 1)
  }

  function Message(data: seq<Byte>): (bits: seq<bool>)
    ensures |bits| == 8 * |data|
  {
    if data == [] then [] else Message(data[..|data| - 1]) + BitsOf(data[|data| - 1], 8)
  }

  ghost function Register(c: bv32): set<nat> {
    Poly(BitsOf(c, 32))
  }

  // ---------------------------------------------------------------- polynomials

  lemma SumLaws(a: set<nat>, b: set<nat>, c: set<nat>)
    ensures Sum(Sum(a, b), c) == Sum(a, Sum(b, c)) && Sum(a, b) == Sum(b, a)
  {}

  lemma SumSwaps(a: set<nat>, b: set<nat>, c: set<nat>)
    ensures Sum(Sum(a, b), c) == Sum(Sum(a, c), b)
  {}

  lemma RaisedLaws(a: set<nat>, b: set<nat>, j: nat, k: nat)
    ensures Raised(Sum(a, b), k) == Sum(Raised(a, k), Raised(b, k))
    ensures Raised(Raised(a, j), k) == Raised(a, j + k) && Raised(a, 0) == a
  {
    RaisedTwice(a, j, k);
    RaisedSum(a, b, k);
    assert forall e :: e in a ==> e + 0 in Raised(a, 0);
  }

  lemma RaisedTwice(a: set<nat>, j: nat, k: nat)
    ensures Raised(Raised(a, j), k) == Raised(a, j + k)
  {
    forall e | e in Raised(a, j + k)
      ensures e in Raised(Raised(a, j), k)
    {
      assert e - k in Raised(a, j);
    }
  }

  lemma RaisedSum(a: set<nat>, b: set<nat>, k: nat)
    ensures Raised(Sum(a, b), k) == Sum(Raised(a, k), Raised(b, k))
  {
    forall e | e in Sum(Raised(a, k), Raised(b, k))
      ensures e in Raised(Sum(a, b), k)
    {
      assert e - k in Sum(a, b);
    }
  }

  /** A polynomial followed by more coefficients. */
  lemma PolyConcat(m: seq<bool>, n: seq<bool>)
    ensures Poly(m + n) == Sum(Raised(Poly(m), |n|), Poly(n))
  {
    var l := m + n;
    forall e | e in Poly(l)
      ensures e in Sum(Raised(Poly(m), |n|), Poly(n))
    {
      var i: nat :| i < |l| && l[i] && e == |l| - 1 - i;
      if i < |m| {
        assert e - |n| in Poly(m);
      } else {
        assert n[i - |m|];
      }
    }
    forall e | e in Sum(Raised(Poly(m), |n|), Poly(n))
      ensures e in Poly(l)
    {
      if e in Poly(n) {
        var i: nat :| i < |n| && n[i] && e == |n| - 1 - i;
        assert l[|m| + i];
      } else {
        var i: nat :| i < |m| && m[i] && e - |n| == |m| - 1 - i;
        assert l[i];
      }
    }
  }

  // ---------------------------------------------------------------- the register

  lemma {:induction false} XorBits(a: bv32, b: bv32, n: nat)
    ensures forall i :: 0 <= i < n ==> BitsOf(Xor(a, b), n)[i] == (BitsOf(a, n)[i] != BitsOf(b, n)[i])
    decreases n
  {
    hide Xor, Odd, Half;
    if n > 0 {
      OddXor(a, b);
      XorBits(Half(a), Half(b), n - 1);
    }
  }

  lemma RegisterXor(a: bv32, b: bv32)
    ensures Register(Xor(a, b)) == Sum(Register(a), Register(b))
  {
    XorBits(a, b, 32);
    hide Xor, BitsOf;
    PolyXor(BitsOf(a, 32), BitsOf(b, 32), BitsOf(Xor(a, b), 32));
  }

  lemma PolyXor(x: seq<bool>, y: seq<bool>, z: seq<bool>)
    requires |x| == |y| == |z| && forall i :: 0 <= i < |z| ==> z[i] == (x[i] != y[i])
    ensures Poly(z) == Sum(Poly(x), Poly(y))
  {
    forall e: nat
      ensures e in Poly(z) <==> e in Sum(Poly(x), Poly(y))
    {
      ExponentBit(x, e);
      ExponentBit(y, e);
      ExponentBit(z, e);
    }
  }

  lemma ExponentBit(bits: seq<bool>, e: nat)
    ensures e in Poly(bits) <==> e < |bits| && bits[|bits| - 1 - e]
  {
    if e < |bits| {
      var i: nat := |bits| - 1 - e;
      assert e == |bits| - 1 - i;
    }
  }

  function HalfTimes(c: bv32, n: nat): bv32
    decreases n
  {
    if n == 0 then c else HalfTimes(Half(c), n - 1)
  }

  lemma {:induction false} BitAt(c: bv32, n: nat, i: nat)
    requires i < n
    ensures BitsOf(c, n)[i] == Odd(HalfTimes(c, i))
    decreases n
  {
    hide Odd, Half;
    if i > 0 {
      BitAt(Half(c), n - 1, i - 1);
    }
  }

  lemma {:induction false} HalfTimesAdd(c: bv32, m: nat, n: nat)
    ensures HalfTimes(c, m + n) == HalfTimes(HalfTimes(c, m), n)
    decreases m
  {
    hide Half;
    if m > 0 {
      HalfTimesAdd(Half(c), m - 1, n);
    }
  }

  lemma HalfEight(c: bv32)
    ensures HalfTimes(c, 8) == Down(c)
  {
    HalvesDown(c);
    hide Half, Down;
    var c4 := Half(Half(Half(Half(c))));
    assert HalfTimes(c, 4) == c4 && HalfTimes(c4, 4) == Half(Half(Half(Half(c4))));
    HalfTimesAdd(c, 4, 4);
  }

  lemma HalvesDown(c: bv32)
    ensures Half(Half(Half(Half(Half(Half(Half(Half(c)))))))) == Down(c)
  {}

  lemma NothingLeft(c: bv32)
    ensures Down(Down(Down(Down(c)))) == 0
  {}

  lemma HalvedAway(c: bv32)
    ensures HalfTimes(c, 32) == 0
  {
    hide Half, Down;
    HalfTimesAdd(c, 8, 24);
    HalfTimesAdd(HalfTimes(c, 8), 8, 16);
    HalfTimesAdd(HalfTimes(HalfTimes(c, 8), 8), 8, 8);
    HalfEight(c);
    HalfEight(Down(c));
    HalfEight(Down(Down(c)));
    HalfEight(Down(Down(Down(c))));
    NothingLeft(c);
  }

  /** Moving the register raises its polynomial, but for the highest exponent. */
  lemma RegisterHalf(c: bv32)
    ensures Raised(Register(c), 1) == Register(Half(c)) + if Odd(c) then {32} else {}
    ensures 32 !in Register(Half(c))
  {
    hide BitsOf, Half, Odd;
    HalfBits(c);
    MovedPoly(BitsOf(c, 32), BitsOf(Half(c), 32));
  }

  lemma HalfBits(c: bv32)
    ensures BitsOf(c, 32)[0] == Odd(c) && !BitsOf(Half(c), 32)[31]
    ensures forall i: nat :: i < 31 ==> BitsOf(Half(c), 32)[i] == BitsOf(c, 32)[i + 1]
  {
    hide BitsOf, Half, Odd;
    BitAt(c, 32, 0);
    assert HalfTimes(c, 0) == c;
    forall i: nat | i < 31
      ensures BitsOf(Half(c), 32)[i] == BitsOf(c, 32)[i + 1]
    {
      BitAt(Half(c), 32, i);
      BitAt(c, 32, i + 1);
    }
    BitAt(Half(c), 32, 31);
    assert HalfTimes(Half(c), 31) == HalfTimes(c, 32);
    HalvedAway(c);
    ZeroIsEven();
  }

  lemma ZeroIsEven()
    ensures !Odd(0)
  {}

  lemma MovedPoly(bits: seq<bool>, moved: seq<bool>)
    requires |bits| == |moved| == 32 && !moved[31] && forall i: nat :: i < 31 ==> moved[i] == bits[i + 1]
    ensures Raised(Poly(bits), 1) == Poly(moved) + if bits[0] then {32} else {}
    ensures 32 !in Poly(moved)
  {
    forall e | e in Poly(moved)
      ensures e in Raised(Poly(bits), 1)
    {
      var i: nat :| i < 32 && moved[i] && e == 31 - i;
      assert bits[i + 1];
      assert e - 1 in Poly(bits);
    }
    if bits[0] {
      assert 31 in Poly(bits);
    }
    forall e | e in Raised(Poly(bits), 1)
      ensures e in Poly(moved) + if bits[0] then {32} else {}
    {
      var i: nat :| i < 32 && bits[i] && e - 1 == 31 - i;
      assert i > 0 ==> moved[i - 1];
    }
  }

  /** The constant of the division has the generator's exponents, but for the highest. */
  lemma PolynomialIsGenerator()
    ensures Register(POLYNOMIAL) == Generator() - {32}
  {
    GeneratorAgrees();
    AgreesPoly(POLYNOMIAL, 32);
    hide Agrees, BitsOf;
    assert Generator() - {32} == set e: nat | e < 32 && Generates(e);
  }

  /** The lowest `n` bits of the word tell which exponents below `n` the generator has. */
  ghost predicate Agrees(c: bv32, n: nat)
    decreases n
  {
    n > 0 ==> Odd(c) == Generates(n - 1) && Agrees(Half(c), n - 1)
  }

  lemma {:induction false} AgreesPoly(c: bv32, n: nat)
    requires Agrees(c, n) && n <= 32
    ensures Poly(BitsOf(c, n)) == set e: nat | e < n && Generates(e)
    decreases n
  {
    hide Half, Odd, Generates;
    if n > 0 {
      AgreesPoly(Half(c), n - 1);
      assert BitsOf(c, n) == [Odd(c)] + BitsOf(Half(c), n - 1);
      PolyConcat([Odd(c)], BitsOf(Half(c), n - 1));
      OneBit(Odd(c), n - 1);
    }
  }

  lemma OneBit(b: bool, k: nat)
    ensures Raised(Poly([b]), k) == if b then {k} else {}
  {
    ExponentBit([b], 0);
    assert forall e :: e in Poly([b]) ==> e == 0;
  }

  predicate AreBits(c: bv32, b0: bool, b1: bool, b2: bool, b3: bool, b4: bool, b5: bool, b6: bool, b7: bool) {
    var c4 := Half(Half(Half(Half(c))));
    && Odd(c) == b0 && Odd(Half(c)) == b1 && Odd(Half(Half(c))) == b2 && Odd(Half(Half(Half(c)))) == b3
    && Odd(c4) == b4 && Odd(Half(c4)) == b5 && Odd(Half(Half(c4))) == b6 && Odd(Half(Half(Half(c4)))) == b7
  }

  lemma GeneratorBytes()
    ensures Down(0xEDB88320) == 0xEDB883 && Down(0xEDB883) == 0xEDB8 && Down(0xEDB8) == 0xED && Down(0xED) == 0
    ensures AreBits(0xEDB88320, false, false, false, false, false, true, false, false)
    ensures AreBits(0xEDB883, true, true, false, false, false, false, false, true)
    ensures AreBits(0xEDB8, false, false, false, true, true, true, false, true)
    ensures AreBits(0xED, true, false, true, true, false, true, true, true)
  {}

  ghost predicate Exponents(n: nat, b0: bool, b1: bool, b2: bool, b3: bool, b4: bool, b5: bool, b6: bool, b7: bool)
    requires n >= 8
  {
    && Generates(n - 1) == b0 && Generates(n - 2) == b1 && Generates(n - 3) == b2 && Generates(n - 4) == b3
    && Generates(n - 5) == b4 && Generates(n - 6) == b5 && Generates(n - 7) == b6 && Generates(n - 8) == b7
  }

  lemma ExponentsFrom24()
    ensures Exponents(32, false, false, false, false, false, true, false, false)
  {
    assert !Generates(31) && !Generates(30) && !Generates(29) && !Generates(28) && !Generates(27) && Generates(26) && !Generates(25) && !Generates(24);
  }

  lemma ExponentsFrom16()
    ensures Exponents(24, true, true, false, false, false, false, false, true)
  {
    assert Generates(23) && Generates(22) && !Generates(21) && !Generates(20) && !Generates(19) && !Generates(18) && !Generates(17) && Generates(16);
  }

  lemma ExponentsFrom8()
    ensures Exponents(16, false, false, false, true, true, true, false, true)
  {
    assert !Generates(15) && !Generates(14) && !Generates(13) && Generates(12) && Generates(11) && Generates(10) && !Generates(9) && Generates(8);
  }

  lemma ExponentsFrom0()
    ensures Exponents(8, true, false, true, true, false, true, true, true)
  {
    assert Generates(7) && !Generates(6) && Generates(5) && Generates(4) && !Generates(3) && Generates(2) && Generates(1) && Generates(0);
  }

  lemma AgreesByte(c: bv32, n: nat, b0: bool, b1: bool, b2: bool, b3: bool, b4: bool, b5: bool, b6: bool, b7: bool)
    requires n >= 8 && AreBits(c, b0, b1, b2, b3, b4, b5, b6, b7) && Exponents(n, b0, b1, b2, b3, b4, b5, b6, b7) && Agrees(Down(c), n - 8)
    ensures Agrees(c, n)
  {
    HalvesDown(c);
    hide Half, Odd, Down, Generates;
    var c4 := Half(Half(Half(Half(c))));
    assert Agrees(Half(Half(c4)), n - 6);
    assert Agrees(c4, n - 4);
    assert Agrees(Half(Half(c)), n - 2);
  }

  lemma GeneratorAgrees()
    ensures Agrees(0xEDB88320, 32)
  {
    hide AreBits, Exponents, Down, Half, Odd;
    GeneratorBytes();
    ExponentsFrom24();
    ExponentsFrom16();
    ExponentsFrom8();
    ExponentsFrom0();
    assert Agrees(0, 0);
    AgreesByte(0xED, 8, true, false, true, true, false, true, true, true);
    AgreesByte(0xEDB8, 16, false, false, false, true, true, true, false, true);
    AgreesByte(0xEDB883, 24, true, true, false, false, false, false, false, true);
    AgreesByte(0xEDB88320, 32, false, false, false, false, false, true, false, false);
  }

  // ---------------------------------------------------------------- the division

  /** One step raises the register's polynomial and takes the generator off if it has the exponent 32 then. */
  lemma StepDivides(c: bv32)
    ensures Register(Step(c)) == Sum(Raised(Register(c), 1), if Odd(c) then Generator() else {})
  {
    RegisterHalf(c);
    PolynomialIsGenerator();
    assert 32 in Generator() by { assert Generates(32); }
    hide BitsOf, Poly, Register, Generates;
    if Odd(c) {
      assert Step(c) == Xor(Half(c), POLYNOMIAL);
      RegisterXor(Half(c), POLYNOMIAL);
    }
  }

  /** The register holds what the dividend `d` leaves after the quotient so far. */
  ghost predicate Divided(c: bv32, d: set<nat>, q: seq<bool>) {
    Register(c) == Sum(d, Times(q))
  }

  lemma StepDivided(c: bv32, d: set<nat>, q: seq<bool>)
    requires Divided(c, d, q)
    ensures Divided(Step(c), Raised(d, 1), q + [Odd(c)])
  {
    hide Register, Sum, Raised, Step, Odd, Generator;
    var g := if Odd(c) then Generator() else {};
    StepDivides(c);
    RaisedLaws(d, Times(q), 0, 1);
    SumLaws(Raised(d, 1), Raised(Times(q), 1), g);
    assert (q + [Odd(c)])[..|q|] == q;
  }

  lemma ByteDivided(c: bv32, d: set<nat>, q: seq<bool>) returns (q': seq<bool>)
    requires Divided(c, d, q)
    ensures Divided(Shift(c), Raised(d, 8), q') && |q'| == |q| + 8
  {
    hide Divided, Step, Odd, Raised;
    var c2 := Step(Step(c));
    var c4 := Step(Step(c2));
    q' := TwoDivided(c, d, q);
    RaisedTwice(d, 2, 2);
    RaisedTwice(d, 4, 2);
    RaisedTwice(d, 6, 2);
    q' := TwoDivided(c2, Raised(d, 2), q');
    q' := TwoDivided(c4, Raised(d, 4), q');
    q' := TwoDivided(Step(Step(c4)), Raised(d, 6), q');
  }

  lemma TwoDivided(c: bv32, d: set<nat>, q: seq<bool>) returns (q': seq<bool>)
    requires Divided(c, d, q)
    ensures Divided(Step(Step(c)), Raised(d, 2), q') && |q'| == |q| + 2
  {
    hide Divided, Step, Odd, Raised;
    StepDivided(c, d, q);
    StepDivided(Step(c), Raised(d, 1), q + [Odd(c)]);
    RaisedTwice(d, 1, 1);
    q' := q + [Odd(c)] + [Odd(Step(c))];
  }

  /** The message, and what was in the register before it, times `x^32`. */
  ghost function Dividend(data: seq<Byte>, c: bv32): set<nat> {
    Sum(Raised(Poly(Message(data)), 32), Raised(Register(c), 8 * |data|))
  }

  lemma {:induction false} BitsSplit(c: bv32, m: nat, n: nat)
    ensures BitsOf(c, m + n) == BitsOf(c, m) + BitsOf(HalfTimes(c, m), n)
    decreases m
  {
    hide Half, Odd;
    if m > 0 {
      BitsSplit(Half(c), m - 1, n);
    }
  }

  /** The bits of a byte are the highest in the register. */
  lemma ByteInRegister(b: Byte)
    ensures Register(b) == Raised(Poly(BitsOf(b, 8)), 24)
  {
    hide BitsOf, Down;
    BitsSplit(b, 8, 24);
    HalfEight(b);
    assert Down(b) == 0 by { NoMoreThanByte(b); }
    NoBits(24);
    PolyConcat(BitsOf(b, 8), BitsOf(0, 24));
  }

  lemma NoMoreThanByte(b: Byte)
    ensures Down(b) == 0
  {}

  lemma {:induction false} NoBits(n: nat)
    ensures Poly(BitsOf(0, n)) == {}
  {
    if n > 0 {
      assert Half(0) == 0 && !Odd(0);
      NoBits(n - 1);
      PolyConcat([false], BitsOf(0, n - 1));
      OneBit(false, n - 1);
    }
  }

  lemma DividendStep(data: seq<Byte>, b: Byte, c: bv32)
    ensures Dividend(data + [b], c) == Raised(Sum(Dividend(data, c), Register(b)), 8)
  {
    hide Sum, Raised, Poly, Register, BitsOf, Message;
    var bits := BitsOf(b, 8);
    MessageStep(data, b);
    PolyConcat(Message(data), bits);
    ByteInRegister(b);
    RaisedDividend(Poly(Message(data)), Register(c), Poly(bits), 8 * |data|);
  }

  lemma MessageStep(data: seq<Byte>, b: Byte)
    ensures Message(data + [b]) == Message(data) + BitsOf(b, 8)
  {
    hide BitsOf;
    assert (data + [b])[..|data|] == data;
  }

  lemma RaisedDividend(m: set<nat>, r: set<nat>, b: set<nat>, n: nat)
    ensures Sum(Raised(Sum(Raised(m, 8), b), 32), Raised(r, n + 8)) == Raised(Sum(Sum(Raised(m, 32), Raised(r, n)), Raised(b, 24)), 8)
  {
    hide Sum, Raised;
    RaisedSum(Raised(m, 8), b, 32);
    RaisedTwice(m, 8, 32);
    RaisedTwice(m, 32, 8);
    RaisedTwice(b, 24, 8);
    RaisedTwice(r, n, 8);
    RaisedSum(Sum(Raised(m, 32), Raised(r, n)), Raised(b, 24), 8);
    RaisedSum(Raised(m, 32), Raised(r, n), 8);
    SumSwaps(Raised(m, 40), Raised(b, 32), Raised(r, n + 8));
  }

  /** The register after the message is the remainder of the division by the generator; the lemma finds the quotient. */
  lemma {:induction false} FeedDivides(c: bv32, data: seq<Byte>) returns (q: seq<bool>)
    ensures |q| == 8 * |data| && Divided(Feed(c, data), Dividend(data, c), q)
    decreases |data|
  {
    if data == [] {
      q := [];
      assert Poly([]) == {} && Raised(Poly([]), 32) == {};
      RaisedLaws(Register(c), {}, 0, 0);
      assert Sum({}, Register(c)) == Register(c) && Sum(Register(c), {}) == Register(c);
    } else {
      var front, b := data[..|data| - 1], data[|data| - 1];
      q := FeedDivides(c, front);
      var r := Feed(c, front);
      RegisterXor(r, b);
      DividendStep(front, b, c);
      assert front + [b] == data;
      hide Feed, Dividend, Register, Raised, Sum, Shift, Xor;
      SumSwaps(Dividend(front, c), Times(q), Register(b));
      assert Divided(Xor(r, b), Sum(Dividend(front, c), Register(b)), q);
      q := ByteDivided(Xor(r, b), Sum(Dividend(front, c), Register(b)), q);
      assert Feed(c, data) == Shift(Xor(r, b)) by { FeedLast(c, data); }
    }
  }

  lemma FeedLast(c: bv32, data: seq<Byte>)
    requires data != []
    ensures Feed(c, data) == Shift(Xor(Feed(c, data[..|data| - 1]), data[|data| - 1]))
  {}

  /** All exponents below 32. */
  ghost function Ones(): set<nat> {
    Poly(seq(32, i => true))
  }

  /** The complement of a word has the exponents that the word has not. */
  lemma RegisterNot(c: bv32)
    ensures Register(Not(c)) == Ones() - Register(c) && Register(c) <= Ones()
  {
    NotIsXor(c);
    XorBits(c, Not(c), 32);
    AllOnes();
    hide BitsOf, Xor, Not;
    PolyComplement(BitsOf(c, 32), BitsOf(Not(c), 32), seq(32, i => true));
  }

  lemma PolyComplement(x: seq<bool>, y: seq<bool>, ones: seq<bool>)
    requires |x| == |y| == |ones| && forall i :: 0 <= i < |y| ==> y[i] == !x[i] && ones[i]
    ensures Poly(y) == Poly(ones) - Poly(x) && Poly(x) <= Poly(ones)
  {
    forall e: nat
      ensures e in Poly(y) <==> e in Poly(ones) && e !in Poly(x)
      ensures e in Poly(x) ==> e in Poly(ones)
    {
      ExponentBit(x, e);
      ExponentBit(y, e);
      ExponentBit(ones, e);
    }
  }

  lemma NotIsXor(c: bv32)
    ensures Xor(c, Not(c)) == 0xFFFFFFFF
  {}

  lemma AllOnes()
    ensures forall i :: 0 <= i < 32 ==> BitsOf(0xFFFFFFFF, 32)[i]
  {
    hide AreBits, Down, Half, Odd, BitsOf;
    OnesBytes();
    assert AllOdd(0, 0);
    AllOddByte(0xFF, 8);
    AllOddByte(0xFFFF, 16);
    AllOddByte(0xFFFFFF, 24);
    AllOddByte(0xFFFFFFFF, 32);
    AllOddBits(0xFFFFFFFF, 32);
  }

  /** The lowest `n` bits are all ones. */
  predicate AllOdd(c: bv32, n: nat)
    decreases n
  {
    n > 0 ==> Odd(c) && AllOdd(Half(c), n - 1)
  }

  lemma {:induction false} AllOddBits(c: bv32, n: nat)
    requires AllOdd(c, n)
    ensures forall i :: 0 <= i < n ==> BitsOf(c, n)[i]
    decreases n
  {
    hide Odd, Half;
    if n > 0 {
      AllOddBits(Half(c), n - 1);
    }
  }

  lemma AllOddByte(c: bv32, n: nat)
    requires n >= 8 && AreBits(c, true, true, true, true, true, true, true, true) && AllOdd(Down(c), n - 8)
    ensures AllOdd(c, n)
  {
    HalvesDown(c);
    hide Half, Odd, Down;
    var c4 := Half(Half(Half(Half(c))));
    assert AllOdd(Half(Half(c4)), n - 6);
    assert AllOdd(c4, n - 4);
    assert AllOdd(Half(Half(c)), n - 2);
  }

  lemma OnesBytes()
    ensures Down(0xFFFFFFFF) == 0xFFFFFF && Down(0xFFFFFF) == 0xFFFF && Down(0xFFFF) == 0xFF && Down(0xFF) == 0
    ensures AreBits(0xFFFFFFFF, true, true, true, true, true, true, true, true)
    ensures AreBits(0xFFFFFF, true, true, true, true, true, true, true, true)
    ensures AreBits(0xFFFF, true, true, true, true, true, true, true, true)
    ensures AreBits(0xFF, true, true, true, true, true, true, true, true)
  {}

  /**
   Section 8 of RFC 1952: the complement of the CRC is the remainder of dividing by the generator the
   message times `x^32`, its first 32 bits complemented.
   */
  lemma CrcIsRemainder(data: seq<Byte>) returns (q: seq<bool>)
    ensures Ones() - Register(Crc(data, 0)) == Sum(Sum(Raised(Poly(Message(data)), 32), Raised(Ones(), 8 * |data|)), Times(q))
    ensures Register(Crc(data, 0)) <= Ones()
  {
    var c := Feed(Not(0), data);
    q := FeedDivides(Not(0), data);
    RegisterNot(0);
    RegisterNot(c);
    NoBits(32);
    hide Feed, Not, Raised, Sum, Poly;
    assert Ones() - {} == Ones();
    assert Crc(data, 0) == Not(c);
    assert Ones() - (Ones() - Register(c)) == Register(c);
  }
}
