/**
 CRC-32: the sliced computation over sixteen bytes at a time against the bit-by-bit definition of
 section 8 of RFC 1952.
 */
module Crc32 {

  const POLYNOMIAL: bv32 := 0xEDB88320

  type Byte = b: bv32 | b & 0xFF == b

  // ---------------------------------------------------------------- words

  function Xor(a: bv32, b: bv32): bv32 {
    a ^ b
  }

  function Not(a: bv32): bv32 {
    a ^ 0xFFFFFFFF
  }

  function Half(c: bv32): bv32 {
    c >> 1
  }

  predicate Odd(a: bv32) {
    a & 1 == 1
  }

  function Down(c: bv32): bv32 {
    c >> 8
  }

  function Low(c: bv32): Byte {
    c & 0xFF
  }

  /** The word whose bytes, lowest first, are these four. */
  function Word(b0: Byte, b1: Byte, b2: Byte, b3: Byte): bv32 {
    b0 | (b1 << 8) | (b2 << 16) | (b3 << 24)
  }

  /** Byte `k` of a word. */
  function ByteOf(w: bv32, k: nat): Byte
    requires k < 4
  {
    if k == 0 then w & 0xFF else if k == 1 then (w >> 8) & 0xFF else if k == 2 then (w >> 16) & 0xFF else (w >> 24) & 0xFF
  }

  // ---------------------------------------------------------------- the definition

  /** One bit of the division. */
  function Step(c: bv32): bv32 {
    if Odd(c) then Xor(Half(c), POLYNOMIAL) else Half(c)
  }

  /** Eight bits. */
  function Shift(c: bv32): bv32 {
    Step(Step(Step(Step(Step(Step(Step(Step(c))))))))
  }

  /** The register after the bytes `data`, bit by bit. */
  function Feed(c: bv32, data: seq<Byte>): bv32
    decreases |data|
  {
    if data == [] then c else Shift(Xor(Feed(c, data[..|data| - 1]), data[|data| - 1]))
  }

  /** The CRC of `data`, continuing from the CRC `previous` of what went before. */
  function Crc(data: seq<Byte>, previous: bv32): bv32 {
    Not(Feed(Not(previous), data))
  }

  // ---------------------------------------------------------------- the tables

  /** Entry `i` of table `slice`, by the recurrence that generates the tables. */
  function Lookup(slice: nat, i: bv32): bv32 {
    if slice == 0 then Shift(i)
    else Xor(Down(Lookup(slice - 1, i)), Shift(Low(Lookup(slice - 1, i))))
  }

  /** The register after `k` zero bytes. */
  function Zeros(k: nat, c: bv32): bv32 {
    if k == 0 then c else Shift(Zeros(k - 1, c))
  }

  // ---------------------------------------------------------------- facts about words

  lemma XorLaws(a: bv32, b: bv32, c: bv32)
    ensures Xor(Xor(a, b), c) == Xor(a, Xor(b, c)) && Xor(a, b) == Xor(b, a) && Xor(Xor(a, b), b) == a
    ensures Xor(0, a) == a
  {}

  lemma NotTwice(a: bv32)
    ensures Not(Not(a)) == a
  {}

  lemma OddXor(a: bv32, b: bv32)
    ensures Odd(Xor(a, b)) <==> Odd(a) != Odd(b)
    ensures Half(Xor(a, b)) == Xor(Half(a), Half(b))
  {}

  /** A word is its low byte and a word without one. */
  function High(c: bv32): bv32 {
    c & 0xFFFFFF00
  }

  lemma LowAndHigh(v: bv32)
    ensures Xor(High(v), Low(v)) == v && Down(High(v)) == Down(v) && NoLow(High(v))
  {}

  predicate NoLow(c: bv32) {
    c & 0xFF == 0
  }

  /** Eight clear low bits stay clear while the word moves down. */
  lemma LowBitsClear(c: bv32)
    requires NoLow(c)
    ensures var c1 := Half(c);
      var c2 := Half(c1);
      var c3 := Half(c2);
      var c4 := Half(c3);
      Even(c) && Even(c1) && Even(c2) && Even(c3) && Half(c3) == c4 && NoNibble(c4) && Half(Half(Half(Half(c4)))) == Down(c)
  {}

  predicate NoNibble(c: bv32) {
    c & 0xF == 0
  }

  lemma LowNibbleClear(c: bv32)
    requires NoNibble(c)
    ensures Even(c) && Even(Half(c)) && Even(Half(Half(c))) && Even(Half(Half(Half(c))))
  {}

  predicate Even(c: bv32) {
    c & 1 == 0
  }

  lemma StepDown(c: bv32)
    requires Even(c)
    ensures Step(c) == Half(c)
  {}

  // ---------------------------------------------------------------- linearity

  /** What a step takes off the register besides moving it. */
  function Taken(a: bv32): bv32 {
    if Odd(a) then POLYNOMIAL else 0
  }

  lemma StepParts(a: bv32)
    ensures Step(a) == Xor(Half(a), Taken(a))
  {
    XorLaws(Half(a), 0, 0);
    XorLaws(0, Half(a), 0);
    hide Xor, Half, Odd;
  }

  lemma TakenLinear(a: bv32, b: bv32)
    ensures Taken(Xor(a, b)) == Xor(Taken(a), Taken(b))
  {
    OddXor(a, b);
    assert Xor(POLYNOMIAL, POLYNOMIAL) == 0 && Xor(POLYNOMIAL, 0) == POLYNOMIAL && Xor(0, POLYNOMIAL) == POLYNOMIAL && Xor(0, 0) == 0;
    hide Xor, Odd;
  }

  lemma StepLinear(a: bv32, b: bv32)
    ensures Step(Xor(a, b)) == Xor(Step(a), Step(b))
  {
    hide Step, Xor, Half, Taken, Odd;
    StepParts(Xor(a, b));
    StepParts(a);
    StepParts(b);
    OddXor(a, b);
    TakenLinear(a, b);
    XorPairs(Half(a), Half(b), Taken(a), Taken(b));
  }

  lemma XorPairs(a: bv32, b: bv32, c: bv32, d: bv32)
    ensures Xor(Xor(a, b), Xor(c, d)) == Xor(Xor(a, c), Xor(b, d))
  {
    hide Xor;
    XorLaws(a, b, Xor(c, d));
    XorLaws(b, c, d);
    XorLaws(c, b, d);
    XorLaws(a, c, Xor(b, d));
  }

  lemma ShiftLinear(a: bv32, b: bv32)
    ensures Shift(Xor(a, b)) == Xor(Shift(a), Shift(b))
  {
    hide Step, Xor;
    var a1, b1 := Step(a), Step(b);
    StepLinear(a, b);
    var a2, b2 := Step(a1), Step(b1);
    StepLinear(a1, b1);
    var a3, b3 := Step(a2), Step(b2);
    StepLinear(a2, b2);
    var a4, b4 := Step(a3), Step(b3);
    StepLinear(a3, b3);
    var a5, b5 := Step(a4), Step(b4);
    StepLinear(a4, b4);
    var a6, b6 := Step(a5), Step(b5);
    StepLinear(a5, b5);
    var a7, b7 := Step(a6), Step(b6);
    StepLinear(a6, b6);
    StepLinear(a7, b7);
  }

  lemma {:induction false} ZerosLinear(k: nat, a: bv32, b: bv32)
    ensures Zeros(k, Xor(a, b)) == Xor(Zeros(k, a), Zeros(k, b))
  {
    hide Shift, Xor;
    if k > 0 {
      ZerosLinear(k - 1, a, b);
      ShiftLinear(Zeros(k - 1, a), Zeros(k - 1, b));
    }
  }

  lemma {:induction false} ZerosAdd(j: nat, k: nat, c: bv32)
    ensures Zeros(j + k, c) == Zeros(j, Zeros(k, c))
  {
    hide Shift;
    if j > 0 {
      ZerosAdd(j - 1, k, c);
    }
  }

  /** Bits above the lowest eight just move down. */
  lemma ShiftHigh(c: bv32)
    requires NoLow(c)
    ensures Shift(c) == Down(c)
  {
    hide Step, Half, Even, NoLow, Down, NoNibble;
    LowBitsClear(c);
    var c4 := Half(Half(Half(Half(c))));
    LowNibbleClear(c4);
    StepDown(c);
    StepDown(Half(c));
    StepDown(Half(Half(c)));
    StepDown(Half(Half(Half(c))));
    StepDown(c4);
    StepDown(Half(c4));
    StepDown(Half(Half(c4)));
    StepDown(Half(Half(Half(c4))));
  }

  /** One byte by table is one byte bit by bit. */
  lemma TableByte(c: bv32, b: Byte)
    ensures Xor(Down(c), Lookup(0, Xor(Low(c), b))) == Shift(Xor(c, b))
  {
    hide Shift, Xor, Down, Low, High, NoLow;
    LowAndHigh(c);
    XorLaws(High(c), Low(c), b);
    ShiftLinear(High(c), Xor(Low(c), b));
    ShiftHigh(High(c));
  }

  /** Moving a word down a byte, with table 0 for the byte, is feeding it eight zero bits. */
  lemma TableShift(v: bv32)
    ensures Xor(Down(v), Shift(Low(v))) == Shift(v)
  {
    hide Shift, Xor, Down, Low, High, NoLow;
    LowAndHigh(v);
    ShiftLinear(High(v), Low(v));
    ShiftHigh(High(v));
  }

  /** Table `slice` holds the register after `slice + 1` zero bytes. */
  lemma {:induction false} LookupIsZeros(slice: nat, i: bv32)
    ensures Lookup(slice, i) == Zeros(slice + 1, i)
  {
    hide Shift, Xor, Down, Low;
    if slice > 0 {
      LookupIsZeros(slice - 1, i);
      TableShift(Lookup(slice - 1, i));
    } else {
      assert Zeros(0, i) == i;
    }
  }

  // ---------------------------------------------------------------- whole words

  function Up(c: bv32): bv32 {
    c << 8
  }

  predicate NoTop(c: bv32) {
    c & 0xFF000000 == 0
  }

  lemma UpDown(c: bv32)
    requires NoTop(c)
    ensures NoLow(Up(c)) && Down(Up(c)) == c
  {}

  lemma WordNested(b0: Byte, b1: Byte, b2: Byte, b3: Byte)
    ensures Word(b0, b1, b2, b3) == Xor(b0, Up(Xor(b1, Up(Xor(b2, Up(b3))))))
    ensures NoTop(b3) && NoTop(Xor(b2, Up(b3))) && NoTop(Xor(b1, Up(Xor(b2, Up(b3)))))
  {}

  lemma BytesOfWord(w: bv32)
    ensures ByteOf(w, 0) == Low(w) && ByteOf(w, 1) == Low(Down(w)) && ByteOf(w, 2) == Low(Down(Down(w)))
    ensures ByteOf(w, 3) == Down(Down(Down(w)))
  {}

  /** A byte goes in with the rest of its word above it. */
  lemma ShiftOver(c: bv32, b: Byte, rest: bv32)
    requires NoTop(rest)
    ensures Shift(Xor(c, Xor(b, Up(rest)))) == Xor(Shift(Xor(c, b)), rest)
  {
    hide Shift, Xor, Down, Up, NoTop, NoLow;
    XorLaws(c, b, Up(rest));
    ShiftLinear(Xor(c, b), Up(rest));
    UpDown(rest);
    ShiftHigh(Up(rest));
  }

  /** Feeding the four bytes of a word one by one is feeding the word and 32 bits. */
  lemma FeedWord(c: bv32, b0: Byte, b1: Byte, b2: Byte, b3: Byte)
    ensures Shift(Xor(Shift(Xor(Shift(Xor(Shift(Xor(c, b0)), b1)), b2)), b3)) == Zeros(4, Xor(c, Word(b0, b1, b2, b3)))
  {
    hide Shift, Xor, Up, NoTop, Word;
    WordNested(b0, b1, b2, b3);
    var r2 := Xor(b2, Up(b3));
    var r1 := Xor(b1, Up(r2));
    ShiftOver(c, b0, r1);
    var c1 := Shift(Xor(c, b0));
    ShiftOver(c1, b1, r2);
    var c2 := Shift(Xor(c1, b1));
    ShiftOver(c2, b2, b3);
    ZerosFour(Xor(c, Word(b0, b1, b2, b3)));
  }

  lemma ZerosFour(c: bv32)
    ensures Zeros(4, c) == Shift(Shift(Shift(Shift(c))))
  {
    hide Shift;
    assert Zeros(1, c) == Shift(c);
    assert Zeros(2, c) == Shift(Shift(c));
    assert Zeros(3, c) == Shift(Shift(Shift(c)));
  }

  /** The low byte of a word leaves the register one byte later than the bytes above it. */
  lemma PeelByte(k: nat, w: bv32)
    ensures Zeros(k + 1, w) == Xor(Zeros(k, Down(w)), Lookup(k, Low(w)))
  {
    hide Shift, Xor, Down, Low;
    TableShift(w);
    ZerosAdd(k, 1, w);
    assert Zeros(1, w) == Shift(w) by { assert Zeros(0, w) == w; }
    ZerosLinear(k, Down(w), Shift(Low(w)));
    LookupIsZeros(k, Low(w));
    ZerosAdd(k, 1, Low(w));
    assert Zeros(1, Low(w)) == Shift(Low(w)) by { assert Zeros(0, Low(w)) == Low(w); }
  }

  /** Four table entries for the bytes of a word are the word fed through `k + 4` bytes. */
  lemma WordTables(k: nat, w: bv32)
    ensures Zeros(k + 4, w) ==
      Xor(Xor(Xor(Lookup(k, ByteOf(w, 3)), Lookup(k + 1, ByteOf(w, 2))), Lookup(k + 2, ByteOf(w, 1))), Lookup(k + 3, ByteOf(w, 0)))
  {
    hide Shift, Xor, Down, Low, ByteOf, Zeros, Lookup;
    BytesOfWord(w);
    PeelByte(k + 3, w);
    PeelByte(k + 2, Down(w));
    PeelByte(k + 1, Down(Down(w)));
    LookupIsZeros(k, Down(Down(Down(w))));
  }

  // ---------------------------------------------------------------- sixteen bytes

  /** The table look-ups for the sixteen bytes of four words. */
  function Block(one: bv32, two: bv32, three: bv32, four: bv32): bv32 {
    Xor(Xor(Xor(
      Xor(Xor(Xor(Lookup(0, ByteOf(four, 3)), Lookup(1, ByteOf(four, 2))), Lookup(2, ByteOf(four, 1))), Lookup(3, ByteOf(four, 0))),
      Xor(Xor(Xor(Lookup(4, ByteOf(three, 3)), Lookup(5, ByteOf(three, 2))), Lookup(6, ByteOf(three, 1))), Lookup(7, ByteOf(three, 0)))),
      Xor(Xor(Xor(Lookup(8, ByteOf(two, 3)), Lookup(9, ByteOf(two, 2))), Lookup(10, ByteOf(two, 1))), Lookup(11, ByteOf(two, 0)))),
      Xor(Xor(Xor(Lookup(12, ByteOf(one, 3)), Lookup(13, ByteOf(one, 2))), Lookup(14, ByteOf(one, 1))), Lookup(15, ByteOf(one, 0))))
  }

  lemma BlockIsZeros(one: bv32, two: bv32, three: bv32, four: bv32)
    ensures Block(one, two, three, four) == Xor(Xor(Xor(Zeros(4, four), Zeros(8, three)), Zeros(12, two)), Zeros(16, one))
  {
    hide Xor, ByteOf, Zeros, Lookup;
    WordTables(0, four);
    WordTables(4, three);
    WordTables(8, two);
    WordTables(12, one);
  }

  /** Four words one after the other. */
  lemma FourWords(c: bv32, one: bv32, two: bv32, three: bv32, four: bv32)
    ensures Zeros(4, Xor(Zeros(4, Xor(Zeros(4, Xor(Zeros(4, Xor(c, one)), two)), three)), four)) == Block(Xor(c, one), two, three, four)
  {
    hide Xor, Zeros, Block, Shift;
    BlockIsZeros(Xor(c, one), two, three, four);
    var c1 := Zeros(4, Xor(c, one));
    ZerosLinear(4, c1, two);
    ZerosAdd(4, 4, Xor(c, one));
    var c2 := Zeros(4, Xor(c1, two));
    ZerosLinear(4, c2, three);
    ZerosLinear(4, Zeros(8, Xor(c, one)), Zeros(4, two));
    ZerosAdd(4, 8, Xor(c, one));
    ZerosAdd(4, 4, two);
    var c3 := Zeros(4, Xor(c2, three));
    ZerosLinear(4, c3, four);
    ZerosLinear(4, Xor(Zeros(12, Xor(c, one)), Zeros(8, two)), Zeros(4, three));
    ZerosLinear(4, Zeros(12, Xor(c, one)), Zeros(8, two));
    ZerosAdd(4, 12, Xor(c, one));
    ZerosAdd(4, 8, two);
    ZerosAdd(4, 4, three);
    Reversed4(Zeros(16, Xor(c, one)), Zeros(12, two), Zeros(8, three), Zeros(4, four));
  }

  lemma Reversed4(a: bv32, b: bv32, c: bv32, d: bv32)
    ensures Xor(Xor(Xor(a, b), c), d) == Xor(Xor(Xor(d, c), b), a)
  {
    hide Xor;
    XorLaws(d, c, b);
    XorLaws(d, Xor(c, b), a);
    XorLaws(Xor(c, b), a, d);
    XorLaws(c, b, a);
    XorLaws(a, b, c);
    XorLaws(d, Xor(Xor(c, b), a), a);
  }

  function WordAt(data: seq<Byte>, i: nat): bv32
    requires i + 4 <= |data|
  {
    Word(data[i], data[i + 1], data[i + 2], data[i + 3])
  }

  lemma FeedFour(c: bv32, data: seq<Byte>, i: nat)
    requires i + 4 <= |data|
    ensures Feed(c, data[..i + 4]) == Zeros(4, Xor(Feed(c, data[..i]), WordAt(data, i)))
  {
    hide Shift, Xor, Word, Zeros;
    FeedOne(c, data, i);
    FeedOne(c, data, i + 1);
    FeedOne(c, data, i + 2);
    FeedOne(c, data, i + 3);
    FeedWord(Feed(c, data[..i]), data[i], data[i + 1], data[i + 2], data[i + 3]);
  }

  lemma FeedOne(c: bv32, data: seq<Byte>, i: nat)
    requires i < |data|
    ensures Feed(c, data[..i + 1]) == Shift(Xor(Feed(c, data[..i]), data[i]))
  {
    hide Shift, Xor;
    assert data[..i + 1][..i] == data[..i];
  }

  /** A block of sixteen bytes by tables is the sixteen bytes bit by bit. */
  lemma FeedSixteen(c: bv32, data: seq<Byte>, i: nat)
    requires i + 16 <= |data|
    ensures Feed(c, data[..i + 16]) ==
      Block(Xor(Feed(c, data[..i]), WordAt(data, i)), WordAt(data, i + 4), WordAt(data, i + 8), WordAt(data, i + 12))
  {
    hide Shift, Xor, Word, Zeros, Block, WordAt, Feed;
    FeedFour(c, data, i);
    FeedFour(c, data, i + 4);
    FeedFour(c, data, i + 8);
    FeedFour(c, data, i + 12);
    FourWords(Feed(c, data[..i]), WordAt(data, i), WordAt(data, i + 4), WordAt(data, i + 8), WordAt(data, i + 12));
  }

  /** The CRC of `data`, continuing from `previousCrc32`. */
  method Sliced(data: seq<Byte>, previousCrc32: bv32) returns (result: bv32)
    ensures result == Crc(data, previousCrc32)
  {
    hide Shift, Xor, Word, Zeros, Block, WordAt, Lookup, Not, Low, Down, Feed;
    var crc := Not(previousCrc32);
    var length: nat, current: nat := |data|, 0;
    assert data[..0] == [];
    FeedNothing(crc);
    while length >= 64
      invariant current + length == |data|
      invariant crc == Feed(Not(previousCrc32), data[..current])
    {
      for unrolling := 0 to 4
        invariant current + 16 * (4 - unrolling) + (length - 64) == |data|
        invariant crc == Feed(Not(previousCrc32), data[..current])
      {
        FeedSixteen(Not(previousCrc32), data, current);
        var one := Xor(crc, WordAt(data, current));
        var two := WordAt(data, current + 4);
        var three := WordAt(data, current + 8);
        var four := WordAt(data, current + 12);
        crc := Block(one, two, three, four);
        current := current + 16;
      }
      length := length - 64;
    }
    while length != 0
      invariant current + length == |data|
      invariant crc == Feed(Not(previousCrc32), data[..current])
    {
      FeedOne(Not(previousCrc32), data, current);
      TableByte(crc, data[current]);
      crc := Xor(Down(crc), Lookup(0, Xor(Low(crc), data[current])));
      current := current + 1;
      length := length - 1;
    }
    assert data[..current] == data;
    result := Not(crc);
  }

  lemma FeedNothing(c: bv32)
    ensures Feed(c, []) == c
  {}

  // ---------------------------------------------------------------- what the CRC promises

  lemma {:induction false} FeedConcat(c: bv32, a: seq<Byte>, b: seq<Byte>)
    ensures Feed(c, a + b) == Feed(Feed(c, a), b)
    decreases |b|
  {
    hide Shift, Xor;
    if b == [] {
      assert a + b == a;
    } else {
      var front := b[..|b| - 1];
      FeedConcat(c, a, front);
      assert (a + b)[..|a + b| - 1] == a + front;
    }
  }

  /** The CRC of a whole is the CRC of its second part, continued from that of the first. */
  lemma Composes(a: seq<Byte>, b: seq<Byte>, previous: bv32)
    ensures Crc(a + b, previous) == Crc(b, Crc(a, previous))
  {
    hide Feed, Not;
    FeedConcat(Not(previous), a, b);
    NotTwice(Feed(Not(previous), a));
  }

  /** The register before a step, told from the top bit after it. */
  function Unstep(r: bv32): bv32 {
    if r & 0x80000000 == 0 then r << 1 else ((r ^ POLYNOMIAL) << 1) | 1
  }

  lemma StepBack(a: bv32)
    ensures Unstep(Step(a)) == a
  {}

  lemma StepInjective(a: bv32, b: bv32)
    requires Step(a) == Step(b)
    ensures a == b
  {
    hide Step, Unstep;
    StepBack(a);
    StepBack(b);
  }

  lemma ShiftInjective(a: bv32, b: bv32)
    requires Shift(a) == Shift(b)
    ensures a == b
  {
    hide Step;
    var a1, b1 := Step(a), Step(b);
    var a2, b2 := Step(a1), Step(b1);
    var a3, b3 := Step(a2), Step(b2);
    var a4, b4 := Step(a3), Step(b3);
    var a5, b5 := Step(a4), Step(b4);
    var a6, b6 := Step(a5), Step(b5);
    var a7, b7 := Step(a6), Step(b6);
    StepInjective(a7, b7);
    StepInjective(a6, b6);
    StepInjective(a5, b5);
    StepInjective(a4, b4);
    StepInjective(a3, b3);
    StepInjective(a2, b2);
    StepInjective(a1, b1);
    StepInjective(a, b);
  }

  /** Different registers stay different over the same bytes. */
  lemma {:induction false} FeedInjective(c: bv32, d: bv32, data: seq<Byte>)
    requires Feed(c, data) == Feed(d, data)
    ensures c == d
    decreases |data|
  {
    hide Shift, Xor;
    if data != [] {
      var front, b := data[..|data| - 1], data[|data| - 1];
      ShiftInjective(Xor(Feed(c, front), b), Xor(Feed(d, front), b));
      XorLaws(Feed(c, front), b, 0);
      XorLaws(Feed(d, front), b, 0);
      FeedInjective(c, d, front);
    }
  }

  lemma {:induction false} ZerosInjective(k: nat, c: bv32, d: bv32)
    requires Zeros(k, c) == Zeros(k, d)
    ensures c == d
  {
    hide Shift;
    if k > 0 {
      ShiftInjective(Zeros(k - 1, c), Zeros(k - 1, d));
      ZerosInjective(k - 1, c, d);
    }
  }

  lemma WordInjective(w: seq<Byte>, v: seq<Byte>)
    requires |w| == |v| == 4 && WordAt(w, 0) == WordAt(v, 0)
    ensures w == v
  {
    WordBytes(w[0], w[1], w[2], w[3]);
    WordBytes(v[0], v[1], v[2], v[3]);
  }

  lemma WordBytes(b0: Byte, b1: Byte, b2: Byte, b3: Byte)
    ensures var w := Word(b0, b1, b2, b3);
      ByteOf(w, 0) == b0 && ByteOf(w, 1) == b1 && ByteOf(w, 2) == b2 && ByteOf(w, 3) == b3
  {}

  /** Two texts that differ only within four neighbouring bytes have different CRCs. */
  lemma BurstDetected(pre: seq<Byte>, w: seq<Byte>, v: seq<Byte>, post: seq<Byte>, previous: bv32)
    requires |w| == |v| == 4 && w != v
    ensures Crc(pre + w + post, previous) != Crc(pre + v + post, previous)
  {
    hide Feed, Not, Zeros, Xor, Word, Shift, WordAt;
    if Crc(pre + w + post, previous) == Crc(pre + v + post, previous) {
      var c := Not(previous);
      NotTwice(Feed(c, pre + w + post));
      NotTwice(Feed(c, pre + v + post));
      FeedConcat(c, pre + w, post);
      FeedConcat(c, pre + v, post);
      FeedInjective(Feed(c, pre + w), Feed(c, pre + v), post);
      FeedConcat(c, pre, w);
      FeedConcat(c, pre, v);
      var d := Feed(c, pre);
      FeedFour(d, w, 0);
      FeedFour(d, v, 0);
      assert w[..4] == w && v[..4] == v && w[..0] == [] && v[..0] == [];
      FeedNothing(d);
      ZerosInjective(4, Xor(d, WordAt(w, 0)), Xor(d, WordAt(v, 0)));
      XorLaws(WordAt(w, 0), d, 0);
      XorLaws(WordAt(v, 0), d, 0);
      XorLaws(d, WordAt(w, 0), 0);
      XorLaws(d, WordAt(v, 0), 0);
      WordInjective(w, v);
    }
  }
}
