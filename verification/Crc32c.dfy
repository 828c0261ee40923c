/** CRC-32C, the polynomial of section 12.1 of RFC 3720, in reflected form.

    The reference is the shift register fed one message bit at a time, least significant
    bit of each byte first.  Everything faster rests on the register step being linear
    over exclusive or. */
module Crc32c {

  const POLY: bv32 := 0x82F63B78

  function Xor(x: bv32, y: bv32): bv32 { x ^ y }

  function Half(x: bv32): bv32 { x >> 1 }

  predicate Odd(x: bv32) { x & 1 == 1 }

  /** One step of the shift register. */
  function Step(x: bv32): bv32 {
    if Odd(x) then Xor(Half(x), POLY) else Half(x)
  }

  function Steps(x: bv32, n: nat): bv32
    decreases n
  {
    if n == 0 then x else Steps(Step(x), n - 1)
  }

  /** Reference: the bits of a byte enter the register one at a time, lowest first; `rest`
      holds the n bits still to come. */
  function FeedBits(crc: bv32, rest: bv32, n: nat): bv32
    decreases n
  {
    if n == 0 then crc
    else FeedBits(Step(Xor(crc, if Odd(rest) then 1 else 0)), Half(rest), n - 1)
  }

  function FeedByte(crc: bv32, b: bv8): bv32 {
    FeedBits(crc, b as bv32, 8)
  }

  /** The CRC of a byte string from a given register state. */
  function Crc(crc: bv32, data: seq<bv8>): bv32
    decreases |data|
  {
    if data == [] then crc else Crc(FeedByte(crc, data[0]), data[1..])
  }

  // ------------------------------------------------------------ linearity

  lemma XorAssoc(a: bv32, b: bv32, c: bv32)
    ensures Xor(Xor(a, b), c) == Xor(a, Xor(b, c))
  {
  }

  lemma XorComm(a: bv32, b: bv32)
    ensures Xor(a, b) == Xor(b, a)
  {
  }

  lemma XorMove(a: bv32, b: bv32, c: bv32, d: bv32)
    ensures Xor(Xor(a, b), Xor(c, d)) == Xor(Xor(a, c), Xor(b, d))
  {
    hide Xor;
    XorAssoc(a, b, Xor(c, d));
    XorAssoc(b, c, d);
    XorComm(b, c);
    XorAssoc(c, b, d);
    XorAssoc(a, c, Xor(b, d));
  }

  lemma XorZero(x: bv32)
    ensures Xor(x, x) == 0 && Xor(x, 0) == x && Xor(0, x) == x
  {
  }

  lemma XorParts(x: bv32, y: bv32)
    ensures Half(Xor(x, y)) == Xor(Half(x), Half(y))
    ensures Odd(Xor(x, y)) <==> Odd(x) != Odd(y)
  {
  }

  lemma StepLinear(x: bv32, y: bv32)
    ensures Step(Xor(x, y)) == Xor(Step(x), Step(y))
  {
    hide Xor, Half, Odd;
    XorParts(x, y);
    XorZero(Half(x));
    XorZero(Half(y));
    XorZero(POLY);
    XorZero(Xor(Half(x), Half(y)));
    XorMove(Half(x), if Odd(x) then POLY else 0, Half(y), if Odd(y) then POLY else 0);
  }

  lemma {:induction false} StepsLinear(x: bv32, y: bv32, n: nat)
    ensures Steps(Xor(x, y), n) == Xor(Steps(x, n), Steps(y, n))
    decreases n
  {
    hide Step, Xor;
    if n == 0 {
    } else {
      StepLinear(x, y);
      StepsLinear(Step(x), Step(y), n - 1);
    }
  }

  lemma {:induction false} StepsAdd(x: bv32, m: nat, n: nat)
    ensures Steps(x, m + n) == Steps(Steps(x, m), n)
    decreases m
  {
    hide Step;
    if m == 0 {
    } else {
      StepsAdd(Step(x), m - 1, n);
    }
  }

  // --------------------------------------------------------- whole bytes

  function Halves(x: bv32, n: nat): bv32
    decreases n
  {
    if n == 0 then x else Halves(Half(x), n - 1)
  }

  /** The low n bits are clear. */
  predicate EvenFor(x: bv32, n: nat)
    decreases n
  {
    n == 0 || (!Odd(x) && EvenFor(Half(x), n - 1))
  }

  /** A register only shifts while its low bits are clear. */
  lemma {:induction false} EvenOnlyShifts(x: bv32, n: nat)
    requires EvenFor(x, n)
    ensures Steps(x, n) == Halves(x, n)
    decreases n
  {
    hide Half, Odd, Xor;
    if n == 0 {
    } else {
      EvenOnlyShifts(Half(x), n - 1);
    }
  }

  lemma ShiftsAreHalves(x: bv32)
    ensures Half(x >> 1) == x >> 2 && Half(x >> 2) == x >> 3 && Half(x >> 3) == x >> 4
    ensures Half(x >> 4) == x >> 5 && Half(x >> 5) == x >> 6 && Half(x >> 6) == x >> 7
    ensures Half(x >> 7) == x >> 8 && Half(x) == x >> 1
  {
  }

  lemma EightHalves(x: bv32)
    ensures Halves(x, 8) == x >> 8
  {
    ShiftsAreHalves(x);
    hide Half;
    assert Halves(x, 8) == Halves(x >> 1, 7);
    assert Halves(x >> 1, 7) == Halves(x >> 2, 6);
    assert Halves(x >> 2, 6) == Halves(x >> 3, 5);
    assert Halves(x >> 3, 5) == Halves(x >> 4, 4);
    assert Halves(x >> 4, 4) == Halves(x >> 5, 3);
    assert Halves(x >> 5, 3) == Halves(x >> 6, 2);
    assert Halves(x >> 6, 2) == Halves(x >> 7, 1);
  }

  lemma LowByteClear(x: bv32)
    requires x & 0xFF == 0
    ensures !Odd(x) && !Odd(x >> 1) && !Odd(x >> 2) && !Odd(x >> 3)
    ensures !Odd(x >> 4) && !Odd(x >> 5) && !Odd(x >> 6) && !Odd(x >> 7)
  {
  }

  lemma LowByteClearIsEven(x: bv32)
    requires x & 0xFF == 0
    ensures EvenFor(x, 8)
  {
    LowByteClear(x);
    ShiftsAreHalves(x);
    hide Half, Odd;
    assert EvenFor(x >> 7, 1);
    assert EvenFor(x >> 6, 2);
    assert EvenFor(x >> 5, 3);
    assert EvenFor(x >> 4, 4);
    assert EvenFor(x >> 3, 5);
    assert EvenFor(x >> 2, 6);
    assert EvenFor(x >> 1, 7);
  }

  lemma EightShifts(x: bv32)
    requires x & 0xFF == 0
    ensures Steps(x, 8) == x >> 8
  {
    hide Steps, Halves, EvenFor;
    LowByteClearIsEven(x);
    EvenOnlyShifts(x, 8);
    EightHalves(x);
  }

  lemma LowestBit(rest: bv32)
    ensures var bit: bv32 := if Odd(rest) then 1 else 0;
            rest == Xor(bit, Xor(bit, rest)) && !Odd(Xor(bit, rest)) && Half(Xor(bit, rest)) == Half(rest)
  {
  }

  lemma FeedStep(crc: bv32, rest: bv32)
    ensures Step(Xor(crc, rest)) == Xor(Step(Xor(crc, if Odd(rest) then 1 else 0)), Half(rest))
  {
    var bit: bv32 := if Odd(rest) then 1 else 0;
    hide Half, Odd, Xor;
    LowestBit(rest);
    XorAssoc(crc, bit, Xor(bit, rest));
    StepLinear(Xor(crc, bit), Xor(bit, rest));
  }

  /** Feeding bits one at a time is adding them all first and then stepping. */
  lemma {:induction false} FeedBitsIsSteps(crc: bv32, rest: bv32, n: nat)
    ensures Xor(FeedBits(crc, rest, n), Halves(rest, n)) == Steps(Xor(crc, rest), n)
    decreases n
  {
    hide Step, Xor, Half, Odd;
    if n == 0 {
    } else {
      FeedStep(crc, rest);
      FeedBitsIsSteps(Step(Xor(crc, if Odd(rest) then 1 else 0)), Half(rest), n - 1);
    }
  }

  lemma FeedByteIsSteps(crc: bv32, b: bv8)
    ensures FeedByte(crc, b) == Steps(Xor(crc, b as bv32), 8)
  {
    hide FeedBits, Steps, Halves, Xor;
    FeedBitsIsSteps(crc, b as bv32, 8);
    EightHalves(b as bv32);
    assert (b as bv32) >> 8 == 0;
    XorZero(FeedBits(crc, b as bv32, 8));
  }

  lemma {:induction false} CrcConcat(crc: bv32, a: seq<bv8>, b: seq<bv8>)
    ensures Crc(crc, a + b) == Crc(Crc(crc, a), b)
    decreases |a|
  {
    hide FeedByte;
    if a == [] {
      assert a + b == b;
    } else {
      assert (a + b)[1..] == a[1..] + b;
      CrcConcat(FeedByte(crc, a[0]), a[1..], b);
    }
  }

  lemma CrcAtEnd(crc: bv32, data: seq<bv8>)
    ensures Crc(crc, data[|data|..]) == crc && data[0..] == data
  {
  }
}
