/** Bytes as numbers and as bit vectors. */
module Octets {

  /** Eight bits, lowest first. */
  function Pack(b0: bool, b1: bool, b2: bool, b3: bool, b4: bool, b5: bool, b6: bool, b7: bool): bv8 {
    (if b0 then 0x01 else 0) | (if b1 then 0x02 else 0) | (if b2 then 0x04 else 0) | (if b3 then 0x08 else 0) |
    (if b4 then 0x10 else 0) | (if b5 then 0x20 else 0) | (if b6 then 0x40 else 0) | (if b7 then 0x80 else 0)
  }

  predicate Odd(x: int) { x % 2 == 1 }

  function Half(x: int): int { x / 2 }

  /** The bits of a number below 256. */
  function Octet(x: int): bv8 {
    var x1 := Half(x); var x2 := Half(x1); var x3 := Half(x2); var x4 := Half(x3);
    var x5 := Half(x4); var x6 := Half(x5); var x7 := Half(x6);
    Pack(Odd(x), Odd(x1), Odd(x2), Odd(x3), Odd(x4), Odd(x5), Odd(x6), Odd(x7))
  }

  lemma PackApart(b0: bool, b1: bool, b2: bool, b3: bool, b4: bool, b5: bool, b6: bool, b7: bool,
                  c0: bool, c1: bool, c2: bool, c3: bool, c4: bool, c5: bool, c6: bool, c7: bool)
    requires Pack(b0, b1, b2, b3, b4, b5, b6, b7) == Pack(c0, c1, c2, c3, c4, c5, c6, c7)
    ensures b0 == c0 && b1 == c1 && b2 == c2 && b3 == c3 && b4 == c4 && b5 == c5 && b6 == c6 && b7 == c7
  {
  }

  lemma SameHalves(x: int, y: int)
    requires Odd(x) == Odd(y) && Half(x) == Half(y)
    ensures x == y
  {
  }

  lemma HalvesShrink(x: int, n: nat)
    requires 0 <= x < 2 * n
    ensures 0 <= Half(x) < n
  {
  }

  /** Different numbers have different bits. */
  lemma SameOctet(x: int, y: int)
    requires 0 <= x < 256 && 0 <= y < 256 && Octet(x) == Octet(y)
    ensures x == y
  {
    var x1 := Half(x); var x2 := Half(x1); var x3 := Half(x2); var x4 := Half(x3);
    var x5 := Half(x4); var x6 := Half(x5); var x7 := Half(x6);
    var y1 := Half(y); var y2 := Half(y1); var y3 := Half(y2); var y4 := Half(y3);
    var y5 := Half(y4); var y6 := Half(y5); var y7 := Half(y6);
    PackApart(Odd(x), Odd(x1), Odd(x2), Odd(x3), Odd(x4), Odd(x5), Odd(x6), Odd(x7),
              Odd(y), Odd(y1), Odd(y2), Odd(y3), Odd(y4), Odd(y5), Odd(y6), Odd(y7));
    LastHalf(x);
    LastHalf(y);
    hide Odd, Half, Pack;
    SameHalves(x7, y7);
    SameHalves(x6, y6);
    SameHalves(x5, y5);
    SameHalves(x4, y4);
    SameHalves(x3, y3);
    SameHalves(x2, y2);
    SameHalves(x1, y1);
    SameHalves(x, y);
  }

  lemma LastHalf(x: int)
    requires 0 <= x < 256
    ensures Half(Half(Half(Half(Half(Half(Half(Half(x)))))))) == 0
  {
    hide Half;
    HalvesShrink(x, 128);
    HalvesShrink(Half(x), 64);
    HalvesShrink(Half(Half(x)), 32);
    HalvesShrink(Half(Half(Half(x))), 16);
    HalvesShrink(Half(Half(Half(Half(x)))), 8);
    HalvesShrink(Half(Half(Half(Half(Half(x))))), 4);
    HalvesShrink(Half(Half(Half(Half(Half(Half(x)))))), 2);
    HalvesShrink(Half(Half(Half(Half(Half(Half(Half(x))))))), 1);
  }

  function Weight(b: bool, rest: nat): nat {
    (if b then 1 else 0) + 2 * rest
  }

  lemma WeightParts(b: bool, rest: nat)
    ensures Odd(Weight(b, rest)) == b && Half(Weight(b, rest)) == rest
  {
  }

  /** Bits of weight 1, 2, 4 and so on up to 128. */
  lemma OctetOfBits(b0: bool, b1: bool, b2: bool, b3: bool, b4: bool, b5: bool, b6: bool, b7: bool)
    ensures var x := Weight(b0, Weight(b1, Weight(b2, Weight(b3, Weight(b4, Weight(b5, Weight(b6, Weight(b7, 0))))))));
            Octet(x) == Pack(b0, b1, b2, b3, b4, b5, b6, b7)
  {
    hide Odd, Half, Weight, Pack;
    var x7 := Weight(b7, 0);
    var x6 := Weight(b6, x7);
    var x5 := Weight(b5, x6);
    var x4 := Weight(b4, x5);
    var x3 := Weight(b3, x4);
    var x2 := Weight(b2, x3);
    var x1 := Weight(b1, x2);
    WeightParts(b7, 0);
    WeightParts(b6, x7);
    WeightParts(b5, x6);
    WeightParts(b4, x5);
    WeightParts(b3, x4);
    WeightParts(b2, x3);
    WeightParts(b1, x2);
    WeightParts(b0, x1);
  }

  /** The characters 1 to 9, as an example. */
  lemma KnownOctets()
    ensures Octet(49) == 49 && Octet(50) == 50 && Octet(51) == 51 && Octet(52) == 52 && Octet(53) == 53
    ensures Octet(54) == 54 && Octet(55) == 55 && Octet(56) == 56 && Octet(57) == 57
  {
    hide Octet;
    OctetOfBits(true, false, false, false, true, true, false, false);
    OctetOfBits(false, true, false, false, true, true, false, false);
    OctetOfBits(true, true, false, false, true, true, false, false);
    OctetOfBits(false, false, true, false, true, true, false, false);
    OctetOfBits(true, false, true, false, true, true, false, false);
    OctetOfBits(false, true, true, false, true, true, false, false);
    OctetOfBits(true, true, true, false, true, true, false, false);
    OctetOfBits(false, false, false, true, true, true, false, false);
    OctetOfBits(true, false, false, true, true, true, false, false);
  }
}
