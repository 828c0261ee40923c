/** What makes the checksum of this project CRC-32C: the shift register divides by the polynomial of
    section 12.1 of RFC 3720, and the known check values come out. */
module CrcStandard {
  import opened Crc32c
  import opened CrcApi

  // --------------------------------------------- division, not reflected

  /** x to the k, as a coefficient vector. */
  function Term(k: bv32): bv32
    requires k < 32
  {
    1 << k
  }

  const GENERATOR: bv32 := 0x1EDC6F41

  /** The terms of the generator polynomial below x^32. */
  lemma GeneratorTerms()
    ensures GENERATOR ==
            Term(28) | Term(27) | Term(26) | Term(25) | Term(23) | Term(22) | Term(20) | Term(19) | Term(18) |
            Term(14) | Term(13) | Term(11) | Term(10) | Term(9) | Term(8) | Term(6) | Term(0)
  {
  }

  const TOP: bv32 := 0x80000000

  function Double(x: bv32): bv32 { x << 1 }

  predicate HasTop(x: bv32) { x & TOP != 0 }

  /** One step of polynomial division: times x, and minus the generator if that reaches x^32. */
  function Divide(x: bv32): bv32 {
    if HasTop(x) then Xor(Double(x), GENERATOR) else Double(x)
  }

  /** The same bits in the opposite order. */
  function Mirror(x: bv32): bv32 {
    var a := ((x >> 1) & 0x55555555) | ((x & 0x55555555) << 1);
    var b := ((a >> 2) & 0x33333333) | ((a & 0x33333333) << 2);
    var c := ((b >> 4) & 0x0F0F0F0F) | ((b & 0x0F0F0F0F) << 4);
    var d := ((c >> 8) & 0x00FF00FF) | ((c & 0x00FF00FF) << 8);
    (d >> 16) | (d << 16)
  }

  lemma MirrorBit(x: bv32, k: bv32)
    requires k < 32
    ensures (Mirror(x) >> k) & 1 == (x >> (31 - k)) & 1
  {
  }

  lemma MirrorHalf(x: bv32)
    ensures Mirror(Half(x)) == Double(Mirror(x))
    ensures Odd(x) <==> HasTop(Mirror(x))
  {
  }

  lemma MirrorXor(x: bv32, y: bv32)
    ensures Mirror(Xor(x, y)) == Xor(Mirror(x), Mirror(y))
  {
  }

  lemma MirrorConstants()
    ensures Mirror(0) == 0 && Mirror(1) == TOP && Mirror(POLY) == GENERATOR
  {
  }

  /** A step of the register is a step of the division. */
  lemma StepDivides(x: bv32)
    ensures Mirror(Step(x)) == Divide(Mirror(x))
  {
    hide Mirror, Half, Odd, Xor, Double, HasTop;
    MirrorHalf(x);
    MirrorXor(Half(x), POLY);
    MirrorConstants();
  }

  /** The bits of a byte, lowest first, are added to the remainder at x^31 one after another. */
  function DivideBits(r: bv32, rest: bv32, n: nat): bv32
    decreases n
  {
    if n == 0 then r else DivideBits(Divide(Xor(r, if Odd(rest) then TOP else 0)), Half(rest), n - 1)
  }

  /** The remainder of a message, from a given remainder on. */
  function Remainder(r: bv32, data: seq<bv8>): bv32
    decreases |data|
  {
    if data == [] then r else Remainder(DivideBits(r, data[0] as bv32, 8), data[1..])
  }

  lemma {:induction false} FeedBitsDivide(crc: bv32, rest: bv32, n: nat)
    ensures Mirror(FeedBits(crc, rest, n)) == DivideBits(Mirror(crc), rest, n)
    decreases n
  {
    hide Mirror, Divide, Step, Xor, Odd, Half;
    if n == 0 {
    } else {
      var bit: bv32 := if Odd(rest) then 1 else 0;
      MirrorXor(crc, bit);
      MirrorConstants();
      StepDivides(Xor(crc, bit));
      FeedBitsDivide(Step(Xor(crc, bit)), Half(rest), n - 1);
    }
  }

  /** The register is the remainder of the division by the generator, bits in the opposite order. */
  lemma {:induction false} CrcIsRemainder(crc: bv32, data: seq<bv8>)
    ensures Mirror(Crc(crc, data)) == Remainder(Mirror(crc), data)
    decreases |data|
  {
    hide Mirror, FeedBits, DivideBits;
    if data == [] {
    } else {
      FeedBitsDivide(crc, data[0] as bv32, 8);
      CrcIsRemainder(FeedByte(crc, data[0]), data[1..]);
    }
  }

  // -------------------------------------------------------------- examples

  function Eight(x: bv32): bv32 {
    Step(Step(Step(Step(Step(Step(Step(Step(x))))))))
  }

  lemma EightSteps(x: bv32)
    ensures Steps(x, 8) == Eight(x)
  {
    hide Step;
    StepsAdd(x, 1, 7);
    StepsAdd(Step(x), 1, 6);
    StepsAdd(Step(Step(x)), 1, 5);
    StepsAdd(Step(Step(Step(x))), 1, 4);
    StepsAdd(Step(Step(Step(Step(x)))), 1, 3);
    StepsAdd(Step(Step(Step(Step(Step(x))))), 1, 2);
    StepsAdd(Step(Step(Step(Step(Step(Step(x)))))), 1, 1);
  }

  lemma Fed(crc: bv32, b: bv8, rest: Bytes)
    ensures Crc(crc, [b] + rest) == Crc(Eight(Xor(crc, b as bv32)), rest)
  {
    hide Eight, Xor, FeedByte;
    FeedByteIsSteps(crc, b);
    EightSteps(Xor(crc, b as bv32));
    assert ([b] + rest)[1..] == rest;
  }

  function Zeros(n: nat): Bytes {
    seq(n, _ => 0)
  }

  lemma ZeroFed(crc: bv32, n: nat)
    ensures Crc(crc, Zeros(n + 1)) == Crc(Eight(crc), Zeros(n))
  {
    hide Eight, Crc, Xor;
    XorZero(crc);
    Fed(crc, 0, Zeros(n));
    assert Zeros(n + 1) == [0] + Zeros(n);
  }

  lemma EightZerosFed(crc: bv32, n: nat)
    ensures Crc(crc, Zeros(n + 8))
         == Crc(Eight(Eight(Eight(Eight(Eight(Eight(Eight(Eight(crc)))))))), Zeros(n))
  {
    hide Eight, Crc, Zeros;
    ZeroFed(crc, n + 7);
    ZeroFed(Eight(crc), n + 6);
    ZeroFed(Eight(Eight(crc)), n + 5);
    ZeroFed(Eight(Eight(Eight(crc))), n + 4);
    ZeroFed(Eight(Eight(Eight(Eight(crc)))), n + 3);
    ZeroFed(Eight(Eight(Eight(Eight(Eight(crc))))), n + 2);
    ZeroFed(Eight(Eight(Eight(Eight(Eight(Eight(crc)))))), n + 1);
    ZeroFed(Eight(Eight(Eight(Eight(Eight(Eight(Eight(crc))))))), n);
  }

  lemma ZeroStates0()
    ensures Eight(Eight(Eight(Eight(Eight(Eight(Eight(Eight(0xFFFFFFFF)))))))) == 0x73D74D75
  {
    assert Eight(0xFFFFFFFF) == 0xAD82ACAE;
    assert Eight(0xAD82ACAE) == 0x0E9E882D;
    assert Eight(0x0E9E882D) == 0x9F9B5C85;
    assert Eight(0x9F9B5C85) == 0xB798B438;
    assert Eight(0xB798B438) == 0xBA8D89CA;
    assert Eight(0xBA8D89CA) == 0xA8D58375;
    assert Eight(0xA8D58375) == 0x44C19592;
    assert Eight(0x44C19592) == 0x73D74D75;
  }

  lemma ZeroStates1()
    ensures Eight(Eight(Eight(Eight(Eight(Eight(Eight(Eight(0x73D74D75)))))))) == 0xBD8F6515
  {
    assert Eight(0x73D74D75) == 0x441A975C;
    assert Eight(0x441A975C) == 0x1C220F94;
    assert Eight(0x1C220F94) == 0x552E4907;
    assert Eight(0x552E4907) == 0xD49F4AA2;
    assert Eight(0xD49F4AA2) == 0x43A45A1B;
    assert Eight(0x43A45A1B) == 0x8994C80E;
    assert Eight(0x8994C80E) == 0xACF12BEF;
    assert Eight(0xACF12BEF) == 0xBD8F6515;
  }

  lemma ZeroStates2()
    ensures Eight(Eight(Eight(Eight(Eight(Eight(Eight(Eight(0xBD8F6515)))))))) == 0x7B041311
  {
    assert Eight(0xBD8F6515) == 0x25125C16;
    assert Eight(0x25125C16) == 0x36DA32DB;
    assert Eight(0x36DA32DB) == 0x4A6C90A2;
    assert Eight(0x4A6C90A2) == 0x433AA9C1;
    assert Eight(0x433AA9C1) == 0x31A59F6E;
    assert Eight(0x31A59F6E) == 0xCD8F89DA;
    assert Eight(0xCD8F89DA) == 0xB8FC461A;
    assert Eight(0xB8FC461A) == 0x7B041311;
  }

  lemma ZeroStates3()
    ensures Eight(Eight(Eight(Eight(Eight(Eight(Eight(Eight(0x7B041311)))))))) == 0x756EC955
  {
    assert Eight(0x7B041311) == 0xE24E407F;
    assert Eight(0xE24E407F) == 0x2F692669;
    assert Eight(0x2F692669) == 0x195B2188;
    assert Eight(0x195B2188) == 0x08363896;
    assert Eight(0x08363896) == 0xB4012DC7;
    assert Eight(0xB4012DC7) == 0x17F34302;
    assert Eight(0x17F34302) == 0xE12C83B4;
    assert Eight(0xE12C83B4) == 0x756EC955;
  }

  lemma NoneLeft(crc: bv32)
    ensures Crc(crc, Zeros(0)) == crc
  {
  }

  /** The example of 32 zero bytes in appendix B.4 of RFC 3720. */
  lemma ThirtyTwoZeros()
    ensures Compute(Zeros(32)) == 0x8A9136AA
  {
    hide Crc, Eight, Zeros;
    ZeroStates0();
    ZeroStates1();
    ZeroStates2();
    ZeroStates3();
    EightZerosFed(0xFFFFFFFF, 24);
    EightZerosFed(0x73D74D75, 16);
    EightZerosFed(0xBD8F6515, 8);
    EightZerosFed(0x7B041311, 0);
    NoneLeft(0x756EC955);
  }

  const ONE_TO_NINE: Bytes := [49, 50, 51, 52, 53, 54, 55, 56, 57]

  lemma DigitFed(crc: bv32, i: nat, next: bv32)
    requires i < 9 && Eight(Xor(crc, ONE_TO_NINE[i] as bv32)) == next
    ensures Crc(crc, ONE_TO_NINE[i..]) == Crc(next, ONE_TO_NINE[i + 1..])
  {
    hide Crc, Eight, Xor;
    Fed(crc, ONE_TO_NINE[i], ONE_TO_NINE[i + 1..]);
    assert ONE_TO_NINE[i..] == [ONE_TO_NINE[i]] + ONE_TO_NINE[i + 1..];
  }

  lemma NoDigitLeft(crc: bv32)
    ensures Crc(crc, ONE_TO_NINE[9..]) == crc
  {
  }

  /** The check value of CRC-32C: the nine characters 1 to 9. */
  lemma OneToNine()
    ensures Compute([49, 50, 51, 52, 53, 54, 55, 56, 57]) == 0xE3069283
  {
    hide Crc;
    DigitFed(0xFFFFFFFF, 0, 0x6F0A661C);
    DigitFed(0x6F0A661C, 1, 0x8CAA3B9F);
    DigitFed(0x8CAA3B9F, 2, 0xEF84D04D);
    DigitFed(0xEF84D04D, 3, 0x09C50B11);
    DigitFed(0x09C50B11, 4, 0xE72EDCCA);
    DigitFed(0xE72EDCCA, 5, 0xBECA8E79);
    DigitFed(0xBECA8E79, 6, 0xEDBD6815);
    DigitFed(0xEDBD6815, 7, 0x9F787F65);
    DigitFed(0x9F787F65, 8, 0x1CF96D7C);
    NoDigitLeft(0x1CF96D7C);
    assert ONE_TO_NINE[0..] == [49, 50, 51, 52, 53, 54, 55, 56, 57];
  }
}
