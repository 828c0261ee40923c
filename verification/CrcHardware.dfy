/** The CRC-32C routines of src/crc32c/crc32c_hardware.c, built on the processor's CRC32
    instruction with operands of 8, 16, 32 and 64 bits. */
module CrcHardware {
  import opened Crc32c

  function Half64(w: bv64): bv64 { w >> 1 }

  predicate Odd64(w: bv64) { w & 1 == 1 }

  function Shr64(w: bv64): bv64 { w >> 8 }

  function Join(b: bv8, w: bv64): bv64 { (b as bv64) | (w << 8) }

  /** The CRC32 instruction: the low n bits of the operand enter the register in turn. */
  function Crc32(crc: bv32, w: bv64, n: nat): bv32
    decreases n
  {
    if n == 0 then crc
    else Crc32(Step(Xor(crc, if Odd64(w) then 1 else 0)), Half64(w), n - 1)
  }

  /** An operand read from memory, least significant byte first. */
  function Operand(bytes: seq<bv8>): bv64 {
    if bytes == [] then 0 else Join(bytes[0], Operand(bytes[1..]))
  }

  // --------------------------------------------------- one byte at a time

  function Halves64(w: bv64, n: nat): bv64
    decreases n
  {
    if n == 0 then w else Halves64(Half64(w), n - 1)
  }

  lemma {:induction false} Crc32Split(crc: bv32, w: bv64, m: nat, n: nat)
    ensures Crc32(crc, w, m + n) == Crc32(Crc32(crc, w, m), Halves64(w, m), n)
    decreases m
  {
    hide Step, Xor, Half64, Odd64;
    if m == 0 {
    } else {
      Crc32Split(Step(Xor(crc, if Odd64(w) then 1 else 0)), Half64(w), m - 1, n);
    }
  }

  /** The low n bits of operand and register value are the same. */
  predicate AgreeFor(w: bv64, x: bv32, n: nat)
    decreases n
  {
    n == 0 || (Odd64(w) == Odd(x) && AgreeFor(Half64(w), Half(x), n - 1))
  }

  lemma {:induction false} SameBitsSameCrc(crc: bv32, w: bv64, x: bv32, n: nat)
    requires AgreeFor(w, x, n)
    ensures Crc32(crc, w, n) == FeedBits(crc, x, n)
    decreases n
  {
    hide Step, Xor, Half, Odd, Half64, Odd64;
    if n == 0 {
    } else {
      SameBitsSameCrc(Step(Xor(crc, if Odd64(w) then 1 else 0)), Half64(w), Half(x), n - 1);
    }
  }

  /** Bits 0 to 7, lowest first. */
  function LowBits64(w: bv64): seq<bool> {
    [w & 1 == 1, w & 2 == 2, w & 4 == 4, w & 8 == 8, w & 16 == 16, w & 32 == 32, w & 64 == 64, w & 128 == 128]
  }

  function LowBits(x: bv32): seq<bool> {
    [x & 1 == 1, x & 2 == 2, x & 4 == 4, x & 8 == 8, x & 16 == 16, x & 32 == 32, x & 64 == 64, x & 128 == 128]
  }

  lemma LowBitsOfJoin(b: bv8, v: bv64)
    ensures LowBits64(Join(b, v)) == LowBits(b as bv32)
  {
  }

  lemma Walk64(w: bv64) returns (w1: bv64, w2: bv64, w3: bv64, w4: bv64, w5: bv64, w6: bv64, w7: bv64)
    ensures w1 == Half64(w) && w2 == Half64(w1) && w3 == Half64(w2) && w4 == Half64(w3)
    ensures w5 == Half64(w4) && w6 == Half64(w5) && w7 == Half64(w6)
    ensures LowBits64(w) == [Odd64(w), Odd64(w1), Odd64(w2), Odd64(w3), Odd64(w4), Odd64(w5), Odd64(w6), Odd64(w7)]
  {
    w1, w2, w3, w4, w5, w6, w7 := w >> 1, w >> 2, w >> 3, w >> 4, w >> 5, w >> 6, w >> 7;
  }

  lemma Walk32(x: bv32) returns (x1: bv32, x2: bv32, x3: bv32, x4: bv32, x5: bv32, x6: bv32, x7: bv32)
    ensures x1 == Half(x) && x2 == Half(x1) && x3 == Half(x2) && x4 == Half(x3)
    ensures x5 == Half(x4) && x6 == Half(x5) && x7 == Half(x6)
    ensures LowBits(x) == [Odd(x), Odd(x1), Odd(x2), Odd(x3), Odd(x4), Odd(x5), Odd(x6), Odd(x7)]
  {
    x1, x2, x3, x4, x5, x6, x7 := x >> 1, x >> 2, x >> 3, x >> 4, x >> 5, x >> 6, x >> 7;
  }

  lemma Shifts64(w: bv64)
    ensures Half64(w) == w >> 1 && Half64(w >> 1) == w >> 2 && Half64(w >> 2) == w >> 3
    ensures Half64(w >> 3) == w >> 4 && Half64(w >> 4) == w >> 5 && Half64(w >> 5) == w >> 6
    ensures Half64(w >> 6) == w >> 7 && Half64(w >> 7) == Shr64(w)
  {
  }

  lemma AgreeStep(w: bv64, x: bv32, n: nat)
    requires Odd64(w) == Odd(x) && AgreeFor(Half64(w), Half(x), n)
    ensures AgreeFor(w, x, n + 1)
  {
  }

  lemma AgreeChain(w0: bv64, w1: bv64, w2: bv64, w3: bv64, w4: bv64, w5: bv64, w6: bv64, w7: bv64,
                   x0: bv32, x1: bv32, x2: bv32, x3: bv32, x4: bv32, x5: bv32, x6: bv32, x7: bv32)
    requires w1 == Half64(w0) && w2 == Half64(w1) && w3 == Half64(w2) && w4 == Half64(w3)
    requires w5 == Half64(w4) && w6 == Half64(w5) && w7 == Half64(w6)
    requires x1 == Half(x0) && x2 == Half(x1) && x3 == Half(x2) && x4 == Half(x3)
    requires x5 == Half(x4) && x6 == Half(x5) && x7 == Half(x6)
    requires Odd64(w0) == Odd(x0) && Odd64(w1) == Odd(x1) && Odd64(w2) == Odd(x2) && Odd64(w3) == Odd(x3)
    requires Odd64(w4) == Odd(x4) && Odd64(w5) == Odd(x5) && Odd64(w6) == Odd(x6) && Odd64(w7) == Odd(x7)
    ensures AgreeFor(w0, x0, 8)
  {
    hide Half, Odd, Half64, Odd64, AgreeFor;
    AgreeNone(Half64(w7), Half(x7));
    AgreeStep(w7, x7, 0);
    AgreeStep(w6, x6, 1);
    AgreeStep(w5, x5, 2);
    AgreeStep(w4, x4, 3);
    AgreeStep(w3, x3, 4);
    AgreeStep(w2, x2, 5);
    AgreeStep(w1, x1, 6);
    AgreeStep(w0, x0, 7);
  }

  lemma SameEight(a: seq<bool>, b0: bool, b1: bool, b2: bool, b3: bool, b4: bool, b5: bool, b6: bool, b7: bool,
                  c0: bool, c1: bool, c2: bool, c3: bool, c4: bool, c5: bool, c6: bool, c7: bool)
    requires a == [b0, b1, b2, b3, b4, b5, b6, b7] == [c0, c1, c2, c3, c4, c5, c6, c7]
    ensures b0 == c0 && b1 == c1 && b2 == c2 && b3 == c3 && b4 == c4 && b5 == c5 && b6 == c6 && b7 == c7
  {
    assert [b0, b1, b2, b3, b4, b5, b6, b7][0] == a[0] && [c0, c1, c2, c3, c4, c5, c6, c7][0] == a[0];
  }

  lemma LowBitsAgree(w: bv64, x: bv32)
    requires LowBits64(w) == LowBits(x)
    ensures AgreeFor(w, x, 8)
  {
    hide AgreeFor, LowBits, LowBits64, Half, Half64, Odd, Odd64;
    var w1, w2, w3, w4, w5, w6, w7 := Walk64(w);
    var x1, x2, x3, x4, x5, x6, x7 := Walk32(x);
    SameEight(LowBits(x), Odd64(w), Odd64(w1), Odd64(w2), Odd64(w3), Odd64(w4), Odd64(w5), Odd64(w6), Odd64(w7),
              Odd(x), Odd(x1), Odd(x2), Odd(x3), Odd(x4), Odd(x5), Odd(x6), Odd(x7));
    AgreeChain(w, w1, w2, w3, w4, w5, w6, w7, x, x1, x2, x3, x4, x5, x6, x7);
  }

  lemma JoinAgrees(b: bv8, v: bv64)
    ensures AgreeFor(Join(b, v), b as bv32, 8)
  {
    hide AgreeFor, Join, LowBits, LowBits64;
    LowBitsOfJoin(b, v);
    LowBitsAgree(Join(b, v), b as bv32);
  }

  lemma AgreeNone(w: bv64, x: bv32)
    ensures AgreeFor(w, x, 0)
  {
  }

  lemma EightHalves64(w: bv64)
    ensures Halves64(w, 8) == Shr64(w)
  {
    Shifts64(w);
    hide Half64, Shr64;
    assert Halves64(w, 8) == Halves64(w >> 1, 7);
    assert Halves64(w >> 1, 7) == Halves64(w >> 2, 6);
    assert Halves64(w >> 2, 6) == Halves64(w >> 3, 5);
    assert Halves64(w >> 3, 5) == Halves64(w >> 4, 4);
    assert Halves64(w >> 4, 4) == Halves64(w >> 5, 3);
    assert Halves64(w >> 5, 3) == Halves64(w >> 6, 2);
    assert Halves64(w >> 6, 2) == Halves64(w >> 7, 1);
  }

  // ------------------------------------------------------ whole operands

  /** The value needs at most n bytes. */
  predicate FitsIn64(w: bv64, n: nat)
    decreases n
  {
    if n == 0 then w == 0 else FitsIn64(Shr64(w), n - 1)
  }

  lemma ShrZero()
    ensures Shr64(0) == 0
  {
  }

  lemma {:induction false} FitsInMore(w: bv64, m: nat, n: nat)
    requires FitsIn64(w, m) && m <= n
    ensures FitsIn64(w, n)
    decreases n
  {
    hide Shr64;
    ShrZero();
    if n == 0 {
    } else {
      FitsInMore(Shr64(w), if m == 0 then 0 else m - 1, n - 1);
    }
  }

  lemma SevenShifts(w: bv64)
    requires Shr64(Shr64(Shr64(Shr64(Shr64(Shr64(Shr64(w))))))) == 0
    ensures w & 0xFF00_0000_0000_0000 == 0
  {
  }

  lemma JoinShift(b: bv8, w: bv64)
    requires w & 0xFF00_0000_0000_0000 == 0
    ensures Shr64(Join(b, w)) == w
  {
  }

  lemma TopByteClear(w: bv64)
    requires FitsIn64(w, 7)
    ensures w & 0xFF00_0000_0000_0000 == 0
  {
    hide Shr64;
    var w1 := Shr64(w);
    var w2 := Shr64(w1);
    var w3 := Shr64(w2);
    var w4 := Shr64(w3);
    var w5 := Shr64(w4);
    var w6 := Shr64(w5);
    assert FitsIn64(w1, 6);
    assert FitsIn64(w2, 5);
    assert FitsIn64(w3, 4);
    assert FitsIn64(w4, 3);
    assert FitsIn64(w5, 2);
    assert FitsIn64(w6, 1);
    SevenShifts(w);
  }

  lemma {:induction false} OperandFits(bytes: seq<bv8>)
    requires |bytes| <= 8
    ensures FitsIn64(Operand(bytes), |bytes|)
    ensures bytes != [] ==> Shr64(Operand(bytes)) == Operand(bytes[1..])
  {
    hide Shr64, Join;
    if bytes == [] {
    } else {
      var rest := bytes[1..];
      OperandFits(rest);
      FitsInMore(Operand(rest), |rest|, 7);
      TopByteClear(Operand(rest));
      JoinShift(bytes[0], Operand(rest));
    }
  }

  lemma Crc32FirstByte(crc: bv32, b: bv8, v: bv64, n: nat)
    ensures Crc32(crc, Join(b, v), 8 + n) == Crc32(FeedByte(crc, b), Shr64(Join(b, v)), n)
  {
    hide Crc32, FeedBits, Join, Shr64, Halves64, AgreeFor;
    Crc32Split(crc, Join(b, v), 8, n);
    JoinAgrees(b, v);
    SameBitsSameCrc(crc, Join(b, v), b as bv32, 8);
    EightHalves64(Join(b, v));
  }

  /** One instruction on an operand of up to eight bytes is the reference on those bytes. */
  lemma {:induction false} OperandIsBytes(crc: bv32, bytes: seq<bv8>)
    requires |bytes| <= 8
    ensures Crc32(crc, Operand(bytes), 8 * |bytes|) == Crc(crc, bytes)
    decreases |bytes|
  {
    hide Join, Shr64, FeedByte;
    if bytes == [] {
    } else {
      var rest := bytes[1..];
      OperandFits(bytes);
      Crc32FirstByte(crc, bytes[0], Operand(rest), 8 * |rest|);
      OperandIsBytes(FeedByte(crc, bytes[0]), rest);
    }
  }

  /** The instruction applied to n bytes of the buffer. */
  function Instruction(crc: bv32, data: seq<bv8>, i: nat, n: nat): bv32
    requires i + n <= |data| && (n == 1 || n == 2 || n == 4 || n == 8)
  {
    Crc32(crc, Operand(data[i..i + n]), 8 * n)
  }

  lemma TakeOperand(crc: bv32, data: seq<bv8>, i: nat, n: nat)
    requires i + n <= |data| && (n == 1 || n == 2 || n == 4 || n == 8)
    ensures Crc(crc, data[i..]) == Crc(Instruction(crc, data, i, n), data[i + n..])
  {
    hide Crc, Crc32, Operand;
    var bytes := data[i..i + n];
    assert data[i..] == bytes + data[i + n..];
    CrcConcat(crc, bytes, data[i + n..]);
    OperandIsBytes(crc, bytes);
  }

  /** 32-bit operands, then the fall-through tail. */
  method Hardware32(crc0: bv32, data: seq<bv8>) returns (crc: bv32)
    ensures crc == Crc(crc0, data)
  {
    hide Instruction, Crc;
    crc := crc0;
    var i := 0;
    CrcAtEnd(crc, data);
    while i + 4 <= |data|
      invariant 0 <= i <= |data| && i % 4 == 0
      invariant Crc(crc, data[i..]) == Crc(crc0, data)
    {
      TakeOperand(crc, data, i, 4);
      crc := Instruction(crc, data, i, 4);
      i := i + 4;
    }
    var tail := |data| % 4;
    if tail == 3 {
      TakeOperand(crc, data, i, 1);
      crc := Instruction(crc, data, i, 1);
      i := i + 1;
    }
    if tail >= 2 {
      TakeOperand(crc, data, i, 2);
      crc := Instruction(crc, data, i, 2);
      i := i + 2;
    } else if tail == 1 {
      TakeOperand(crc, data, i, 1);
      crc := Instruction(crc, data, i, 1);
      i := i + 1;
    }
    CrcAtEnd(crc, data);
  }

  /** 64-bit operands, then the fall-through tail. */
  method Hardware64(crc0: bv32, data: seq<bv8>) returns (crc: bv32)
    ensures crc == Crc(crc0, data)
  {
    hide Instruction, Crc;
    crc := crc0;
    var i := 0;
    CrcAtEnd(crc, data);
    while i + 8 <= |data|
      invariant 0 <= i <= |data| && i % 8 == 0
      invariant Crc(crc, data[i..]) == Crc(crc0, data)
    {
      TakeOperand(crc, data, i, 8);
      crc := Instruction(crc, data, i, 8);
      i := i + 8;
    }
    crc := TailOfEight(crc, data, i);
  }

  /** The switch of the 64-bit routine: 7 = 1 + 2 + 4, 6 = 2 + 4, 5 = 4 + 1, 3 = 1 + 2. */
  method TailOfEight(crc0: bv32, data: seq<bv8>, start: nat) returns (crc: bv32)
    requires start <= |data| < start + 8
    ensures crc == Crc(crc0, data[start..])
  {
    hide Instruction, Crc;
    crc := crc0;
    var i, tail := start, |data| - start;
    if tail == 7 {
      TakeOperand(crc, data, i, 1);
      crc := Instruction(crc, data, i, 1);
      i := i + 1;
    }
    if tail >= 6 {
      TakeOperand(crc, data, i, 2);
      crc := Instruction(crc, data, i, 2);
      i := i + 2;
    }
    if tail >= 4 {
      TakeOperand(crc, data, i, 4);
      crc := Instruction(crc, data, i, 4);
      i := i + 4;
    }
    if tail == 3 {
      TakeOperand(crc, data, i, 1);
      crc := Instruction(crc, data, i, 1);
      i := i + 1;
    }
    if tail == 3 || tail == 2 {
      TakeOperand(crc, data, i, 2);
      crc := Instruction(crc, data, i, 2);
      i := i + 2;
    }
    if tail == 5 || tail == 1 {
      TakeOperand(crc, data, i, 1);
      crc := Instruction(crc, data, i, 1);
      i := i + 1;
    }
    CrcAtEnd(crc, data);
  }
}
