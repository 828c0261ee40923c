/** The table-driven CRC-32C routines of src/crc32c/crc32c_software.c. */
module CrcSoftware {
  import opened Crc32c

  function LowByte(x: bv32): bv32 { x & 0xFF }

  function Shr8(x: bv32): bv32 { x >> 8 }

  function Shl8(x: bv32): bv32 { x << 8 }

  /** The generator's branch-free step. */
  function MaskStep(x: bv32): (r: bv32)
    ensures r == Step(x)
  {
    (x >> 1) ^ (POLY & (0 - (x & 1)))
  }

  function MaskSteps(x: bv32, n: nat): (r: bv32)
    ensures r == Steps(x, n)
    decreases n
  {
    hide Step;
    if n == 0 then x else MaskSteps(MaskStep(x), n - 1)
  }

  /** Entry i of table k as the generator fills it. */
  function Table(k: nat, i: bv32): bv32
    decreases k
  {
    if k == 0 then MaskSteps(i, 8)
    else
      var c := Table(k - 1, i);
      Xor(Table(0, LowByte(c)), Shr8(c))
  }

  /** A char read from the buffer is signed and widened before it meets the register. */
  function Widen(b: bv8): bv32 {
    if b & 0x80 == 0 then b as bv32 else 0xFFFFFF00 | (b as bv32)
  }

  function TableStep(crc: bv32, b: bv8): bv32 {
    Xor(Table(0, LowByte(Xor(crc, Widen(b)))), Shr8(crc))
  }

  lemma SplitLowByte(x: bv32)
    ensures x == Xor(LowByte(x), Shl8(Shr8(x)))
    ensures Shl8(Shr8(x)) & 0xFF == 0
    ensures Shl8(Shr8(x)) >> 8 == Shr8(x)
  {
  }

  lemma ShiftedOut(x: bv32)
    ensures Steps(Shl8(Shr8(x)), 8) == Shr8(x)
  {
    SplitLowByte(x);
    hide Shl8, Shr8, Steps, Xor, LowByte;
    EightShifts(Shl8(Shr8(x)));
  }

  /** Eight steps at once: look up the low byte, shift the rest. */
  lemma LookupIsEightSteps(x: bv32)
    ensures Steps(x, 8) == Xor(Table(0, LowByte(x)), Shr8(x))
  {
    hide Steps, Xor, Shr8, Shl8, LowByte;
    SplitLowByte(x);
    StepsLinear(LowByte(x), Shl8(Shr8(x)), 8);
    ShiftedOut(x);
  }

  /** Table k advances its index by k + 1 bytes of zeros. */
  lemma {:induction false} TableMeaning(k: nat, i: bv32)
    ensures Table(k, i) == Steps(i, 8 * (k + 1))
    decreases k
  {
    hide Steps, Xor, LowByte, Shr8;
    if k == 0 {
    } else {
      TableMeaning(k - 1, i);
      LookupIsEightSteps(Table(k - 1, i));
      StepsAdd(i, 8 * k, 8);
    }
  }

  lemma WidenedLowByte(crc: bv32, b: bv8)
    ensures LowByte(Xor(crc, Widen(b))) == LowByte(Xor(crc, b as bv32))
    ensures Shr8(Xor(crc, b as bv32)) == Shr8(crc)
  {
  }

  /** One table lookup is one byte of the reference, whatever the sign of the char. */
  lemma TableStepIsFeedByte(crc: bv32, b: bv8)
    ensures TableStep(crc, b) == FeedByte(crc, b)
  {
    hide Steps, Xor, Widen, Table, FeedByte, LowByte, Shr8;
    FeedByteIsSteps(crc, b);
    WidenedLowByte(crc, b);
    LookupIsEightSteps(Xor(crc, b as bv32));
  }

  // ------------------------------------------------ several bytes at once

  /** Up to four bytes read as one little-endian number. */
  function LittleEndian(bytes: seq<bv8>): bv32
    requires |bytes| <= 4
  {
    if bytes == [] then 0 else Xor(bytes[0] as bv32, Shl8(LittleEndian(bytes[1..])))
  }

  predicate InOneByte(x: bv32) { x & 0xFFFFFF00 == 0 }

  predicate InTwoBytes(x: bv32) { x & 0xFFFF0000 == 0 }

  predicate InThreeBytes(x: bv32) { x & 0xFF000000 == 0 }

  lemma Widths(b: bv8, x: bv32)
    ensures InOneByte(Xor(b as bv32, Shl8(0)))
    ensures InOneByte(x) ==> InTwoBytes(Xor(b as bv32, Shl8(x))) && InThreeBytes(x)
    ensures InTwoBytes(x) ==> InThreeBytes(Xor(b as bv32, Shl8(x))) && InThreeBytes(x)
    ensures InThreeBytes(0)
  {
  }

  predicate FitsIn(x: bv32, n: nat) {
    if n == 0 then x == 0 else if n == 1 then InOneByte(x) else if n == 2 then InTwoBytes(x) else InThreeBytes(x)
  }

  lemma FitsOneMore(b: bv8, x: bv32, n: nat)
    requires FitsIn(x, n) && n <= 2
    ensures FitsIn(Xor(b as bv32, Shl8(x)), n + 1)
  {
    hide Xor, Shl8, InOneByte, InTwoBytes, InThreeBytes;
    Widths(b, x);
  }

  lemma FitsInThree(x: bv32, n: nat)
    requires FitsIn(x, n) && n <= 3
    ensures InThreeBytes(x)
  {
    hide Xor, Shl8, InOneByte, InTwoBytes, InThreeBytes;
    Widths(0, x);
  }

  lemma {:induction false} LittleEndianFits(bytes: seq<bv8>)
    requires |bytes| <= 3
    ensures FitsIn(LittleEndian(bytes), |bytes|)
  {
    if bytes == [] {
    } else {
      hide Xor, Shl8, FitsIn;
      LittleEndianFits(bytes[1..]);
      FitsOneMore(bytes[0], LittleEndian(bytes[1..]), |bytes| - 1);
    }
  }

  lemma ShiftBack(x: bv32)
    requires InThreeBytes(x)
    ensures Shr8(Shl8(x)) == x
  {
  }

  /** A byte taken now and the bytes after it are one longer addition taken now. */
  lemma Absorb(crc: bv32, b: bv8, v: bv32)
    requires InThreeBytes(v)
    ensures Xor(FeedByte(crc, b), v) == Steps(Xor(crc, Xor(b as bv32, Shl8(v))), 8)
  {
    hide Steps, Xor, FeedByte, InThreeBytes, Shl8, Shr8;
    FeedByteIsSteps(crc, b);
    ShiftBack(v);
    ShiftedOut(Shl8(v));
    StepsLinear(Xor(crc, b as bv32), Shl8(v), 8);
    XorAssoc(crc, b as bv32, Shl8(v));
  }

  /** Up to four bytes together: add them as one number, then step eight times per byte. */
  lemma {:induction false} BytesTogether(crc: bv32, bytes: seq<bv8>)
    requires |bytes| <= 4
    ensures Crc(crc, bytes) == Steps(Xor(crc, LittleEndian(bytes)), 8 * |bytes|)
    decreases |bytes|
  {
    hide Xor, FeedByte, InThreeBytes, FitsIn, Step, Shl8;
    if bytes == [] {
      XorZero(crc);
    } else {
      var rest := bytes[1..];
      BytesTogether(FeedByte(crc, bytes[0]), rest);
      LittleEndianFits(rest);
      FitsInThree(LittleEndian(rest), |rest|);
      Absorb(crc, bytes[0], LittleEndian(rest));
      StepsAdd(Xor(crc, LittleEndian(bytes)), 8, 8 * |rest|);
    }
  }

  /** Peel one byte off the register: its table entry, and the rest with a byte less to go. */
  lemma Peel(x: bv32, k: nat)
    ensures Steps(x, 8 * (k + 1)) == Xor(Table(k, LowByte(x)), Steps(Shr8(x), 8 * k))
  {
    hide Steps, Xor, Table, LowByte, Shr8, Shl8;
    SplitLowByte(x);
    StepsLinear(LowByte(x), Shl8(Shr8(x)), 8 * (k + 1));
    TableMeaning(k, LowByte(x));
    StepsAdd(Shl8(Shr8(x)), 8, 8 * k);
    ShiftedOut(x);
  }

  lemma {:induction false} StepsOfZero(n: nat)
    ensures Steps(0, n) == 0
  {
    if n == 0 {
    } else {
      StepZero();
      StepsOfZero(n - 1);
    }
  }

  lemma StepZero()
    ensures Step(0) == 0
  {
  }

  /** The four lookups of one slice, tables k + 3 down to k. */
  function Slice(x: bv32, k: nat): bv32 {
    var high := x >> 16;
    Xor(Xor(Xor(Table(k + 3, LowByte(x)), Table(k + 2, LowByte(Shr8(x)))),
            Table(k + 1, LowByte(high))),
        Table(k, LowByte(Shr8(high))))
  }

  lemma ByteShifts(x: bv32)
    ensures Shr8(Shr8(x)) == x >> 16 && Shr8(Shr8(x >> 16)) == 0
  {
  }

  lemma {:induction false} XorChain(t3: bv32, t2: bv32, t1: bv32, t0: bv32)
    ensures Xor(t3, Xor(t2, Xor(t1, Xor(t0, 0)))) == Xor(Xor(Xor(t3, t2), t1), t0)
  {
    hide Xor;
    XorZero(t0);
    XorAssoc(t3, t2, Xor(t1, t0));
    XorAssoc(Xor(t3, t2), t1, t0);
  }

  lemma SliceIsSteps(x: bv32, k: nat)
    ensures Slice(x, k) == Steps(x, 8 * (k + 4))
  {
    ByteShifts(x);
    hide Steps, Xor, Table, LowByte, Shr8;
    var high := x >> 16;
    Peel(x, k + 3);
    Peel(Shr8(x), k + 2);
    Peel(high, k + 1);
    Peel(Shr8(high), k);
    StepsOfZero(8 * k);
    XorChain(Table(k + 3, LowByte(x)), Table(k + 2, LowByte(Shr8(x))),
             Table(k + 1, LowByte(high)), Table(k, LowByte(Shr8(high))));
  }

  /** Bytes left after the first i. */
  lemma CrcTakeByte(crc: bv32, data: seq<bv8>, i: nat)
    requires i < |data|
    ensures Crc(crc, data[i..]) == Crc(TableStep(crc, data[i]), data[i + 1..])
  {
    hide TableStep, FeedByte;
    TableStepIsFeedByte(crc, data[i]);
    assert data[i..][1..] == data[i + 1..];
  }

  /** One byte per lookup. */
  method Sarwate(crc0: bv32, data: seq<bv8>) returns (crc: bv32)
    ensures crc == Crc(crc0, data)
  {
    hide TableStep, FeedByte;
    crc := crc0;
    var i := 0;
    assert data[0..] == data;
    while i < |data|
      invariant 0 <= i <= |data|
      invariant Crc(crc, data[i..]) == Crc(crc0, data)
    {
      CrcTakeByte(crc, data, i);
      crc := TableStep(crc, data[i]);
      i := i + 1;
    }
  }

  /** Bytes before the next multiple of four: (4 - address) & 3. */
  function Leading(address: nat): nat {
    (4 - address % 4) % 4
  }

  /** Behind them words are aligned, and no word before is. */
  lemma LeadingAligns(address: nat, k: nat)
    ensures Leading(address) < 4 && (address + Leading(address)) % 4 == 0
    ensures k < Leading(address) ==> (address + k) % 4 != 0
  {
    assert address == 4 * (address / 4) + address % 4;
  }

  lemma CrcTakeFour(crc: bv32, data: seq<bv8>, i: nat)
    requires i + 4 <= |data|
    ensures Crc(crc, data[i..]) == Crc(Slice(Xor(crc, LittleEndian(data[i..i + 4])), 0), data[i + 4..])
  {
    hide Slice, Steps, Xor, LittleEndian, Crc;
    var four := data[i..i + 4];
    assert data[i..] == four + data[i + 4..];
    CrcConcat(crc, four, data[i + 4..]);
    BytesTogether(crc, four);
    SliceIsSteps(Xor(crc, LittleEndian(four)), 0);
  }

  /** Four bytes per round through four tables, from the first multiple of four on. */
  method SlicingBy4(crc0: bv32, data: seq<bv8>, address: nat) returns (crc: bv32)
    ensures crc == Crc(crc0, data)
  {
    hide TableStep, FeedByte, Slice, LittleEndian, Crc, Xor, Leading;
    crc := crc0;
    var initial := if |data| < Leading(address) then |data| else Leading(address);
    var i := 0;
    CrcAtEnd(crc, data);
    while i < initial
      invariant 0 <= i <= initial <= |data|
      invariant Crc(crc, data[i..]) == Crc(crc0, data)
    {
      CrcTakeByte(crc, data, i);
      crc := TableStep(crc, data[i]);
      i := i + 1;
    }
    var rounds := (|data| - initial) / 4;
    for n := 0 to rounds
      invariant i == initial + 4 * n
      invariant Crc(crc, data[i..]) == Crc(crc0, data)
    {
      CrcTakeFour(crc, data, i);
      crc := Slice(Xor(crc, LittleEndian(data[i..i + 4])), 0);
      i := i + 4;
    }
    while i < |data|
      invariant 0 <= i <= |data|
      invariant Crc(crc, data[i..]) == Crc(crc0, data)
    {
      CrcTakeByte(crc, data, i);
      crc := TableStep(crc, data[i]);
      i := i + 1;
    }
    CrcAtEnd(crc, data);
  }

  /** The upper tables applied to the first four bytes and the lower ones to the next four. */
  function Slice8(crc: bv32, first: seq<bv8>, second: seq<bv8>): bv32
    requires |first| == 4 && |second| == 4
  {
    Xor(Slice(Xor(crc, LittleEndian(first)), 4), Slice(LittleEndian(second), 0))
  }

  lemma Slice8IsCrc(crc: bv32, first: seq<bv8>, second: seq<bv8>)
    requires |first| == 4 && |second| == 4
    ensures Slice8(crc, first, second) == Crc(Crc(crc, first), second)
  {
    hide Slice, Steps, Xor, LittleEndian, Crc;
    var x := Xor(crc, LittleEndian(first));
    BytesTogether(crc, first);
    BytesTogether(Crc(crc, first), second);
    SliceIsSteps(x, 4);
    SliceIsSteps(LittleEndian(second), 0);
    StepsLinear(Steps(x, 32), LittleEndian(second), 32);
    StepsAdd(x, 32, 32);
  }

  lemma CrcTakeEight(crc: bv32, data: seq<bv8>, i: nat)
    requires i + 8 <= |data|
    ensures Crc(crc, data[i..]) == Crc(Slice8(crc, data[i..i + 4], data[i + 4..i + 8]), data[i + 8..])
  {
    hide Slice8, Crc;
    var first, second := data[i..i + 4], data[i + 4..i + 8];
    assert data[i..] == first + (second + data[i + 8..]);
    CrcConcat(crc, first, second + data[i + 8..]);
    CrcConcat(Crc(crc, first), second, data[i + 8..]);
    Slice8IsCrc(crc, first, second);
  }

  /** Eight bytes per round through eight tables, from the first multiple of four on. */
  method SlicingBy8(crc0: bv32, data: seq<bv8>, address: nat) returns (crc: bv32)
    ensures crc == Crc(crc0, data)
  {
    hide TableStep, FeedByte, Slice, LittleEndian, Slice8, Crc, Leading;
    crc := crc0;
    var initial := if |data| < Leading(address) then |data| else Leading(address);
    var i := 0;
    CrcAtEnd(crc, data);
    while i < initial
      invariant 0 <= i <= initial <= |data|
      invariant Crc(crc, data[i..]) == Crc(crc0, data)
    {
      CrcTakeByte(crc, data, i);
      crc := TableStep(crc, data[i]);
      i := i + 1;
    }
    var rounds := (|data| - initial) / 8;
    for n := 0 to rounds
      invariant i == initial + 8 * n
      invariant Crc(crc, data[i..]) == Crc(crc0, data)
    {
      CrcTakeEight(crc, data, i);
      crc := Slice8(crc, data[i..i + 4], data[i + 4..i + 8]);
      i := i + 8;
    }
    while i < |data|
      invariant 0 <= i <= |data|
      invariant Crc(crc, data[i..]) == Crc(crc0, data)
    {
      CrcTakeByte(crc, data, i);
      crc := TableStep(crc, data[i]);
      i := i + 1;
    }
    CrcAtEnd(crc, data);
  }
}
