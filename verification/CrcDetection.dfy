/** What a checksum detects: every change within four consecutive bytes of a message, wherever they
    are and whatever surrounds them. */
module CrcDetection {
  import opened Crc32c
  import opened CrcApi
  import opened CrcSoftware

  lemma StepInjective(x: bv32, y: bv32)
    requires Step(x) == Step(y)
    ensures x == y
  {
  }

  lemma {:induction false} StepsInjective(x: bv32, y: bv32, n: nat)
    requires Steps(x, n) == Steps(y, n)
    ensures x == y
    decreases n
  {
    hide Step;
    if n == 0 {
    } else {
      StepsInjective(Step(x), Step(y), n - 1);
      StepInjective(x, y);
    }
  }

  lemma XorInjective(x: bv32, y: bv32, z: bv32)
    ensures Xor(x, z) == Xor(y, z) ==> x == y
    ensures Xor(z, x) == Xor(z, y) ==> x == y
  {
  }

  /** Whatever follows, two different register states stay different. */
  lemma {:induction false} StatesStayApart(c: bv32, d: bv32, data: Bytes)
    requires c != d
    ensures Crc(c, data) != Crc(d, data)
    decreases |data|
  {
    hide FeedByte, Xor, Steps;
    if data == [] {
    } else {
      FeedByteIsSteps(c, data[0]);
      FeedByteIsSteps(d, data[0]);
      if FeedByte(c, data[0]) == FeedByte(d, data[0]) {
        StepsInjective(Xor(c, data[0] as bv32), Xor(d, data[0] as bv32), 8);
        XorInjective(c, d, data[0] as bv32);
        assert false;
      }
      StatesStayApart(FeedByte(c, data[0]), FeedByte(d, data[0]), data[1..]);
    }
  }

  lemma FirstByteApart(b: bv8, c: bv8, v: bv32, w: bv32)
    requires Xor(b as bv32, Shl8(v)) == Xor(c as bv32, Shl8(w))
    requires InThreeBytes(v) && InThreeBytes(w)
    ensures b == c && v == w
  {
  }

  lemma {:induction false} LittleEndianInjective(a: Bytes, b: Bytes)
    requires |a| == |b| <= 4 && LittleEndian(a) == LittleEndian(b)
    ensures a == b
    decreases |a|
  {
    hide Xor, Shl8, FitsIn, InThreeBytes;
    if a == [] {
    } else {
      LittleEndianFits(a[1..]);
      LittleEndianFits(b[1..]);
      FitsInThree(LittleEndian(a[1..]), |a| - 1);
      FitsInThree(LittleEndian(b[1..]), |b| - 1);
      FirstByteApart(a[0], b[0], LittleEndian(a[1..]), LittleEndian(b[1..]));
      LittleEndianInjective(a[1..], b[1..]);
      assert a == [a[0]] + a[1..] && b == [b[0]] + b[1..];
    }
  }

  lemma BurstMovesState(crc: bv32, w: Bytes, w': Bytes)
    requires |w| == |w'| <= 4 && w != w'
    ensures Crc(crc, w) != Crc(crc, w')
  {
    hide Xor, Steps, Crc, LittleEndian;
    BytesTogether(crc, w);
    BytesTogether(crc, w');
    if Crc(crc, w) == Crc(crc, w') {
      StepsInjective(Xor(crc, LittleEndian(w)), Xor(crc, LittleEndian(w')), 8 * |w|);
      XorInjective(LittleEndian(w), LittleEndian(w'), crc);
      LittleEndianInjective(w, w');
      assert false;
    }
  }

  lemma CloseTwice(c: bv32)
    ensures Close(Close(c)) == c
  {
  }

  lemma CloseInjective(c: bv32, d: bv32)
    requires c != d
    ensures Close(c) != Close(d)
  {
    hide Close;
    CloseTwice(c);
    CloseTwice(d);
  }

  /** Messages that differ within four consecutive bytes only have different checksums. */
  lemma BurstDetected(before: Bytes, w: Bytes, w': Bytes, after: Bytes)
    requires |w| == |w'| <= 4 && w != w'
    ensures Compute(before + w + after) != Compute(before + w' + after)
  {
    hide Crc, Close;
    var crc := Crc(INIT, before);
    CrcConcat(INIT, before + w, after);
    CrcConcat(INIT, before + w', after);
    CrcConcat(INIT, before, w);
    CrcConcat(INIT, before, w');
    BurstMovesState(crc, w, w');
    StatesStayApart(Crc(crc, w), Crc(crc, w'), after);
    CloseInjective(Crc(Crc(crc, w), after), Crc(Crc(crc, w'), after));
  }
}
