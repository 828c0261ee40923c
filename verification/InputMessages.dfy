/** What the checks of an input message (src/ibuf.c) mean for its bytes: a message changed within
    four consecutive bytes is refused, and nothing outside the message matters. */
module InputMessages {
  import opened Memory
  import opened CrcApi
  import opened CrcDetection
  import opened CrcStandard
  import Octets
  import opened Engine

  /** The memories differ somewhere in the message, and there only within n bytes from i on. */
  predicate ChangedWithin(ibuf: Ibuf, m: Ram, m': Ram, i: nat, n: nat) {
    ibuf.Input? && ibuf.addr + ibuf.size <= |m| == |m'| && i + n <= ibuf.size &&
    m[ibuf.addr..ibuf.addr + ibuf.size] != m'[ibuf.addr..ibuf.addr + ibuf.size] &&
    forall b :: ibuf.addr <= b < ibuf.addr + ibuf.size && !(ibuf.addr + i <= b < ibuf.addr + i + n) ==> m[b] == m'[b]
  }

  function BitsOf(bytes: seq<Byte>): Bytes {
    seq(|bytes|, i requires 0 <= i < |bytes| => Octets.Octet(bytes[i]))
  }

  lemma OctetsApart(a: seq<Byte>, b: seq<Byte>)
    requires |a| == |b| && a != b
    ensures BitsOf(a) != BitsOf(b)
  {
    var i :| 0 <= i < |a| && a[i] != b[i];
    if BitsOf(a) == BitsOf(b) {
      assert Octets.Octet(a[i]) == BitsOf(a)[i] == BitsOf(b)[i] == Octets.Octet(b[i]);
      Octets.SameOctet(a[i], b[i]);
      assert false;
    }
  }

  lemma OctetsOfParts(a: seq<Byte>, b: seq<Byte>, c: seq<Byte>)
    ensures BitsOf(a + b + c) == BitsOf(a) + BitsOf(b) + BitsOf(c)
  {
  }

  lemma ChecksumApart(before: seq<Byte>, w: seq<Byte>, w': seq<Byte>, after: seq<Byte>)
    requires |w| == |w'| <= 4 && w != w'
    ensures Checksum(before + w + after) != Checksum(before + w' + after)
  {
    OctetsApart(w, w');
    OctetsOfParts(before, w, after);
    OctetsOfParts(before, w', after);
    hide Compute;
    assert Checksum(before + w + after) == Compute(BitsOf(before + w + after));
    assert Checksum(before + w' + after) == Compute(BitsOf(before + w' + after));
    BurstDetected(BitsOf(before), BitsOf(w), BitsOf(w'), BitsOf(after));
  }

  lemma ChecksumMoves(a: seq<Byte>, b: seq<Byte>, i: nat, n: nat)
    requires |a| == |b| && a != b && i + n <= |a| && n <= 4
    requires forall j :: 0 <= j < |a| && !(i <= j < i + n) ==> a[j] == b[j]
    ensures Checksum(a) != Checksum(b)
  {
    hide Checksum;
    assert a == a[..i] + a[i..i + n] + a[i + n..];
    assert a[..i] == b[..i] && a[i + n..] == b[i + n..];
    assert b == a[..i] + b[i..i + n] + a[i + n..];
    ChecksumApart(a[..i], a[i..i + n], b[i..i + n], a[i + n..]);
  }

  lemma ChangeMovesChecksum(ibuf: Ibuf, m: Ram, m': Ram, i: nat, n: nat)
    requires ChangedWithin(ibuf, m, m', i, n) && n <= 4
    ensures Checksum(Load(m, ibuf.addr, ibuf.size)) != Checksum(Load(m', ibuf.addr, ibuf.size))
  {
    hide Checksum;
    ChecksumMoves(Load(m, ibuf.addr, ibuf.size), Load(m', ibuf.addr, ibuf.size), i, n);
  }

  /** A message that was accepted on entry is refused after any such change. */
  lemma ChangedMessageRefused(ibuf: Ibuf, m: Ram, m': Ram, i: nat, n: nat)
    requires ChangedWithin(ibuf, m, m', i, n) && n <= 4
    requires CorrectOnEntry(ibuf, m)
    ensures !CorrectOnEntry(ibuf, m')
    ensures ibuf.readOnly ==> !InputKept(ibuf, m') && !InputCorrect(ibuf, m')
  {
    hide Checksum;
    ChangeMovesChecksum(ibuf, m, m', i, n);
  }

  /** A message the handler may change must be the same in the last two phases. */
  lemma PhasesMustLeaveSameMessage(ibuf: Ibuf, m: Ram, m': Ram, i: nat, n: nat)
    requires ChangedWithin(ibuf, m, m', i, n) && n <= 4 && !ibuf.readOnly
    ensures InputCorrect(InputSwitched(ibuf, m), m) && !InputCorrect(InputSwitched(ibuf, m), m')
  {
    hide Checksum;
    ChangeMovesChecksum(ibuf, m, m', i, n);
  }

  /** Only the bytes of the message count. */
  lemma RestOfMemoryIgnored(ibuf: Ibuf, m: Ram, m': Ram)
    requires ibuf.Input? && ibuf.addr + ibuf.size <= |m| && ibuf.addr + ibuf.size <= |m'|
    requires m[ibuf.addr..ibuf.addr + ibuf.size] == m'[ibuf.addr..ibuf.addr + ibuf.size]
    ensures CorrectOnEntry(ibuf, m) <==> CorrectOnEntry(ibuf, m')
    ensures InputKept(ibuf, m) <==> InputKept(ibuf, m')
    ensures InputCorrect(ibuf, m) <==> InputCorrect(ibuf, m')
    ensures InputSwitched(ibuf, m) == InputSwitched(ibuf, m')
  {
    hide Checksum;
  }

  /** A message of 32 zero bytes is accepted with one checksum only. */
  lemma ZeroMessage(ibuf: Ibuf, m: Ram)
    requires ibuf.Input? && ibuf.size == 32 && ibuf.addr + 32 <= |m|
    requires forall b :: ibuf.addr <= b < ibuf.addr + 32 ==> m[b] == 0
    ensures CorrectOnEntry(ibuf, m) <==> ibuf.crc == 0x8A9136AA
  {
    ThirtyTwoZeros();
    hide Compute;
    var bytes := Load(m, ibuf.addr, 32);
    assert BitsOf(bytes) == Zeros(32);
    assert Checksum(bytes) == Compute(BitsOf(bytes));
  }

  /** So is one of the nine characters 1 to 9. */
  lemma DigitMessage(ibuf: Ibuf, m: Ram)
    requires ibuf.Input? && ibuf.size == 9 && ibuf.addr + 9 <= |m|
    requires m[ibuf.addr..ibuf.addr + 9] == [49, 50, 51, 52, 53, 54, 55, 56, 57]
    ensures CorrectOnEntry(ibuf, m) <==> ibuf.crc == 0xE3069283
  {
    OneToNine();
    Octets.KnownOctets();
    hide Compute, Octets.Octet;
    var bytes := Load(m, ibuf.addr, 9);
    assert BitsOf(bytes) == [49, 50, 51, 52, 53, 54, 55, 56, 57];
    assert Checksum(bytes) == Compute(BitsOf(bytes));
  }
}
