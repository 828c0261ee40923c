/** Eight-byte words holding one 1-, 2-, 4- or 8-byte value at the place its address picks. */
module Words {
  import opened Memory

  type Word = w: seq<Byte> | |w| == 8 witness [0, 0, 0, 0, 0, 0, 0, 0]

  const ZERO_WORD: Word := [0, 0, 0, 0, 0, 0, 0, 0]

  predicate AccessSize(n: nat) {
    n == 1 || n == 2 || n == 4 || n == 8
  }

  predicate Aligned(addr: nat, size: nat)
    requires size > 0
  {
    addr % size == 0
  }

  /** (addr & 7) >> (size >> 1), the index of the value among its like in the word. */
  function PickIndex(addr: nat, size: nat): (k: nat)
    requires AccessSize(size)
    ensures k * size + size <= 8
  {
    (addr % 8) / (if size == 1 then 1 else if size == 2 then 2 else if size == 4 then 4 else 16)
  }

  lemma AlignedOffset(addr: nat)
    ensures addr % 2 == 0 ==> (addr % 8) / 2 * 2 == addr % 8
    ensures addr % 4 == 0 ==> (addr % 8) / 4 * 4 == addr % 8
  {
    var r, q := addr % 8, addr / 8;
    if addr % 2 == 0 {
      Multiple(2, addr, r, 4 * q);
    }
    if addr % 4 == 0 {
      Multiple(4, addr, r, 2 * q);
    }
  }

  lemma Multiple(d: nat, a: nat, r: nat, q: nat)
    requires d == 2 || d == 4
    requires a % d == 0 && a == d * q + r
    ensures r / d * d == r
  {
    var h := a / d;
    assert r == d * (h - q);
  }

  function Offset(addr: nat, size: nat): (o: nat)
    requires AccessSize(size)
    ensures o + size <= 8
    ensures Aligned(addr, size) ==> o == addr % 8
  {
    AlignedOffset(addr);
    var k := PickIndex(addr, size);
    if size == 1 then k else if size == 2 then k * 2 else if size == 4 then k * 4 else k * 8
  }

  function Pick(w: Word, addr: nat, size: nat): (v: seq<Byte>)
    requires AccessSize(size)
    ensures |v| == size
  {
    w[Offset(addr, size)..Offset(addr, size) + size]
  }

  function Put(w: Word, addr: nat, v: seq<Byte>): (r: Word)
    requires AccessSize(|v|)
    ensures forall c :: 0 <= c < 8 ==>
      r[c] == var o := Offset(addr, |v|); if o <= c < o + |v| then v[c - o] else w[c]
  {
    var o := Offset(addr, |v|);
    seq(8, c requires 0 <= c < 8 => if o <= c < o + |v| then v[c - o] else w[c])
  }

  /** A value comes back from the word it was put in, at any address, aligned or not. */
  lemma PickPut(w: Word, addr: nat, v: seq<Byte>)
    requires |v| == 1 || |v| == 2 || |v| == 4 || |v| == 8
    ensures Pick(Put(w, addr, v), addr, |v|) == v
  {
    hide PickIndex, Offset;
  }
}
