/** Byte-addressed memory and sequences of writes to it.

    A write is the pair (start address, bytes written); a sequence of writes is applied
    oldest first.  Everything the transaction log is compared with or restored to is
    stated in terms of `Apply`. */
module Memory {

  type Byte = b: int | 0 <= b < 256

  type Ram = seq<Byte>

  datatype Write = Write(addr: nat, value: seq<Byte>)

  predicate Covers(w: Write, b: int) {
    w.addr <= b < w.addr + |w.value|
  }

  predicate Fits(m: Ram, w: Write) {
    w.addr + |w.value| <= |m|
  }

  predicate AllFit(m: Ram, ws: seq<Write>) {
    forall i :: 0 <= i < |ws| ==> Fits(m, ws[i])
  }

  function Load(m: Ram, a: nat, n: nat): (v: seq<Byte>)
    requires a + n <= |m|
    ensures |v| == n
  {
    m[a..a + n]
  }

  function Store(m: Ram, w: Write): (r: Ram)
    requires Fits(m, w)
    ensures |r| == |m|
    ensures forall b :: 0 <= b < |m| ==> r[b] == if Covers(w, b) then w.value[b - w.addr] else m[b]
  {
    seq(|m|, b requires 0 <= b < |m| => if Covers(w, b) then w.value[b - w.addr] else m[b])
  }

  /** The memory after the writes, oldest first. */
  function Apply(m: Ram, ws: seq<Write>): (r: Ram)
    requires AllFit(m, ws)
    ensures |r| == |m|
  {
    if ws == [] then m else Store(Apply(m, ws[..|ws| - 1]), ws[|ws| - 1])
  }

  /** Index of the last write covering byte b, or -1. */
  function LastWriter(ws: seq<Write>, b: int): (k: int)
    ensures -1 <= k < |ws|
    ensures k >= 0 ==> Covers(ws[k], b)
    ensures forall j :: k < j < |ws| ==> !Covers(ws[j], b)
  {
    if ws == [] then -1
    else if Covers(ws[|ws| - 1], b) then |ws| - 1
    else LastWriter(ws[..|ws| - 1], b)
  }

  /** What a byte holds after a sequence of writes is decided by its last writer alone. */
  lemma {:induction false} ApplyAt(m: Ram, ws: seq<Write>, b: nat)
    requires AllFit(m, ws) && b < |m|
    ensures var k := LastWriter(ws, b);
            Apply(m, ws)[b] == if k < 0 then m[b] else ws[k].value[b - ws[k].addr]
  {
    if ws == [] {
    } else {
      ApplyAt(m, ws[..|ws| - 1], b);
    }
  }

  lemma ApplySnoc(m: Ram, ws: seq<Write>, w: Write)
    requires AllFit(m, ws) && Fits(m, w)
    ensures AllFit(m, ws + [w])
    ensures Apply(m, ws + [w]) == Store(Apply(m, ws), w)
  {
    assert (ws + [w])[..|ws|] == ws;
  }

  lemma {:induction false} ApplyConcat(m: Ram, us: seq<Write>, vs: seq<Write>)
    requires AllFit(m, us) && AllFit(m, vs)
    ensures AllFit(m, us + vs) && AllFit(Apply(m, us), vs)
    ensures Apply(m, us + vs) == Apply(Apply(m, us), vs)
  {
    hide Store;
    if vs == [] {
      assert us + vs == us;
    } else {
      var vs' := vs[..|vs| - 1];
      ApplyConcat(m, us, vs');
      assert us + vs == (us + vs') + [vs[|vs| - 1]];
      ApplySnoc(m, us + vs', vs[|vs| - 1]);
    }
  }

  lemma StoreLoad(m: Ram, w: Write)
    requires Fits(m, w)
    ensures Load(Store(m, w), w.addr, |w.value|) == w.value
  {
  }

  /** Writing back the bytes a store replaced undoes it. */
  lemma StoreUndo(m: Ram, w: Write, v: Write)
    requires Fits(m, w) && w.addr == v.addr && |w.value| == |v.value|
    requires v.value == Load(m, w.addr, |w.value|)
    ensures Store(Store(m, w), v) == m
  {
  }
}
