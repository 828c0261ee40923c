/** The append-only log as a mathematical object: recording old values while writing
    through, swapping the log with memory, and restoring memory from it.

    The log of a phase is an undo log until it is swapped; swapping turns it into a redo
    log and gives the memory the phase started from. */
module UndoLog {
  import opened Memory

  /** Same addresses and sizes, entry by entry; values are free. */
  predicate SameShape(us: seq<Write>, vs: seq<Write>) {
    |us| == |vs| &&
    forall i :: 0 <= i < |us| ==> us[i].addr == vs[i].addr && |us[i].value| == |vs[i].value|
  }

  lemma ShapeReflexive(ws: seq<Write>)
    ensures SameShape(ws, ws)
  {
  }

  lemma ShapeStart(us: seq<Write>, vs: seq<Write>)
    ensures SameShape(us[..0], vs[..0])
    ensures SameShape(us, vs) ==> |us| == |vs|
  {
  }

  lemma ShapeStep(us: seq<Write>, vs: seq<Write>, k: nat)
    requires k < |us| == |vs| && SameShape(us[..k], vs[..k])
    ensures SameShape(us[..k + 1], vs[..k + 1]) <==>
            us[k].addr == vs[k].addr && |us[k].value| == |vs[k].value|
    ensures !SameShape(us[..k + 1], vs[..k + 1]) ==> !SameShape(us, vs)
  {
    assert us[..k + 1][k] == us[k] && vs[..k + 1][k] == vs[k];
    assert forall i :: 0 <= i < k ==> us[..k + 1][i] == us[..k][i] && vs[..k + 1][i] == vs[..k][i];
  }

  /** Some byte lies in both accesses. */
  predicate Overlap(u: Write, v: Write) {
    u.addr < v.addr + |v.value| && v.addr < u.addr + |u.value| && u.value != [] && v.value != []
  }

  predicate PairwiseDisjoint(ws: seq<Write>) {
    forall i, j :: 0 <= i < j < |ws| ==> !Overlap(ws[i], ws[j])
  }

  predicate DisjointOrIdentical(ws: seq<Write>) {
    forall i, j :: 0 <= i < j < |ws| ==>
      !Overlap(ws[i], ws[j]) || (ws[i].addr == ws[j].addr && |ws[i].value| == |ws[j].value|)
  }

  /** What the log holds after the writes went through: the value each write replaced. */
  function OldValues(m: Ram, ws: seq<Write>): (log: seq<Write>)
    requires AllFit(m, ws)
    ensures SameShape(log, ws)
    ensures AllFit(m, log)
  {
    if ws == [] then []
    else
      var w := ws[|ws| - 1];
      OldValues(m, ws[..|ws| - 1]) +
      [Write(w.addr, Load(Apply(m, ws[..|ws| - 1]), w.addr, |w.value|))]
  }

  /** Exchange log and memory, newest entry first. */
  function Swap(m: Ram, log: seq<Write>): (r: (Ram, seq<Write>))
    requires AllFit(m, log)
    ensures |r.0| == |m|
    ensures SameShape(r.1, log)
    ensures AllFit(r.0, r.1)
    decreases |log|
  {
    if log == [] then (m, [])
    else
      var e := log[|log| - 1];
      var (m', log') := Swap(Store(m, e), log[..|log| - 1]);
      (m', log' + [Write(e.addr, Load(m, e.addr, |e.value|))])
  }

  lemma {:induction false} OldValuesAt(m: Ram, ws: seq<Write>, k: nat)
    requires AllFit(m, ws) && k < |ws|
    ensures OldValues(m, ws)[k].value == Load(Apply(m, ws[..k]), ws[k].addr, |ws[k].value|)
  {
    if k == |ws| - 1 {
    } else {
      OldValuesAt(m, ws[..|ws| - 1], k);
      assert ws[..|ws| - 1][..k] == ws[..k];
    }
  }

  lemma OldValuesShape(m: Ram, ws: seq<Write>)
    requires AllFit(m, ws)
    ensures SameShape(ws, OldValues(m, ws))
  {
  }

  lemma OldValuesFit(m: Ram, ws: seq<Write>)
    requires AllFit(m, ws)
    ensures AllFit(Apply(m, ws), OldValues(m, ws))
  {
  }

  lemma OldValuesSnoc(m: Ram, ws: seq<Write>, w: Write)
    requires AllFit(m, ws) && Fits(m, w)
    ensures AllFit(m, ws + [w])
    ensures OldValues(m, ws + [w]) ==
            OldValues(m, ws) + [Write(w.addr, Load(Apply(m, ws), w.addr, |w.value|))]
  {
    assert (ws + [w])[..|ws|] == ws;
  }

  lemma SwapNothing(m: Ram)
    ensures Swap(m, []) == (m, [])
  {
  }

  lemma SwapSnoc(m: Ram, log: seq<Write>, e: Write)
    requires AllFit(m, log) && Fits(m, e)
    ensures AllFit(m, log + [e])
    ensures var (m', log') := Swap(Store(m, e), log);
            Swap(m, log + [e]) == (m', log' + [Write(e.addr, Load(m, e.addr, |e.value|))])
  {
    assert (log + [e])[..|log|] == log;
  }

  /** One turn of the swapping loop: entry i exchanged, the entries below still to do. */
  lemma SwapStep(m: Ram, log: seq<Write>, i: nat, was: Write)
    requires AllFit(m, log) && i < |log|
    requires was == Write(log[i].addr, Load(m, log[i].addr, |log[i].value|))
    ensures var m', log' := Store(m, log[i]), log[i := was];
            AllFit(m', log') &&
            Swap(m', log'[..i]).0 == Swap(m, log[..i + 1]).0 &&
            Swap(m', log'[..i]).1 + log'[i..] == Swap(m, log[..i + 1]).1 + log[i + 1..]
  {
    hide Swap, Store, Load;
    var log' := log[i := was];
    assert log[..i + 1] == log[..i] + [log[i]];
    SwapSnoc(m, log[..i], log[i]);
    assert log'[..i] == log[..i];
    assert log'[i..] == [was] + log[i + 1..];
  }

  /** Whatever was written, overlapping or of mixed sizes: swapping brings back the start
      memory and leaves the values written, in order. */
  lemma {:induction false} SwapRestores(m: Ram, ws: seq<Write>)
    requires AllFit(m, ws)
    ensures Swap(Apply(m, ws), OldValues(m, ws)) == (m, ws)
  {
    if ws == [] {
    } else {
      var us, w := ws[..|ws| - 1], ws[|ws| - 1];
      assert ws == us + [w];
      var was := Write(w.addr, Load(Apply(m, us), w.addr, |w.value|));
      OldValuesSnoc(m, us, w);
      ApplySnoc(m, us, w);
      SwapSnoc(Store(Apply(m, us), w), OldValues(m, us), was);
      StoreUndo(Apply(m, us), w, was);
      StoreLoad(Apply(m, us), w);
      SwapRestores(m, us);
    }
  }

  /** The converse, for any log and any memory: what a swap leaves behind is a memory and a
      redo log from which rewriting forward rebuilds both. */
  lemma {:induction false} SwapIsInvertible(m: Ram, log: seq<Write>)
    requires AllFit(m, log)
    ensures var (m', log') := Swap(m, log);
            Apply(m', log') == m && OldValues(m', log') == log
    decreases |log|
  {
    if log == [] {
    } else {
      var rest, e := log[..|log| - 1], log[|log| - 1];
      assert log == rest + [e];
      var w := Write(e.addr, Load(m, e.addr, |e.value|));
      SwapSnoc(m, rest, e);
      SwapIsInvertible(Store(m, e), rest);
      var (m', redo) := Swap(Store(m, e), rest);
      ApplySnoc(m', redo, w);
      OldValuesSnoc(m', redo, w);
      StoreUndo(m, e, w);
      StoreLoad(m, e);
    }
  }

  lemma {:induction false} SameLastWriter(us: seq<Write>, vs: seq<Write>, b: int)
    requires SameShape(us, vs)
    ensures LastWriter(us, b) == LastWriter(vs, b)
  {
    if us == [] {
    } else {
      SameLastWriter(us[..|us| - 1], vs[..|vs| - 1], b);
    }
  }

  /** Replaying the undo log oldest first leaves each written byte at the value it had just
      before its last write. */
  lemma RestoredByte(m: Ram, ws: seq<Write>, b: nat)
    requires AllFit(m, ws) && b < |m|
    ensures var k := LastWriter(ws, b);
            Apply(Apply(m, ws), OldValues(m, ws))[b] == if k < 0 then m[b] else Apply(m, ws[..k])[b]
  {
    hide Apply, OldValues, LastWriter;
    var log := OldValues(m, ws);
    SameLastWriter(log, ws, b);
    ApplyAt(Apply(m, ws), log, b);
    ApplyAt(m, ws, b);
    var k := LastWriter(ws, b);
    if k >= 0 {
      OldValuesAt(m, ws, k);
    }
  }

  /** Replaying the undo log of these writes oldest first gives back the start memory. */
  predicate Restored(m: Ram, ws: seq<Write>)
    requires AllFit(m, ws)
  {
    Apply(Apply(m, ws), OldValues(m, ws)) == m
  }

  /** Forward restoration is exact on pairwise disjoint accesses. */
  lemma RestoreDisjoint(m: Ram, ws: seq<Write>)
    requires AllFit(m, ws)
    requires PairwiseDisjoint(ws)
    ensures Apply(Apply(m, ws), OldValues(m, ws)) == m
  {
    hide Apply, OldValues, LastWriter;
    forall b | 0 <= b < |m|
      ensures Apply(Apply(m, ws), OldValues(m, ws))[b] == m[b]
    {
      RestoredByte(m, ws, b);
      var k := LastWriter(ws, b);
      if k >= 0 {
        ApplyAt(m, ws[..k], b);
        assert forall j :: 0 <= j < k ==> !Overlap(ws[j], ws[k]);
      }
    }
  }

  lemma DisjointIsRestored(m: Ram, ws: seq<Write>)
    requires AllFit(m, ws) && PairwiseDisjoint(ws)
    ensures Restored(m, ws)
  {
    RestoreDisjoint(m, ws);
  }

  /** The same accesses with every byte written set to c. */
  function Fill(ws: seq<Write>, c: Byte): (us: seq<Write>)
    ensures SameShape(us, ws)
  {
    seq(|ws|, i requires 0 <= i < |ws| => Write(ws[i].addr, seq(|ws[i].value|, _ => c)))
  }

  function Zeros(n: nat): (m: Ram)
    ensures |m| == n && forall b :: 0 <= b < n ==> m[b] == 0
  {
    seq(n, _ => 0)
  }

  ghost predicate RestoresAlways(n: nat, shape: seq<Write>) {
    forall m: Ram, ws: seq<Write> ::
      |m| == n && AllFit(m, ws) && SameShape(ws, shape) ==> Restored(m, ws)
  }

  /** Two accesses sharing byte b: filled with ones over a zero memory they are not undone. */
  lemma SharedByteNotRestored(n: nat, shape: seq<Write>, i: nat, j: nat, b: nat)
    requires AllFit(Zeros(n), shape)
    requires i < j < |shape| && Covers(shape[i], b) && Covers(shape[j], b)
    ensures !Restored(Zeros(n), Fill(shape, 1))
  {
    hide Apply, OldValues, LastWriter;
    var m, ws := Zeros(n), Fill(shape, 1);
    RestoredByte(m, ws, b);
    var k := LastWriter(ws, b);
    assert Covers(ws[j], b);
    assert i < k;
    ApplyAt(m, ws[..k], b);
    assert Covers(ws[..k][i], b);
  }

  /** Forward restoration is right for all values exactly when no two accesses share a byte. */
  lemma RestoreExactlyWhenDisjoint(n: nat, shape: seq<Write>)
    requires AllFit(Zeros(n), shape)
    ensures RestoresAlways(n, shape) <==> PairwiseDisjoint(shape)
  {
    hide Restored, OldValues, Apply, Fill, Zeros;
    if PairwiseDisjoint(shape) {
      forall m: Ram, ws: seq<Write> | |m| == n && AllFit(m, ws) && SameShape(ws, shape)
        ensures Restored(m, ws)
      {
        assert forall i, j :: 0 <= i < j < |ws| ==> Overlap(ws[i], ws[j]) == Overlap(shape[i], shape[j]);
        DisjointIsRestored(m, ws);
      }
    } else {
      var i, j :| 0 <= i < j < |shape| && Overlap(shape[i], shape[j]);
      var b := if shape[i].addr < shape[j].addr then shape[j].addr else shape[i].addr;
      SharedByteNotRestored(n, shape, i, j, b);
    }
  }
}
