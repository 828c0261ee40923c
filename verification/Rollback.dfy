/** Restoring memory when a transaction is abandoned (src/abuf.c:604-706).

    The log of the first phase is replayed oldest first.  Locations inside blocks the
    transaction allocated are skipped, and a pointer-sized location that now points into
    such a block is set to NULL instead of its old value. */
module Rollback {
  import opened Memory
  import opened Words
  import opened UndoLog
  import opened Deferred
  import opened AbufModule

  const NULL_POINTER: seq<Byte> := [0, 0, 0, 0, 0, 0, 0, 0]

  /** The number a byte string stands for, least significant byte first. */
  function PointerValue(bytes: seq<Byte>): nat {
    if bytes == [] then 0 else bytes[0] + 256 * PointerValue(bytes[1..])
  }

  /** Eight bytes are the digits to base 256, lowest first. */
  lemma PointerValueOfEight(b: seq<Byte>)
    requires |b| == 8
    ensures var d: seq<int> := b;
            PointerValue(b) ==
            d[0] + 0x100 * d[1] + 0x10000 * d[2] + 0x1000000 * d[3] + 0x100000000 * d[4] +
            0x10000000000 * d[5] + 0x1000000000000 * d[6] + 0x100000000000000 * d[7]
  {
    assert PointerValue(b) == b[0] + 0x100 * PointerValue(b[1..]);
    assert PointerValue(b[1..]) == b[1] + 0x100 * PointerValue(b[2..]);
    assert PointerValue(b[2..]) == b[2] + 0x100 * PointerValue(b[3..]);
    assert PointerValue(b[3..]) == b[3] + 0x100 * PointerValue(b[4..]);
    assert PointerValue(b[4..]) == b[4] + 0x100 * PointerValue(b[5..]);
    assert PointerValue(b[5..]) == b[5] + 0x100 * PointerValue(b[6..]);
    assert PointerValue(b[6..]) == b[6] + 0x100 * PointerValue(b[7..]);
    assert PointerValue(b[7..]) == b[7] + 0x100 * PointerValue(b[8..]);
  }

  /** A non-null pointer into one of the blocks. */
  ghost predicate PointsInto(allocs: seq<Allocation>, bytes: seq<Byte>) {
    |bytes| == 8 && PointerValue(bytes) != 0 && InRange(allocs, PointerValue(bytes))
  }

  /** What an entry leaves behind, given the bytes there now and the bytes it recorded. */
  ghost function Outcome(allocs: seq<Allocation>, addr: nat, current: seq<Byte>, recorded: seq<Byte>): (v: seq<Byte>)
    requires |current| == |recorded|
    ensures |v| == |recorded|
  {
    if InRange(allocs, addr) then current
    else if PointsInto(allocs, current) then NULL_POINTER
    else recorded
  }

  /** The three cases, block by block. */
  lemma OutcomeCases(allocs: seq<Allocation>, addr: nat, current: seq<Byte>, recorded: seq<Byte>)
    requires |current| == |recorded|
    ensures (exists x :: x in allocs && x.addr != 0 && x.addr <= addr < x.addr + x.size) ==>
            Outcome(allocs, addr, current, recorded) == current
    ensures !(exists x :: x in allocs && x.addr != 0 && x.addr <= addr < x.addr + x.size) ==>
            Outcome(allocs, addr, current, recorded) ==
            if |current| == 8 && exists x ::
                x in allocs && x.addr != 0 && x.addr <= PointerValue(current) < x.addr + x.size
            then [0, 0, 0, 0, 0, 0, 0, 0]
            else recorded
  {
    InRangeExactly(allocs, addr);
    InRangeExactly(allocs, PointerValue(current));
  }

  ghost function RestoreEntry(m: Ram, e: Write, allocs: seq<Allocation>): (r: Ram)
    requires Fits(m, e)
    ensures |r| == |m|
  {
    Store(m, Write(e.addr, Outcome(allocs, e.addr, Load(m, e.addr, |e.value|), e.value)))
  }

  /** The first n entries replayed. */
  ghost function RestoreFirst(m: Ram, log: seq<Write>, allocs: seq<Allocation>, n: nat): (r: Ram)
    requires AllFit(m, log) && n <= |log|
    ensures |r| == |m|
  {
    if n == 0 then m else RestoreEntry(RestoreFirst(m, log, allocs, n - 1), log[n - 1], allocs)
  }

  /** The bytes entry k ends with. */
  ghost function FinalBytes(m: Ram, ws: seq<Write>, allocs: seq<Allocation>, k: nat): (v: seq<Byte>)
    requires AllFit(m, ws) && k < |ws|
    ensures |v| == |ws[k].value|
  {
    Outcome(allocs, ws[k].addr, ws[k].value, Load(m, ws[k].addr, |ws[k].value|))
  }

  lemma OnlyCover(ws: seq<Write>, k: nat, b: nat)
    requires PairwiseDisjoint(ws) && k < |ws| && Covers(ws[k], b)
    ensures forall j :: 0 <= j < |ws| && j != k ==> !Covers(ws[j], b)
  {
    forall j | 0 <= j < |ws| && j != k
      ensures !Covers(ws[j], b)
    {
      if j < k {
        assert !Overlap(ws[j], ws[k]);
      } else {
        assert !Overlap(ws[k], ws[j]);
      }
    }
  }

  lemma SameLoad(m: Ram, r: Ram, a: nat, n: nat)
    requires |m| == |r| && a + n <= |m|
    requires forall b :: a <= b < a + n ==> m[b] == r[b]
    ensures Load(m, a, n) == Load(r, a, n)
  {
  }

  lemma LoadIs(m: Ram, w: Write)
    requires Fits(m, w)
    requires forall b :: w.addr <= b < w.addr + |w.value| ==> m[b] == w.value[b - w.addr]
    ensures Load(m, w.addr, |w.value|) == w.value
  {
  }

  /** Disjoint writes each recorded the start memory, and stay as written. */
  lemma DisjointRecordsStart(m: Ram, ws: seq<Write>, k: nat)
    requires AllFit(m, ws) && PairwiseDisjoint(ws) && k < |ws|
    ensures OldValues(m, ws)[k].value == Load(m, ws[k].addr, |ws[k].value|)
    ensures Load(Apply(m, ws), ws[k].addr, |ws[k].value|) == ws[k].value
  {
    hide Apply, OldValues, LastWriter, Load, PairwiseDisjoint;
    OldValuesAt(m, ws, k);
    var w := ws[k];
    forall b | w.addr <= b < w.addr + |w.value|
      ensures Apply(m, ws[..k])[b] == m[b] && Apply(m, ws)[b] == w.value[b - w.addr]
    {
      ApplyAt(m, ws[..k], b);
      ApplyAt(m, ws, b);
      OnlyCover(ws, k, b);
    }
    SameLoad(Apply(m, ws[..k]), m, w.addr, |w.value|);
    LoadIs(Apply(m, ws), w);
  }

  /** What replaying a log over memory m leaves at entry k, if the entries are disjoint. */
  ghost function EndBytes(m: Ram, log: seq<Write>, allocs: seq<Allocation>, k: nat): (v: seq<Byte>)
    requires AllFit(m, log) && k < |log|
    ensures |v| == |log[k].value|
  {
    Outcome(allocs, log[k].addr, Load(m, log[k].addr, |log[k].value|), log[k].value)
  }

  lemma ReplayNothing(m: Ram, log: seq<Write>, allocs: seq<Allocation>)
    requires AllFit(m, log)
    ensures RestoreFirst(m, log, allocs, 0) == m
  {
  }

  lemma StoredByte(m: Ram, w: Write, v: Write, b: nat)
    requires Fits(m, w) && b < |m| && w.addr == v.addr && |w.value| == |v.value|
    ensures Covers(v, b) ==> 0 <= b - v.addr < |w.value| && Store(m, w)[b] == w.value[b - v.addr]
    ensures !Covers(v, b) ==> Store(m, w)[b] == m[b]
  {
  }

  /** Entry n overwrites its location, if it finds there what was there at the beginning. */
  lemma ReplayStep(m: Ram, log: seq<Write>, allocs: seq<Allocation>, n: nat)
    requires AllFit(m, log) && n < |log|
    requires Load(RestoreFirst(m, log, allocs, n), log[n].addr, |log[n].value|) == Load(m, log[n].addr, |log[n].value|)
    ensures RestoreFirst(m, log, allocs, n + 1) ==
            Store(RestoreFirst(m, log, allocs, n), Write(log[n].addr, EndBytes(m, log, allocs, n)))
  {
    hide Outcome, Load, Store;
  }

  /** After n entries, the bytes of those entries are replayed and all others unchanged. */
  lemma {:induction false} ReplayedSoFar(m: Ram, log: seq<Write>, allocs: seq<Allocation>, n: nat, b: nat)
    requires AllFit(m, log) && PairwiseDisjoint(log) && n <= |log| && b < |m|
    ensures forall k :: 0 <= k < n && Covers(log[k], b) ==>
      RestoreFirst(m, log, allocs, n)[b] == EndBytes(m, log, allocs, k)[b - log[k].addr]
    ensures (forall k :: 0 <= k < n ==> !Covers(log[k], b)) ==> RestoreFirst(m, log, allocs, n)[b] == m[b]
    decreases n
  {
    hide EndBytes, RestoreFirst, PairwiseDisjoint, Store, Load;
    if n == 0 {
      ReplayNothing(m, log, allocs);
    } else {
      var r, e := RestoreFirst(m, log, allocs, n - 1), log[n - 1];
      ReplayedSoFar(m, log, allocs, n - 1, b);
      forall c | e.addr <= c < e.addr + |e.value|
        ensures r[c] == m[c]
      {
        ReplayedSoFar(m, log, allocs, n - 1, c);
        OnlyCover(log, n - 1, c);
      }
      SameLoad(r, m, e.addr, |e.value|);
      ReplayStep(m, log, allocs, n - 1);
      StoredByte(r, Write(e.addr, EndBytes(m, log, allocs, n - 1)), e, b);
      if Covers(e, b) {
        OnlyCover(log, n - 1, b);
      }
    }
  }

  /** Disjoint entries: each location gets its recorded value, except that blocks of the
      transaction keep what they hold and a location holding a pointer into one becomes NULL;
      nothing else changes. */
  lemma ReplayOutcome(m: Ram, log: seq<Write>, allocs: seq<Allocation>)
    requires AllFit(m, log) && PairwiseDisjoint(log)
    ensures var r := RestoreFirst(m, log, allocs, |log|);
            forall k :: 0 <= k < |log| ==> Load(r, log[k].addr, |log[k].value|) == EndBytes(m, log, allocs, k)
    ensures var r := RestoreFirst(m, log, allocs, |log|);
            forall b :: 0 <= b < |m| && LastWriter(log, b) < 0 ==> r[b] == m[b]
  {
    hide EndBytes, RestoreFirst, Load, PairwiseDisjoint, LastWriter;
    var r := RestoreFirst(m, log, allocs, |log|);
    forall k | 0 <= k < |log|
      ensures Load(r, log[k].addr, |log[k].value|) == EndBytes(m, log, allocs, k)
    {
      var out := Write(log[k].addr, EndBytes(m, log, allocs, k));
      forall b | out.addr <= b < out.addr + |out.value|
        ensures r[b] == out.value[b - out.addr]
      {
        ReplayedSoFar(m, log, allocs, |log|, b);
        assert Covers(log[k], b);
      }
      LoadIs(r, out);
    }
    forall b | 0 <= b < |m| && LastWriter(log, b) < 0
      ensures r[b] == m[b]
    {
      ReplayedSoFar(m, log, allocs, |log|, b);
    }
  }

  lemma StillDisjoint(us: seq<Write>, ws: seq<Write>)
    requires SameShape(us, ws) && PairwiseDisjoint(ws)
    ensures PairwiseDisjoint(us)
  {
  }

  lemma RollbackEnds(m: Ram, ws: seq<Write>, allocs: seq<Allocation>)
    requires AllFit(m, ws) && PairwiseDisjoint(ws)
    ensures var r := RestoreFirst(Apply(m, ws), OldValues(m, ws), allocs, |ws|);
            forall k :: 0 <= k < |ws| ==>
              Load(r, ws[k].addr, |ws[k].value|) == FinalBytes(m, ws, allocs, k)
    ensures var r := RestoreFirst(Apply(m, ws), OldValues(m, ws), allocs, |ws|);
            forall b :: 0 <= b < |m| && LastWriter(ws, b) < 0 ==> r[b] == m[b]
  {
    hide Apply, OldValues, Outcome, RestoreFirst, Load, PairwiseDisjoint, LastWriter;
    var log := OldValues(m, ws);
    StillDisjoint(log, ws);
    ReplayOutcome(Apply(m, ws), log, allocs);
    forall k | 0 <= k < |ws|
      ensures EndBytes(Apply(m, ws), log, allocs, k) == FinalBytes(m, ws, allocs, k)
    {
      DisjointRecordsStart(m, ws, k);
    }
    forall b | 0 <= b < |m| && LastWriter(ws, b) < 0
      ensures LastWriter(log, b) < 0 && Apply(m, ws)[b] == m[b]
    {
      SameLastWriter(log, ws, b);
      ApplyAt(m, ws, b);
    }
  }

  /** A fault in the first phase, with pairwise disjoint accesses.  A location that starts in a
      block of the transaction keeps what was written; of the others, one of pointer size that
      points into a block becomes NULL and the rest are as at the start; nothing else changes. */
  lemma RollbackOutcome(m: Ram, ws: seq<Write>, allocs: seq<Allocation>)
    requires AllFit(m, ws) && PairwiseDisjoint(ws)
    ensures var r := RestoreFirst(Apply(m, ws), OldValues(m, ws), allocs, |ws|);
            forall k, x :: 0 <= k < |ws| && x in allocs && x.addr != 0 && x.addr <= ws[k].addr < x.addr + x.size ==>
              Load(r, ws[k].addr, |ws[k].value|) == ws[k].value
    ensures var r := RestoreFirst(Apply(m, ws), OldValues(m, ws), allocs, |ws|);
            forall k | 0 <= k < |ws| ::
              (forall x :: x in allocs && x.addr != 0 ==> !(x.addr <= ws[k].addr < x.addr + x.size)) ==>
              Load(r, ws[k].addr, |ws[k].value|) ==
              if |ws[k].value| == 8 && exists x ::
                  x in allocs && x.addr != 0 && x.addr <= PointerValue(ws[k].value) < x.addr + x.size
              then [0, 0, 0, 0, 0, 0, 0, 0]
              else Load(m, ws[k].addr, |ws[k].value|)
    ensures var r := RestoreFirst(Apply(m, ws), OldValues(m, ws), allocs, |ws|);
            forall b :: 0 <= b < |m| && (forall k :: 0 <= k < |ws| ==> !Covers(ws[k], b)) ==> r[b] == m[b]
  {
    hide Apply, OldValues, Outcome, RestoreFirst, Load, PairwiseDisjoint, LastWriter;
    RollbackEnds(m, ws, allocs);
    forall k | 0 <= k < |ws|
    {
      OutcomeCases(allocs, ws[k].addr, ws[k].value, Load(m, ws[k].addr, |ws[k].value|));
    }
  }

  /** If no start value points into a block, no pointer into a freed block is left at a logged
      location outside the blocks. */
  lemma NothingDangles(m: Ram, ws: seq<Write>, allocs: seq<Allocation>, k: nat, x: Allocation)
    requires AllFit(m, ws) && PairwiseDisjoint(ws) && k < |ws| && |ws[k].value| == 8
    requires !InRange(allocs, ws[k].addr) && !PointsInto(allocs, Load(m, ws[k].addr, 8))
    requires x in allocs && x.addr != 0
    ensures var r := RestoreFirst(Apply(m, ws), OldValues(m, ws), allocs, |ws|);
            !(x.addr <= PointerValue(Load(r, ws[k].addr, 8)) < x.addr + x.size)
  {
    hide Apply, OldValues, RestoreFirst, Load, PairwiseDisjoint, LastWriter;
    RollbackEnds(m, ws, allocs);
    InRangeExactly(allocs, PointerValue(FinalBytes(m, ws, allocs, k)));
    PointerValueOfEight(NULL_POINTER);
  }

  // ------------------------------------------------ rollback after a switch

  lemma LateRollbackEnds(m: Ram, us: seq<Write>, vs: seq<Write>, allocs: seq<Allocation>)
    requires AllFit(m, us) && AllFit(m, vs) && SameShape(us, vs) && PairwiseDisjoint(us)
    ensures AllFit(Apply(m, vs), Swap(Apply(m, us), OldValues(m, us)).1)
    ensures var log := Swap(Apply(m, us), OldValues(m, us)).1;
            var r := RestoreFirst(Apply(m, vs), log, allocs, |log|);
            (forall k :: 0 <= k < |us| ==>
              Load(r, us[k].addr, |us[k].value|) == Outcome(allocs, us[k].addr, vs[k].value, us[k].value)) &&
            forall b :: 0 <= b < |m| && LastWriter(us, b) < 0 ==> r[b] == m[b]
  {
    hide Apply, OldValues, Outcome, RestoreFirst, Load, PairwiseDisjoint, LastWriter, Swap;
    SwapRestores(m, us);
    StillDisjoint(vs, us);
    ReplayOutcome(Apply(m, vs), us, allocs);
    forall k | 0 <= k < |us|
      ensures Load(Apply(m, vs), us[k].addr, |us[k].value|) == vs[k].value
    {
      DisjointRecordsStart(m, vs, k);
    }
    forall b | 0 <= b < |m| && LastWriter(us, b) < 0
      ensures Apply(m, vs)[b] == m[b]
    {
      SameLastWriter(us, vs, b);
      ApplyAt(m, vs, b);
    }
  }

  /** A verification failure is only seen in the last phase, when the first phase's log has
      been swapped: what it replays then are the first phase's new values, over the last phase's.
      The cases are those of `RollbackOutcome`. */
  lemma LateRollback(m: Ram, us: seq<Write>, vs: seq<Write>, allocs: seq<Allocation>)
    requires AllFit(m, us) && AllFit(m, vs) && SameShape(us, vs) && PairwiseDisjoint(us)
    ensures AllFit(Apply(m, vs), Swap(Apply(m, us), OldValues(m, us)).1)
    ensures var log := Swap(Apply(m, us), OldValues(m, us)).1;
            var r := RestoreFirst(Apply(m, vs), log, allocs, |log|);
            forall k, x :: 0 <= k < |us| && x in allocs && x.addr != 0 && x.addr <= us[k].addr < x.addr + x.size ==>
              Load(r, us[k].addr, |us[k].value|) == vs[k].value
    ensures var log := Swap(Apply(m, us), OldValues(m, us)).1;
            var r := RestoreFirst(Apply(m, vs), log, allocs, |log|);
            forall k | 0 <= k < |us| ::
              (forall x :: x in allocs && x.addr != 0 ==> !(x.addr <= us[k].addr < x.addr + x.size)) ==>
              Load(r, us[k].addr, |us[k].value|) ==
              if |us[k].value| == 8 && exists x ::
                  x in allocs && x.addr != 0 && x.addr <= PointerValue(vs[k].value) < x.addr + x.size
              then [0, 0, 0, 0, 0, 0, 0, 0]
              else us[k].value
    ensures var log := Swap(Apply(m, us), OldValues(m, us)).1;
            var r := RestoreFirst(Apply(m, vs), log, allocs, |log|);
            forall b :: 0 <= b < |m| && (forall k :: 0 <= k < |us| ==> !Covers(us[k], b)) ==> r[b] == m[b]
  {
    hide Apply, OldValues, Outcome, RestoreFirst, Load, PairwiseDisjoint, LastWriter, Swap;
    LateRollbackEnds(m, us, vs, allocs);
    forall k | 0 <= k < |us|
    {
      OutcomeCases(allocs, us[k].addr, vs[k].value, us[k].value);
    }
  }

  lemma NothingAllocated(a: nat, bytes: seq<Byte>)
    ensures !InRange([], a) && !PointsInto([], bytes)
  {
  }

  lemma {:induction false} UnfilteredRestore(m: Ram, log: seq<Write>, n: nat)
    requires AllFit(m, log) && n <= |log|
    ensures RestoreFirst(m, log, [], n) == Apply(m, log[..n])
  {
    hide Store, Load;
    if n == 0 {
    } else {
      UnfilteredRestore(m, log, n - 1);
      var r := RestoreFirst(m, log, [], n - 1);
      NothingAllocated(log[n - 1].addr, Load(r, log[n - 1].addr, |log[n - 1].value|));
      assert log[..n] == log[..n - 1] + [log[n - 1]];
      ApplySnoc(m, log[..n - 1], log[n - 1]);
      assert RestoreEntry(r, log[n - 1], []) == Store(r, log[n - 1]);
    }
  }

  /** Without blocks, whatever the accesses: bytes the first phase wrote get its new values. */
  lemma LateRollbackWithoutBlocks(m: Ram, us: seq<Write>, vs: seq<Write>, b: nat)
    requires AllFit(m, us) && AllFit(m, vs) && b < |m|
    ensures AllFit(Apply(m, vs), Swap(Apply(m, us), OldValues(m, us)).1)
    ensures var log := Swap(Apply(m, us), OldValues(m, us)).1;
            RestoreFirst(Apply(m, vs), log, [], |log|)[b] ==
            if LastWriter(us, b) >= 0 then Apply(m, us)[b] else Apply(m, vs)[b]
  {
    hide Apply, LastWriter, RestoreFirst, Swap;
    SwapRestores(m, us);
    UnfilteredRestore(Apply(m, vs), us, |us|);
    assert us[..|us|] == us;
    ApplyAt(Apply(m, vs), us, b);
    ApplyAt(m, us, b);
  }

  /** Every byte outside the blocks, which are freed, is as before the transaction. */
  ghost predicate LateRestored(m: Ram, us: seq<Write>, vs: seq<Write>, allocs: seq<Allocation>)
    requires AllFit(m, us) && AllFit(m, vs)
  {
    forall b :: 0 <= b < |m| && !InRange(allocs, b) ==> RestoreFirst(Apply(m, vs), us, allocs, |us|)[b] == m[b]
  }

  ghost predicate RestoresAllValues(n: nat, shape: seq<Write>, allocs: seq<Allocation>) {
    forall m: Ram, us: seq<Write>, vs: seq<Write> ::
      |m| == n && AllFit(m, us) && AllFit(m, vs) && SameShape(us, shape) && SameShape(vs, shape) ==>
      LateRestored(m, us, vs, allocs)
  }

  /** Such a rollback restores memory outside the blocks, for all values of the two phases,
      exactly when nothing was written outside them. */
  lemma LateRollbackExactlyWhenNothingWritten(n: nat, shape: seq<Write>, allocs: seq<Allocation>)
    requires AllFit(Zeros(n), shape)
    ensures RestoresAllValues(n, shape, allocs) <==>
            forall b :: 0 <= b < n && !InRange(allocs, b) ==> LastWriter(shape, b) < 0
  {
    hide Apply, LastWriter, InRange, RestoreFirst;
    if forall b :: 0 <= b < n && !InRange(allocs, b) ==> LastWriter(shape, b) < 0 {
      forall m: Ram, us: seq<Write>, vs: seq<Write> |
        |m| == n && AllFit(m, us) && AllFit(m, vs) && SameShape(us, shape) && SameShape(vs, shape)
        ensures LateRestored(m, us, vs, allocs)
      {
        forall b | 0 <= b < n && !InRange(allocs, b)
          ensures RestoreFirst(Apply(m, vs), us, allocs, |us|)[b] == m[b]
        {
          UnwrittenStays(m, us, vs, allocs, shape, b);
        }
      }
    } else {
      var b :| 0 <= b < n && !InRange(allocs, b) && LastWriter(shape, b) >= 0;
      TwosRemain(n, shape, allocs, b);
    }
  }

  lemma UnwrittenStays(m: Ram, us: seq<Write>, vs: seq<Write>, allocs: seq<Allocation>, shape: seq<Write>, b: nat)
    requires AllFit(m, us) && AllFit(m, vs) && SameShape(us, shape) && SameShape(vs, shape)
    requires b < |m| && LastWriter(shape, b) < 0
    ensures RestoreFirst(Apply(m, vs), us, allocs, |us|)[b] == m[b]
  {
    hide Apply, LastWriter, RestoreFirst;
    SameLastWriter(vs, shape, b);
    SameLastWriter(us, shape, b);
    ApplyAt(m, vs, b);
    UncoveredStays(Apply(m, vs), us, allocs, |us|, b);
  }

  lemma {:induction false} UncoveredStays(m: Ram, log: seq<Write>, allocs: seq<Allocation>, n: nat, b: nat)
    requires AllFit(m, log) && n <= |log| && b < |m| && forall k :: 0 <= k < n ==> !Covers(log[k], b)
    ensures RestoreFirst(m, log, allocs, n)[b] == m[b]
  {
    hide Outcome, Load;
    if n == 0 {
    } else {
      UncoveredStays(m, log, allocs, n - 1, b);
    }
  }

  function Ones(n: nat): (m: Ram)
    ensures |m| == n && forall b :: 0 <= b < n ==> m[b] == 1
  {
    seq(n, _ => 1)
  }

  /** Over ones, both phases writing twos: a written byte ends as two, or as zero if it was part
      of a pointer into a block, but never as one. */
  lemma TwosRemain(n: nat, shape: seq<Write>, allocs: seq<Allocation>, b: nat)
    requires AllFit(Zeros(n), shape) && b < n && LastWriter(shape, b) >= 0 && !InRange(allocs, b)
    ensures !RestoresAllValues(n, shape, allocs)
  {
    hide Apply, LastWriter, InRange, RestoreFirst;
    var m, us := Ones(n), Fill(shape, 2);
    SameLastWriter(us, shape, b);
    ApplyAt(m, us, b);
    ZeroOrTwo(Apply(m, us), us, allocs, |us|, b);
    assert !LateRestored(m, us, us, allocs);
  }

  lemma {:induction false} ZeroOrTwo(m: Ram, log: seq<Write>, allocs: seq<Allocation>, n: nat, b: nat)
    requires AllFit(m, log) && n <= |log| && b < |m| && m[b] == 2
    requires forall k, c :: 0 <= k < |log| && 0 <= c < |log[k].value| ==> log[k].value[c] == 2
    ensures RestoreFirst(m, log, allocs, n)[b] != 1
  {
    if n == 0 {
      ReplayNothing(m, log, allocs);
    } else {
      ZeroOrTwo(m, log, allocs, n - 1, b);
      NeverOne(RestoreFirst(m, log, allocs, n - 1), log[n - 1], allocs, b);
    }
  }

  lemma NeverOne(m: Ram, e: Write, allocs: seq<Allocation>, b: nat)
    requires Fits(m, e) && b < |m| && m[b] != 1 && forall c :: 0 <= c < |e.value| ==> e.value[c] == 2
    ensures RestoreEntry(m, e, allocs)[b] != 1
  {
    hide InRange, PointsInto, Store;
    var out := Write(e.addr, Outcome(allocs, e.addr, Load(m, e.addr, |e.value|), e.value));
    StoredByte(m, out, e, b);
  }

  /** Pointer-sized entries are checked for pointers that are about to dangle. */
  method PointsIntoAllocation(talloc: Talloc, bytes: seq<Byte>) returns (r: bool)
    requires talloc.Valid()
    ensures r == PointsInto(talloc.Live(), bytes)
    ensures r ==> |bytes| == |NULL_POINTER|
  {
    if |bytes| != 8 || PointerValue(bytes) == 0 {
      return false;
    }
    r := talloc.AddrInRange(PointerValue(bytes));
    InRangeExactly(talloc.Live(), PointerValue(bytes));
  }

  /** One entry of the log. */
  method RestoreOne(e: Entry, talloc: Talloc, mem: array<Byte>)
    requires AccessSize(e.size) && talloc.Valid() && Fits(mem[..], View(e))
    modifies mem
    ensures mem[..] == RestoreEntry(old(mem[..]), View(e), talloc.Live())
  {
    hide Store, Load, InRange, PointsInto, Offset, Put, Pick, Talloc.Live;
    var inside := talloc.AddrInRange(e.addr);
    var current := mem[e.addr..e.addr + e.size];
    LoadSlice(mem, e.addr, e.size);
    InRangeExactly(talloc.Live(), e.addr);
    if inside {
      StoreSame(mem[..], e.addr, e.size);
    } else {
      var dangling := PointsIntoAllocation(talloc, current);
      StoreBytes(mem, Write(e.addr, if dangling then NULL_POINTER else Pick(e.wvalue, e.addr, e.size)));
    }
  }

  method RestoreFiltered(a: Abuf, talloc: Talloc, mem: array<Byte>)
    requires a.Valid() && talloc.Valid() && AllFit(mem[..], a.Log())
    modifies a, mem
    ensures mem[..] == RestoreFirst(old(mem[..]), old(a.Log()), talloc.Live(), |old(a.buf)|)
    ensures a.Valid() && a.buf == [] && a.poped == 0
  {
    hide RestoreEntry, View, Talloc.Valid, Talloc.Live;
    ghost var start, log, allocs := mem[..], a.Log(), talloc.Live();
    for i := 0 to |a.buf|
      invariant a.Valid() && a.buf == old(a.buf) && talloc.Valid() && talloc.Live() == allocs
      invariant mem[..] == RestoreFirst(start, log, allocs, i)
    {
      assert log[i] == View(a.buf[i]) && Fits(mem[..], log[i]);
      RestoreOne(a.buf[i], talloc, mem);
    }
    a.Clean();
  }

  lemma LoadSlice(mem: array<Byte>, a: nat, n: nat)
    requires a + n <= mem.Length
    ensures mem[a..a + n] == Load(mem[..], a, n)
  {
  }

  /** Skipping a location is storing what is there. */
  lemma StoreSame(m: Ram, a: nat, n: nat)
    requires a + n <= |m|
    ensures Store(m, Write(a, Load(m, a, n))) == m
  {
  }
}
