/** The append-only buffer of src/abuf.c: one entry per write of a phase. */
module AbufModule {
  import opened Memory
  import opened Words
  import opened UndoLog
  import opened Compare

  const MAX_CONFLICTS := 8000

  /** One byte written n times in each of two fault-free phases runs past the table from 8002 times
      on. */
  lemma TableOverruns(n: nat)
    ensures CanOverrun(MAX_CONFLICTS, 1, Rewritten(n)) <==> n >= 8002
  {
    RewrittenOverruns(MAX_CONFLICTS, n);
  }

  datatype Entry = Entry(addr: nat, size: nat, wvalue: Word)

  /** The access an entry stands for. */
  function View(e: Entry): (w: Write)
    requires AccessSize(e.size)
    ensures w.addr == e.addr && |w.value| == e.size
  {
    Write(e.addr, Pick(e.wvalue, e.addr, e.size))
  }

  function Views(es: seq<Entry>): (ws: seq<Write>)
    requires forall e :: e in es ==> AccessSize(e.size)
    ensures |ws| == |es|
    ensures forall i :: 0 <= i < |es| ==> ws[i] == View(es[i])
  {
    seq(|es|, i requires 0 <= i < |es| => View(es[i]))
  }

  /** Writes bytes through to memory. */
  method StoreBytes(mem: array<Byte>, w: Write)
    requires Fits(mem[..], w)
    modifies mem
    ensures mem[..] == Store(old(mem[..]), w)
  {
    forall c | 0 <= c < |w.value| {
      mem[w.addr + c] := w.value[c];
    }
  }

  datatype Popped = Value(bytes: seq<Byte>) | NoEntry | WrongAddress | WrongSize

  /** Outcome of the comparison that aborts: `Overrun` is the store of one conflict too many
      into the fixed table of conflicts. */
  datatype Verdict = Accepted | Rejected | Overrun

  class Abuf {
    var buf: seq<Entry>
    var poped: nat

    ghost predicate Valid()
      reads this
    {
      poped <= |buf| && forall e :: e in buf ==> AccessSize(e.size)
    }

    ghost function Log(): (ws: seq<Write>)
      requires Valid()
      reads this
      ensures |ws| == |buf| && NonEmptyValues(ws)
    {
      Views(buf)
    }

    constructor ()
      ensures Valid() && buf == [] && poped == 0
    {
      buf, poped := [], 0;
    }

    method Clean()
      modifies this
      ensures Valid() && buf == [] && poped == 0
    {
      buf, poped := [], 0;
    }

    method Rewind()
      requires Valid()
      modifies this`poped
      ensures Valid() && poped == 0
    {
      poped := 0;
    }

    method Push(addr: nat, value: seq<Byte>)
      requires Valid() && AccessSize(|value|)
      modifies this`buf
      ensures Valid()
      ensures Log() == old(Log()) + [Write(addr, value)]
    {
      PickPut(ZERO_WORD, addr, value);
      buf := buf + [Entry(addr, |value|, Put(ZERO_WORD, addr, value))];
    }

    /** Replay: the next entry's value, provided it was recorded for this address and size. */
    method Pop(addr: nat, size: nat) returns (r: Popped)
      requires Valid()
      modifies this`poped
      ensures Valid()
      ensures old(poped) == |buf| ==> r == NoEntry && poped == old(poped)
      ensures old(poped) < |buf| ==>
        poped == old(poped) + 1 &&
        var w := Log()[old(poped)];
        r == if w.addr != addr then WrongAddress
             else if |w.value| != size then WrongSize else Value(w.value)
    {
      if poped == |buf| {
        return NoEntry;
      }
      var e := buf[poped];
      poped := poped + 1;
      if e.addr != addr {
        return WrongAddress;
      }
      if e.size != size {
        return WrongSize;
      }
      return Value(Pick(e.wvalue, addr, size));
    }

    /** Exchanges every entry with memory, newest first. */
    method SwapWithMemory(mem: array<Byte>)
      requires Valid() && AllFit(mem[..], Log())
      modifies this`buf, mem
      ensures Valid() && |buf| == old(|buf|)
      ensures mem[..] == Swap(old(mem[..]), old(Log())).0
      ensures Log() == Swap(old(mem[..]), old(Log())).1
    {
      hide Swap, PickIndex, Offset, Store, Put, Pick;
      var i := |buf|;
      ghost var start := Swap(mem[..], Log());
      assert Log()[..i] == Log();
      while i > 0
        invariant 0 <= i <= |buf| == old(|buf|) && Valid()
        invariant AllFit(mem[..], Log())
        invariant Swap(mem[..], Log()[..i]).0 == start.0
        invariant Swap(mem[..], Log()[..i]).1 + Log()[i..] == start.1
      {
        i := i - 1;
        var e := buf[i];
        var value := Pick(e.wvalue, e.addr, e.size);
        var was := mem[e.addr..e.addr + e.size];
        ghost var log := Log();
        assert log[i] == Write(e.addr, value);
        SwapStep(mem[..], log, i, Write(e.addr, was));
        PickPut(e.wvalue, e.addr, was);
        buf := buf[i := Entry(e.addr, e.size, Put(e.wvalue, e.addr, was))];
        assert Log() == log[i := Write(e.addr, was)];
        StoreBytes(mem, Write(e.addr, value));
      }
      SwapNothing(mem[..]);
      assert Log()[..0] == [] && Log()[0..] == Log();
    }

    /** Index of the newest entry for an address, -1 if there is none. */
    method NewestEntry(addr: nat) returns (j: int)
      requires Valid()
      ensures -1 <= j < |buf|
      ensures j >= 0 ==> Log()[j].addr == addr
      ensures forall i :: j < i < |buf| ==> Log()[i].addr != addr
    {
      j := |buf| - 1;
      while j >= 0 && buf[j].addr != addr
        invariant -1 <= j < |buf|
        invariant forall i :: j < i < |buf| ==> buf[i].addr != addr
      {
        j := j - 1;
      }
    }

    method HasOtherEntry(k: nat) returns (found: bool)
      requires Valid() && k < |buf|
      ensures found == Excused(AnyEntry, Log(), k)
    {
      var j := |buf| - 1;
      while j >= 0 && (buf[j].addr != buf[k].addr || j == k)
        invariant -1 <= j < |buf|
        invariant forall i :: j < i < |buf| && i != k ==> buf[i].addr != buf[k].addr
      {
        j := j - 1;
      }
      assert j >= 0 ==> Log()[j].addr == Log()[k].addr;
      assert forall i :: 0 <= i < |buf| ==> Log()[i].addr == buf[i].addr;
      found := j >= 0;
    }

    /** Does memory hold something else than entry k? */
    method EntryConflicts(mem: array<Byte>, k: nat) returns (c: bool)
      requires Valid() && AllFit(mem[..], Log()) && k < |buf|
      ensures c == Conflicting(Log(), mem[..], k)
    {
      var e := buf[k];
      assert Log()[k] == View(e) && Fits(mem[..], Log()[k]);
      c := mem[e.addr..e.addr + e.size] != Pick(e.wvalue, e.addr, e.size);
      assert mem[..][e.addr..e.addr + e.size] == mem[e.addr..e.addr + e.size];
    }

    /** Is every listed conflict older than the newest entry for its address? */
    method AllSuperseded(conflicts: seq<nat>) returns (ok: bool)
      requires Valid() && forall x :: 0 <= x < |conflicts| ==> conflicts[x] < |buf|
      ensures ok <==> forall x :: 0 <= x < |conflicts| ==> Excused(LaterEntry, Log(), conflicts[x])
    {
      hide View, Views;
      for i := 0 to |conflicts|
        invariant forall x :: 0 <= x < i ==> Excused(LaterEntry, Log(), conflicts[x])
      {
        var ce := conflicts[i];
        assert Log()[ce].addr == buf[ce].addr;
        var j := NewestEntry(buf[ce].addr);
        if j == ce {
          return false;
        }
      }
      return true;
    }

    /** Does every listed conflict share its address with another entry? */
    method AllDuplicated(conflicts: seq<nat>) returns (ok: bool)
      requires Valid() && forall x :: 0 <= x < |conflicts| ==> conflicts[x] < |buf|
      ensures ok <==> forall x :: 0 <= x < |conflicts| ==> Excused(AnyEntry, Log(), conflicts[x])
    {
      hide View, Views, Excused;
      for i := 0 to |conflicts|
        invariant forall x :: 0 <= x < i ==> Excused(AnyEntry, Log(), conflicts[x])
      {
        var found := HasOtherEntry(conflicts[i]);
        if !found {
          return false;
        }
      }
      return true;
    }

    /** The two-phase comparison that aborts; it consumes both buffers. */
    method CmpHeap(other: Abuf, mem: array<Byte>) returns (v: Verdict)
      requires Valid() && other.Valid() && other != this
      requires AllFit(mem[..], Log())
      modifies this`poped, other`poped
      ensures Valid() && other.Valid()
      ensures v.Accepted? <==>
        old(poped) == 0 && old(other.poped) == 0 && SameShape(Log(), other.Log()) &&
        Accepts(LaterEntry, MAX_CONFLICTS, Log(), mem[..])
      ensures v.Overrun? <==>
        old(poped) == 0 && old(other.poped) == 0 &&
        exists k :: OverrunAt(MAX_CONFLICTS, Log(), other.Log(), mem[..], k)
      ensures v.Accepted? ==> poped == |buf| && other.poped == |other.buf|
    {
      hide Conflicting, Excused, View, Views, Accepts, SameShape;
      ghost var us, vs, m := Log(), other.Log(), mem[..];
      ShapeStart(us, vs);
      if |buf| != |other.buf| || poped != other.poped || poped != 0 {
        return Rejected;
      }
      var conflicts: seq<nat> := [];
      while poped < |buf|
        invariant Valid() && other.Valid() && poped == other.poped <= |buf|
        invariant SameShape(us[..poped], vs[..poped])
        invariant conflicts == ConflictList(us, m, poped) && |conflicts| <= MAX_CONFLICTS
      {
        var k := poped;
        poped, other.poped := poped + 1, other.poped + 1;
        assert us[k].addr == buf[k].addr && |us[k].value| == buf[k].size;
        assert vs[k].addr == other.buf[k].addr && |vs[k].value| == other.buf[k].size;
        ShapeStep(us, vs, k);
        if buf[k].size != other.buf[k].size || buf[k].addr != other.buf[k].addr {
          NoOverrun(MAX_CONFLICTS, us, vs, m, k);
          return Rejected;
        }
        var conflict := EntryConflicts(mem, k);
        if conflict {
          if |conflicts| == MAX_CONFLICTS {
            assert OverrunAt(MAX_CONFLICTS, us, vs, m, k + 1);
            TooManyConflicts(LaterEntry, MAX_CONFLICTS, us, m, k + 1);
            return Overrun;
          }
          conflicts := conflicts + [k];
        }
      }
      assert us[..poped] == us && vs[..poped] == vs;
      NoOverrun(MAX_CONFLICTS, us, vs, m, poped);
      AcceptsByList(LaterEntry, MAX_CONFLICTS, us, m);
      var ok := AllSuperseded(conflicts);
      return if ok then Accepted else Rejected;
    }

    /** The two-phase comparison that reports; the pop counters come back as they were. */
    method TryCmpHeap(other: Abuf, mem: array<Byte>) returns (r: bool)
      requires Valid() && other.Valid() && other != this
      requires AllFit(mem[..], Log())
      modifies this`poped, other`poped
      ensures Valid() && other.Valid()
      ensures poped == old(poped) && other.poped == old(other.poped)
      ensures r <==> poped == 0 && other.poped == 0 && SameShape(Log(), other.Log()) &&
                     Accepts(AnyEntry, MAX_CONFLICTS, Log(), mem[..])
    {
      hide Conflicting, Excused, View, Views, Accepts, SameShape;
      var saved1, saved2 := poped, other.poped;
      ghost var us, vs, m := Log(), other.Log(), mem[..];
      ShapeStart(us, vs);
      if |buf| != |other.buf| || poped != other.poped || poped != 0 {
        return false;
      }
      var conflicts: seq<nat> := [];
      while poped < |buf|
        invariant Valid() && other.Valid() && poped == other.poped <= |buf|
        invariant SameShape(us[..poped], vs[..poped])
        invariant conflicts == ConflictList(us, m, poped) && |conflicts| <= MAX_CONFLICTS
      {
        var k := poped;
        poped, other.poped := poped + 1, other.poped + 1;
        assert us[k].addr == buf[k].addr && |us[k].value| == buf[k].size;
        assert vs[k].addr == other.buf[k].addr && |vs[k].value| == other.buf[k].size;
        ShapeStep(us, vs, k);
        if buf[k].size != other.buf[k].size || buf[k].addr != other.buf[k].addr {
          poped, other.poped := saved1, saved2;
          return false;
        }
        var conflict := EntryConflicts(mem, k);
        if conflict {
          if |conflicts| >= MAX_CONFLICTS {
            TooManyConflicts(AnyEntry, MAX_CONFLICTS, us, m, k + 1);
            poped, other.poped := saved1, saved2;
            return false;
          }
          conflicts := conflicts + [k];
        }
      }
      assert us[..poped] == us && vs[..poped] == vs;
      AcceptsByList(AnyEntry, MAX_CONFLICTS, us, m);
      r := AllDuplicated(conflicts);
      poped, other.poped := saved1, saved2;
    }
  }

  ghost predicate AllValid(bufs: seq<Abuf>)
    reads bufs
  {
    forall p :: 0 <= p < |bufs| ==> bufs[p].Valid()
  }

  ghost predicate AllRewound(bufs: seq<Abuf>)
    reads bufs
  {
    forall p :: 0 <= p < |bufs| ==> bufs[p].poped == 0
  }

  /** The first k entries agree in address and size. */
  ghost predicate AlikeBelow(a: Abuf, b: Abuf, k: nat)
    reads a, b
  {
    k <= |a.buf| && k <= |b.buf| &&
    forall j :: 0 <= j < k ==> a.buf[j].addr == b.buf[j].addr && a.buf[j].size == b.buf[j].size
  }

  lemma NothingLogged(a: Abuf, b: Abuf)
    ensures AlikeBelow(a, b, 0)
  {
  }

  lemma AlikeIsSameShape(a: Abuf, b: Abuf)
    requires a.Valid() && b.Valid()
    ensures SameShape(a.Log(), b.Log()) <==> |a.buf| == |b.buf| && AlikeBelow(a, b, |a.buf|)
  {
    var us, vs := a.Log(), b.Log();
    assert forall j :: 0 <= j < |us| ==> us[j].addr == a.buf[j].addr && |us[j].value| == a.buf[j].size;
    assert forall j :: 0 <= j < |vs| ==> vs[j].addr == b.buf[j].addr && |vs[j].value| == b.buf[j].size;
  }

  /** All phases logged the same addresses and sizes. */
  ghost predicate PhasesAlike(bufs: seq<Abuf>)
    requires |bufs| > 0 && AllValid(bufs)
    reads bufs
  {
    forall p :: 0 <= p < |bufs| ==> SameShape(bufs[0].Log(), bufs[p].Log())
  }

  ghost predicate SameLengths(bufs: seq<Abuf>)
    requires |bufs| > 0
    reads bufs
  {
    forall p :: 0 <= p < |bufs| ==> |bufs[p].buf| == |bufs[0].buf|
  }

  lemma PhasesAlikeEntrywise(bufs: seq<Abuf>)
    requires |bufs| > 0 && AllValid(bufs)
    ensures PhasesAlike(bufs) <==>
            SameLengths(bufs) && forall p :: 0 <= p < |bufs| ==> AlikeBelow(bufs[0], bufs[p], |bufs[0].buf|)
  {
    hide AlikeBelow, SameShape;
    forall p | 0 <= p < |bufs|
      ensures SameShape(bufs[0].Log(), bufs[p].Log()) <==>
              |bufs[p].buf| == |bufs[0].buf| && AlikeBelow(bufs[0], bufs[p], |bufs[0].buf|)
    {
      AlikeIsSameShape(bufs[0], bufs[p]);
    }
  }

  method EntryAgrees(bufs: seq<Abuf>, k: nat) returns (ok: bool)
    requires |bufs| > 0 && AllValid(bufs) && SameLengths(bufs) && k < |bufs[0].buf|
    requires forall p :: 0 <= p < |bufs| ==> AlikeBelow(bufs[0], bufs[p], k)
    ensures ok ==> forall p :: 0 <= p < |bufs| ==> AlikeBelow(bufs[0], bufs[p], k + 1)
    ensures !ok ==> exists p :: 0 <= p < |bufs| && !AlikeBelow(bufs[0], bufs[p], |bufs[0].buf|)
  {
    for i := 1 to |bufs|
      invariant forall p :: 0 <= p < i ==> AlikeBelow(bufs[0], bufs[p], k + 1)
    {
      if bufs[i].buf[k].size != bufs[0].buf[k].size || bufs[i].buf[k].addr != bufs[0].buf[k].addr {
        assert !AlikeBelow(bufs[0], bufs[i], |bufs[0].buf|);
        return false;
      }
    }
    return true;
  }

  /** Lengths and pop counters of all phases against the first; nothing may be popped. */
  method ReadyToCompare(bufs: seq<Abuf>) returns (ok: bool)
    requires |bufs| > 0
    ensures ok <==> AllRewound(bufs) && SameLengths(bufs)
  {
    for i := 1 to |bufs|
      invariant forall p :: 0 <= p < i ==>
        |bufs[p].buf| == |bufs[0].buf| && bufs[p].poped == bufs[0].poped
    {
      if |bufs[i].buf| != |bufs[0].buf| || bufs[i].poped != bufs[0].poped {
        return false;
      }
    }
    return bufs[0].poped == 0;
  }

  /** The entry-by-entry scan of both n-phase comparisons: addresses and sizes of all phases
      are compared, but only the first phase's values, against memory. */
  method ScanNway(bufs: seq<Abuf>, mem: array<Byte>) returns (ok: bool, conflicts: seq<nat>)
    requires |bufs| >= 2 && AllValid(bufs)
    requires AllFit(mem[..], bufs[0].Log())
    ensures ok <==> AllRewound(bufs) && PhasesAlike(bufs) &&
                    |ConflictList(bufs[0].Log(), mem[..], |bufs[0].buf|)| <= MAX_CONFLICTS
    ensures ok ==> conflicts == ConflictList(bufs[0].Log(), mem[..], |bufs[0].buf|)
  {
    hide Conflicting, View, Views, PhasesAlike, AlikeBelow;
    PhasesAlikeEntrywise(bufs);
    conflicts := [];
    var ready := ReadyToCompare(bufs);
    if !ready {
      return false, conflicts;
    }
    ghost var us, m := bufs[0].Log(), mem[..];
    assert forall p :: 0 <= p < |bufs| ==> AlikeBelow(bufs[0], bufs[p], 0) by {
      forall p | 0 <= p < |bufs| ensures AlikeBelow(bufs[0], bufs[p], 0) { NothingLogged(bufs[0], bufs[p]); }
    }
    var k := 0;
    while k < |bufs[0].buf|
      invariant 0 <= k <= |bufs[0].buf|
      invariant forall p :: 0 <= p < |bufs| ==> AlikeBelow(bufs[0], bufs[p], k)
      invariant conflicts == ConflictList(us, m, k) && |conflicts| <= MAX_CONFLICTS
    {
      var agree := EntryAgrees(bufs, k);
      if !agree {
        return false, conflicts;
      }
      var conflict := bufs[0].EntryConflicts(mem, k);
      if conflict {
        if |conflicts| >= MAX_CONFLICTS {
          ConflictListGrows(us, m, k + 1, |us|);
          return false, conflicts;
        }
        conflicts := conflicts + [k];
      }
      k := k + 1;
    }
    ok := true;
  }

  /** The n-phase comparison that reports; no pop counter changes. */
  method TryCmpHeapNway(bufs: seq<Abuf>, mem: array<Byte>) returns (r: bool)
    requires |bufs| >= 2 && AllValid(bufs)
    requires AllFit(mem[..], bufs[0].Log())
    ensures r <==> AllRewound(bufs) && PhasesAlike(bufs) &&
                   Accepts(AnyEntry, MAX_CONFLICTS, bufs[0].Log(), mem[..])
  {
    hide Accepts, Excused, ConflictList, PhasesAlike, View, Views;
    var ok, conflicts := ScanNway(bufs, mem);
    AcceptsByList(AnyEntry, MAX_CONFLICTS, bufs[0].Log(), mem[..]);
    if !ok {
      return false;
    }
    r := bufs[0].AllDuplicated(conflicts);
  }

  /** The n-phase comparison that aborts: the same verdict, and every phase is consumed. */
  method CmpHeapNway(bufs: seq<Abuf>, mem: array<Byte>) returns (r: bool)
    requires |bufs| >= 3 && AllValid(bufs)
    requires AllFit(mem[..], bufs[0].Log())
    modifies bufs
    ensures AllValid(bufs)
    ensures forall p :: 0 <= p < |bufs| ==> bufs[p].buf == old(bufs[p].buf)
    ensures r <==> old(AllRewound(bufs) && PhasesAlike(bufs) &&
                       Accepts(AnyEntry, MAX_CONFLICTS, bufs[0].Log(), mem[..]))
    ensures r ==> forall p :: 0 <= p < |bufs| ==> bufs[p].poped == |bufs[p].buf|
  {
    hide Accepts, Excused, ConflictList, PhasesAlike, View, Views, AlikeBelow;
    PhasesAlikeEntrywise(bufs);
    var ok, conflicts := ScanNway(bufs, mem);
    AcceptsByList(AnyEntry, MAX_CONFLICTS, bufs[0].Log(), mem[..]);
    if !ok {
      return false;
    }
    for i := 0 to |bufs|
      invariant forall p :: 0 <= p < |bufs| ==> bufs[p].buf == old(bufs[p].buf)
      invariant AllValid(bufs) && SameLengths(bufs)
      invariant forall p :: 0 <= p < i ==> bufs[p].poped == |bufs[0].buf|
    {
      bufs[i].poped := |bufs[0].buf|;
    }
    r := bufs[0].AllDuplicated(conflicts);
  }
}
