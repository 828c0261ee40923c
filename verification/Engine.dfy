/** The transaction engine of src/mode_cow.c: begin, write through with the old value logged,
    switch to the next phase, verify, then commit or roll back. */
module Engine {
  import opened Octets
  import opened Memory
  import opened Words
  import opened UndoLog
  import opened Compare
  import opened AbufModule
  import opened Deferred
  import opened Rollback
  import opened CrcApi
  import opened ObufModule

  /** The input message: a range of memory, the checksum it came with and, for messages the
      handler may change, the checksum after the last phase that was switched away from. */
  datatype Ibuf = NoInput | Input(addr: nat, size: nat, crc: bv32, tcrc: bv32, readOnly: bool)

  function Checksum(bytes: seq<Byte>): bv32 {
    Compute(seq(|bytes|, i requires 0 <= i < |bytes| => Octet(bytes[i])))
  }

  predicate InputFits(ibuf: Ibuf, m: Ram) {
    ibuf.Input? ==> ibuf.addr + ibuf.size <= |m|
  }

  /** The check on entry: the message has the checksum it came with. */
  predicate CorrectOnEntry(ibuf: Ibuf, m: Ram)
    requires InputFits(ibuf, m)
  {
    ibuf.Input? ==> Checksum(Load(m, ibuf.addr, ibuf.size)) == ibuf.crc
  }

  /** The message still has the checksum it should have. */
  predicate InputCorrect(ibuf: Ibuf, m: Ram)
    requires InputFits(ibuf, m)
  {
    ibuf.Input? ==>
      Checksum(Load(m, ibuf.addr, ibuf.size)) == if ibuf.readOnly then ibuf.crc else ibuf.tcrc
  }

  function InputSwitched(ibuf: Ibuf, m: Ram): (r: Ibuf)
    requires InputFits(ibuf, m)
    ensures InputFits(r, m)
  {
    if ibuf.Input? && !ibuf.readOnly
    then ibuf.(tcrc := Checksum(Load(m, ibuf.addr, ibuf.size)))
    else ibuf
  }

  /** A message the handler must not change still has the checksum it came with. */
  predicate InputKept(ibuf: Ibuf, m: Ram)
    requires InputFits(ibuf, m)
  {
    ibuf.Input? && ibuf.readOnly ==> Checksum(Load(m, ibuf.addr, ibuf.size)) == ibuf.crc
  }

  /** Over a run of phases only the last switch counts, and a message that is the same in the
      last two phases passes unless it was not to be changed and was. */
  lemma InputAfterSwitches(ibuf: Ibuf, m: Ram, m': Ram)
    requires InputFits(ibuf, m) && |m'| == |m|
    ensures InputSwitched(InputSwitched(ibuf, m), m') == InputSwitched(ibuf, m')
    ensures InputCorrect(InputSwitched(ibuf, m), m) <==> InputKept(ibuf, m)
  {
    hide Checksum;
  }

  /** A commit makes the deferred calls and frees, or the process stops, some of them already
      done. */
  datatype Ending = Committed(calls: seq<Call>, frees: seq<nat>) | Stopped(calls: seq<Call>, frees: seq<nat>)

  const NOTHING_DONE := Stopped([], [])

  class Sei {
    const level: nat
    const mem: array<Byte>
    const cow: seq<Abuf>
    const talloc: Talloc
    const tbin: Tbin
    const wts: Wts
    const obuf: Obuf
    var p: int
    var ibuf: Ibuf
    var cf: seq<Cfc>

    ghost predicate Linked() {
      level >= 2 && |cow| == level &&
      (forall i, j :: 0 <= i < j < level ==> cow[i] != cow[j]) &&
      talloc.level == level && tbin.level == level && wts.level == level && obuf.level == level
    }

    ghost predicate Valid()
      reads this, cow, talloc, tbin, wts, obuf
    {
      Linked() && -1 <= p < level && |cf| == level && AllValid(cow) &&
      talloc.Valid() && tbin.Valid() && wts.Valid() && obuf.Valid()
    }

    constructor (level: nat, mem: array<Byte>, cow: seq<Abuf>, talloc: Talloc, tbin: Tbin, wts: Wts, obuf: Obuf)
      requires level >= 2 && |cow| == level && forall i, j :: 0 <= i < j < level ==> cow[i] != cow[j]
      requires talloc.level == level && tbin.level == level && wts.level == level && obuf.level == level
      requires AllValid(cow) && talloc.Valid() && tbin.Valid() && wts.Valid() && obuf.Valid()
      ensures Valid() && p == -1 && ibuf == NoInput
      ensures this.mem == mem && this.cow == cow && this.talloc == talloc && this.tbin == tbin
      ensures this.wts == wts && this.obuf == obuf && this.level == level
    {
      this.level, this.mem, this.cow := level, mem, cow;
      this.talloc, this.tbin, this.wts, this.obuf := talloc, tbin, wts, obuf;
      p, ibuf, cf := -1, NoInput, seq(level, _ => CFC_RESET);
    }

    /** Write-through with the old value logged. */
    method WriteThrough(w: Write)
      requires Linked() && 0 <= p < level && AllValid(cow) && Fits(mem[..], w) && AccessSize(|w.value|)
      modifies cow[p], mem
      ensures AllValid(cow)
      ensures cow[p].Log() == old(cow[p].Log()) + [Write(w.addr, Load(old(mem[..]), w.addr, |w.value|))]
      ensures forall q :: 0 <= q < level && q != p ==> cow[q].Log() == old(cow[q].Log())
      ensures forall q :: 0 <= q < level ==> cow[q].poped == old(cow[q].poped)
      ensures mem[..] == Store(old(mem[..]), w)
    {
      cow[p].Push(w.addr, mem[w.addr..w.addr + |w.value|]);
      StoreBytes(mem, w);
    }

    /** Nothing logged, nothing recorded. */
    ghost predicate Emptied()
      requires Linked()
      reads cow, talloc, tbin, wts
    {
      |talloc.size| == level && |tbin.queue| == level && |wts.queue| == level && talloc.p == 0 &&
      (forall q :: 0 <= q < level ==> cow[q].buf == [] && cow[q].poped == 0) &&
      (forall q :: 0 <= q < level ==> talloc.size[q] == 0 && tbin.queue[q] == [] && wts.queue[q] == [])
    }

    /** Every phase has these messages waiting and none begun. */
    ghost predicate Waiting(waiting: seq<Bytes>)
      reads obuf`done, obuf`part
    {
      |obuf.done| == level && |obuf.part| == level &&
      forall q :: 0 <= q < level ==> obuf.done[q] == waiting && obuf.part[q] == []
    }

    /** No transaction under way. */
    ghost predicate Idle(waiting: seq<Bytes>)
      reads this, cow, talloc, tbin, wts, obuf
    {
      Valid() && p == -1 && Emptied() && obuf.p == 0 && Waiting(waiting)
    }

    /** At the start of a transaction. */
    ghost predicate Begun(waiting: seq<Bytes>)
      reads this, cow, talloc, tbin, wts, obuf
    {
      Valid() && p == 0 && Emptied() && obuf.p == 0 && Waiting(waiting) && cf == seq(level, _ => CFC_RESET)
    }

    /** A new input message, or none; a message with the wrong checksum is refused. */
    method Prepare(input: Ibuf, ghost waiting: seq<Bytes>) returns (ok: bool)
      requires Idle(waiting) && InputFits(input, mem[..])
      modifies this`ibuf
      ensures Idle(waiting) && ibuf == input
      ensures ok <==> CorrectOnEntry(input, mem[..])
    {
      hide Emptied, Waiting, Checksum;
      ibuf := input;
      ok := input.NoInput? || Checksum(Load(mem[..], input.addr, input.size)) == input.crc;
    }

    method Begin(ghost waiting: seq<Bytes>)
      requires Idle(waiting)
      modifies this`p, this`cf
      ensures Begun(waiting)
    {
      hide Emptied, Waiting;
      p := 0;
      cf := seq(level, _ => CFC_RESET);
    }

    /** To the next phase: recordings move on, memory and the log of this phase change places. */
    method Switch() returns (ok: bool)
      requires Valid() && 0 <= p < level - 1 && talloc.p == p
      requires AllFit(mem[..], cow[p].Log()) && InputFits(ibuf, mem[..])
      modifies this`p, this`ibuf, talloc`p, obuf`p, cow, mem
      ensures Valid()
      ensures ok <==> talloc.size[old(p) + 1] == 0
      ensures ok ==> p == old(p) + 1 && talloc.p == p && obuf.p == (old(obuf.p) + 1) % level
      ensures ok ==> ibuf == InputSwitched(old(ibuf), old(mem[..]))
      ensures ok ==> mem[..] == Swap(old(mem[..]), old(cow[p].Log())).0
      ensures ok ==> cow[old(p)].Log() == Swap(old(mem[..]), old(cow[p].Log())).1
      ensures forall q :: 0 <= q < level && q != old(p) ==> cow[q].Log() == old(cow[q].Log())
      ensures forall q :: 0 <= q < level ==> cow[q].poped == old(cow[q].poped)
    {
      hide Swap, Views, Checksum, AllFit, Holds, InputSwitched;
      ok := talloc.Switch();
      if !ok {
        return;
      }
      p := p + 1;
      obuf.Close();
      ibuf := InputSwitched(ibuf, mem[..]);
      cow[p - 1].SwapWithMemory(mem);
    }

    // ------------------------------------------------- verify and commit

    /** Passes every phase's at-least-once and at-most-once gates. */
    method PassGates() returns (ok: bool)
      requires |cf| == level
      modifies this`cf
      ensures |cf| == level
      ensures ok <==> forall q :: 0 <= q < level ==> AmogOpen(old(cf)[q])
      ensures ok ==> forall q :: 0 <= q < level ==> cf[q] == Amog(Alog(old(cf)[q]))
    {
      for i := 0 to level
        invariant |cf| == level
        invariant forall q :: 0 <= q < i ==> AmogOpen(old(cf)[q]) && cf[q] == Amog(Alog(old(cf)[q]))
        invariant forall q :: i <= q < level ==> cf[q] == old(cf)[q]
      {
        var c := Alog(cf[i]);
        cf := cf[i := Amog(c)];
        if !AmogOpen(c) {
          return false;
        }
      }
      return true;
    }

    /** The checks a commit depends on, for whatever the phases did. */
    ghost predicate RecordingsAgree()
      reads tbin`queue, wts`queue
    {
      Agree(wts.queue) && Agree(tbin.queue) && tbin.queue != [] && 0 !in tbin.queue[0]
    }

    method RewindAll()
      requires Valid()
      modifies cow
      ensures AllValid(cow) && AllRewound(cow) && cow[0].Log() == old(cow[0].Log())
      ensures PhasesAlike(cow) <==> old(PhasesAlike(cow))
      ensures forall q :: 0 <= q < level ==> cow[q].buf == old(cow[q].buf)
    {
      for i := 0 to level
        invariant AllValid(cow)
        invariant forall q :: 0 <= q < level ==> cow[q].buf == old(cow[q].buf)
        invariant forall q :: 0 <= q < i ==> cow[q].poped == 0
      {
        cow[i].Rewind();
      }
    }

    /** Log comparison of the reporting build. */
    method TryCompare() returns (r: bool)
      requires Valid() && AllRewound(cow) && AllFit(mem[..], cow[0].Log())
      modifies cow
      ensures AllValid(cow) && AllRewound(cow)
      ensures forall q :: 0 <= q < level ==> cow[q].buf == old(cow[q].buf)
      ensures r <==> old(PhasesAlike(cow)) && Accepts(AnyEntry, MAX_CONFLICTS, old(cow[0].Log()), mem[..])
    {
      hide Accepts, Views, SameShape;
      if level == 2 {
        r := cow[0].TryCmpHeap(cow[1], mem);
        assert SameShape(cow[0].Log(), cow[0].Log()) by { ShapeReflexive(cow[0].Log()); }
      } else {
        r := TryCmpHeapNway(cow, mem);
      }
    }

    /** Log comparison of the aborting build. */
    method Compare() returns (r: bool)
      requires Valid() && AllRewound(cow) && AllFit(mem[..], cow[0].Log())
      modifies cow
      ensures AllValid(cow)
      ensures forall q :: 0 <= q < level ==> cow[q].buf == old(cow[q].buf)
      ensures r <==>
        old(PhasesAlike(cow)) &&
        Accepts(if level == 2 then LaterEntry else AnyEntry, MAX_CONFLICTS, old(cow[0].Log()), mem[..])
    {
      hide Accepts, Views, SameShape;
      if level == 2 {
        assert SameShape(cow[0].Log(), cow[0].Log()) by { ShapeReflexive(cow[0].Log()); }
        var v := cow[0].CmpHeap(cow[1], mem);
        r := v == Accepted;
      } else {
        r := CmpHeapNway(cow, mem);
      }
    }

    /** Verification without side effects on what was recorded. */
    method TryCommit() returns (r: bool)
      requires Valid() && p == level - 1 && AllFit(mem[..], cow[0].Log()) && InputFits(ibuf, mem[..])
      modifies cow, this`cf
      ensures Valid() && AllRewound(cow)
      ensures forall q :: 0 <= q < level ==> cow[q].buf == old(cow[q].buf) && cow[q].Log() == old(cow[q].Log())
      ensures r <==>
        old(PhasesAlike(cow)) && Accepts(AnyEntry, MAX_CONFLICTS, old(cow[0].Log()), mem[..]) &&
        (forall q :: 0 <= q < level ==> AmogOpen(old(cf)[q])) && InputCorrect(ibuf, mem[..]) && RecordingsAgree()
      ensures r ==> forall q :: 0 <= q < level ==> Check(cf[q])
    {
      hide Accepts, Views, PhasesAlike, Checksum, Holds;
      RewindAll();
      r := TryCompare();
      if !r {
        return;
      }
      r := PassGates();
      if !r {
        return;
      }
      if !InputCorrect(ibuf, mem[..]) {
        return false;
      }
      r := wts.CanFlush();
      if !r {
        return;
      }
      r := tbin.CanFlush();
    }

    method CleanAll()
      requires Valid()
      modifies cow
      ensures AllValid(cow)
      ensures forall q :: 0 <= q < level ==> cow[q].buf == [] && cow[q].poped == 0
    {
      for i := 0 to level
        invariant AllValid(cow)
        invariant forall q :: 0 <= q < i ==> cow[q].buf == [] && cow[q].poped == 0
      {
        cow[i].Clean();
      }
    }

    /** Does what was deferred: the calls if the phases agree on them, then the frees up to the
        first they disagree on. */
    method FlushRecordings() returns (r: Ending)
      requires Valid()
      modifies wts, tbin, talloc`p, talloc`size
      ensures talloc.Valid() && tbin.Valid() && wts.Valid()
      ensures r.Committed? <==>
        old(RecordingsAgree()) && old(talloc.p) == level - 1 &&
        forall q :: 0 <= q < level ==> old(talloc.size)[q] == old(talloc.size)[0]
      ensures r.calls == (if Agree(old(wts.queue)) then old(wts.queue)[0] else [])
      ensures r.frees == (if Agree(old(wts.queue)) then FreesDone(old(tbin.queue)) else [])
      ensures r.Committed? ==>
        r.frees == old(tbin.queue)[0] && talloc.p == 0 &&
        forall q :: 0 <= q < level ==> talloc.size[q] == 0 && tbin.queue[q] == [] && wts.queue[q] == []
    {
      hide AllValid, Obuf.Valid, FreesDone;
      var ok, calls := wts.Flush();
      if !ok {
        return NOTHING_DONE;
      }
      var frees;
      ok, frees := tbin.Flush();
      if !ok {
        return Stopped(calls, frees);
      }
      ok := talloc.Clean();
      return if ok then Committed(calls, frees) else Stopped(calls, frees);
    }

    /** The part both builds share: forget the logs, do what was deferred, start over.  Gates and
        input are looked at when calls and frees are done. */
    method Flush() returns (r: Ending)
      requires Valid() && InputFits(ibuf, mem[..])
      modifies this`p, cow, wts, tbin, talloc`p, talloc`size, obuf`p
      ensures Valid() && p == -1
      ensures r.Committed? <==>
        old(RecordingsAgree()) && old(talloc.p) == level - 1 &&
        (forall q :: 0 <= q < level ==> old(talloc.size)[q] == old(talloc.size)[0]) &&
        (forall q :: 0 <= q < level ==> Check(cf[q])) && InputCorrect(ibuf, mem[..])
      ensures r.calls == (if Agree(old(wts.queue)) then old(wts.queue)[0] else [])
      ensures r.frees == (if Agree(old(wts.queue)) then FreesDone(old(tbin.queue)) else [])
      ensures r.Committed? ==>
        r.frees == old(tbin.queue)[0] && Emptied() && obuf.p == (old(obuf.p) + 1) % level
    {
      hide Views, Checksum, Holds, InputCorrect, Agree, FreesDone;
      p := -1;
      CleanAll();
      r := FlushRecordings();
      if r.Stopped? {
        return;
      }
      obuf.Close();
      var ok := GatesUsed();
      if !ok || !InputCorrect(ibuf, mem[..]) {
        return Stopped(r.calls, r.frees);
      }
    }

    method GatesUsed() returns (ok: bool)
      requires |cf| == level
      ensures ok <==> forall q :: 0 <= q < level ==> Check(cf[q])
    {
      for i := 0 to level
        invariant forall q :: 0 <= q < i ==> Check(cf[q])
      {
        if !Check(cf[i]) {
          return false;
        }
      }
      return true;
    }

    ghost function Rule(isolated: bool): Compare.Rule {
      if level == 2 && !isolated then LaterEntry else AnyEntry
    }

    /** Logs and memory agree, and no gate has been passed before. */
    ghost predicate LogsAccepted(isolated: bool)
      requires Valid() && AllFit(mem[..], cow[0].Log())
      reads this, cow, mem, talloc, tbin, wts, obuf
    {
      PhasesAlike(cow) && Accepts(Rule(isolated), MAX_CONFLICTS, cow[0].Log(), mem[..]) &&
      forall q :: 0 <= q < level ==> AmogOpen(cf[q])
    }

    /** The commit gets as far as making calls. */
    ghost predicate CommitFlushes(isolated: bool)
      requires Valid() && AllFit(mem[..], cow[0].Log()) && InputFits(ibuf, mem[..])
      reads this, cow, mem, talloc, tbin, wts, obuf
    {
      LogsAccepted(isolated) && Agree(wts.queue) && (isolated ==> InputCorrect(ibuf, mem[..]) && RecordingsAgree())
    }

    ghost predicate CommitPasses(isolated: bool)
      requires Valid() && AllFit(mem[..], cow[0].Log()) && InputFits(ibuf, mem[..])
      reads this, cow, mem, talloc, tbin, wts, obuf
    {
      LogsAccepted(isolated) && InputCorrect(ibuf, mem[..]) && RecordingsAgree() && talloc.p == level - 1 &&
      forall q :: 0 <= q < level ==> talloc.size[q] == talloc.size[0]
    }

    /** Verify, then commit.  `isolated` tells the build that can retry from the one that
        stops at the first mismatch; they differ in the comparison rule for two phases and in
        what they check before calls and frees are done. */
    method Commit(isolated: bool) returns (r: Ending)
      requires Valid() && p == level - 1 && AllRewound(cow)
      requires AllFit(mem[..], cow[0].Log()) && InputFits(ibuf, mem[..])
      modifies this`p, this`cf, cow, wts, tbin, talloc`p, talloc`size, obuf`p
      ensures Valid()
      ensures r.Committed? <==> old(CommitPasses(isolated))
      ensures r.calls == (if old(CommitFlushes(isolated)) then old(wts.queue)[0] else [])
      ensures r.frees == (if old(CommitFlushes(isolated)) then FreesDone(old(tbin.queue)) else [])
      ensures r.Committed? ==>
        r.frees == old(tbin.queue)[0] && p == -1 && Emptied() && obuf.p == (old(obuf.p) + 1) % level
    {
      hide Emptied, Accepts, Views, PhasesAlike, Checksum, Holds, InputCorrect, AllFit, FreesDone;
      if isolated {
        var ok := TryCommit();
        if !ok {
          return NOTHING_DONE;
        }
      } else {
        var ok := PassGates();
        if !ok {
          return NOTHING_DONE;
        }
        ok := Compare();
        if !ok {
          return NOTHING_DONE;
        }
      }
      r := Flush();
    }

    // ----------------------------------------------------------- roll back

    /** Memory back from the log of the first phase, and no logs. */
    method RestoreMemory()
      requires Valid() && AllFit(mem[..], cow[0].Log())
      modifies cow, mem
      ensures AllValid(cow) && forall q :: 0 <= q < level ==> cow[q].buf == [] && cow[q].poped == 0
      ensures mem[..] == RestoreFirst(old(mem[..]), old(cow[0].Log()), talloc.Live(), |old(cow[0].buf)|)
    {
      hide RestoreFirst, Views, AllFit, Abuf.Log, Talloc.Live, Tbin.Valid, Wts.Valid, Obuf.Valid, Talloc.Valid;
      RestoreFiltered(cow[0], talloc, mem);
      CleanAll();
    }

    /** Frees what was allocated and forgets what was recorded. */
    method ForgetRecordings() returns (freed: seq<nat>)
      requires Valid()
      modifies talloc, tbin, wts, obuf
      ensures talloc.Valid() && tbin.Valid() && wts.Valid() && obuf.Valid()
      ensures talloc.p == 0 && talloc.size == seq(level, _ => 0)
      ensures tbin.queue == seq(level, _ => []) && wts.queue == seq(level, _ => [])
      ensures obuf.p == 0 && Waiting([])
      ensures freed == old(Addresses(talloc.Live()))
    {
      hide Talloc.Live, Addresses, AllValid, Holds;
      tbin.Reset();
      freed := talloc.Rollback();
      obuf.Reset();
      wts.Reset();
    }

    /** Abandons the transaction: memory is restored from the log of the first phase, its
        allocations are freed, everything recorded is forgotten - messages still waiting from
        earlier transactions included - and the handler can be entered again. */
    method Rollback() returns (freed: seq<nat>)
      requires Valid() && AllFit(mem[..], cow[0].Log())
      modifies this`p, this`cf, cow, mem, talloc, tbin, wts, obuf
      ensures Begun([])
      ensures mem[..] == RestoreFirst(old(mem[..]), old(cow[0].Log()), old(talloc.Live()), |old(cow[0].buf)|)
      ensures freed == old(Addresses(talloc.Live()))
    {
      hide RestoreFirst, AllFit, Abuf.Log, Talloc.Live, Tbin.Valid, Wts.Valid, Obuf.Valid, Talloc.Valid, Waiting;
      RestoreMemory();
      freed := ForgetRecordings();
      p := 0;
      cf := seq(level, _ => CFC_RESET);
    }
  }
}
