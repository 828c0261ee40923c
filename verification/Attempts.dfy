/** Retrying: attempts that fail verification, or are given up earlier, are rolled back and
    the handler is entered again (the retry loop of src/tmi.c:1428-1501). */
module Attempts {
  import opened Options
  import opened Memory
  import opened UndoLog
  import opened Compare
  import opened AbufModule
  import opened Deferred
  import opened Rollback
  import opened CrcApi
  import opened ObufModule
  import opened HandlerModule
  import opened Engine
  import opened Transactions
  import opened Runs

  /** What the phases of an attempt do, and what the allocator answers in it.  An attempt with
      fewer phases than there should be is one given up in the last of them. */
  datatype Attempt = Attempt(work: Phases, supply: Supply)

  lemma LiveAllocations(s: Sei, t: Txn, phases: Phases)
    requires |phases| == s.level && s.Valid() && TallocAt(s, t, phases)
    ensures s.talloc.Live() == Allocs(phases[0], t.supply)
  {
    hide Allocs;
  }

  /** The log that will be replayed. */
  ghost function FirstLog(t: Txn, phases: Phases, ph: int): (log: seq<Write>)
    requires 0 <= ph < |phases| && AllPhasesFit(t, phases)
    ensures |log| == |Writes(phases[0])| && AllFit(t.start, log)
  {
    if ph == 0 then OldValues(t.start, Writes(phases[0])) else Writes(phases[0])
  }

  ghost function MemoryAfterRollback(t: Txn, phases: Phases, ph: int): Ram
    requires 0 <= ph < |phases| && AllPhasesFit(t, phases)
  {
    RestoreFirst(Apply(t.start, Writes(phases[ph])), FirstLog(t, phases, ph), Allocs(phases[0], t.supply),
                 |Writes(phases[0])|)
  }

  lemma FirstLogIs(s: Sei, t: Txn, phases: Phases, ph: int)
    requires 0 <= ph < |phases| == s.level && AllPhasesFit(t, phases) && s.Linked() && CowAt(s, t, phases, ph)
    ensures s.cow[0].Log() == FirstLog(t, phases, ph)
    ensures s.mem[..] == Apply(t.start, Writes(phases[ph])) && AllFit(s.mem[..], s.cow[0].Log())
  {
    hide Apply, Writes, OldValues;
  }

  lemma FirstLogInFirstPhase(t: Txn, phases: Phases)
    requires phases != [] && AllPhasesFit(t, phases)
    ensures FirstLog(t, phases, 0) == OldValues(t.start, Writes(phases[0]))
    ensures AllFit(t.start, Writes(phases[0]))
  {
  }

  method GiveUp(s: Sei, ghost t: Txn, ghost phases: Phases, ghost ph: int) returns (freed: seq<nat>)
    requires 0 <= ph < |phases| == s.level && AllPhasesFit(t, phases)
    requires s.Valid() && CowAt(s, t, phases, ph) && TallocAt(s, t, phases)
    modifies s`p, s`cf, s.cow, s.mem, s.talloc, s.tbin, s.wts, s.obuf
    ensures s.mem.Length == |t.start| && s.Begun([]) && freed == Addresses(Allocs(phases[0], t.supply))
    ensures s.mem[..] == MemoryAfterRollback(t, phases, ph)
  {
    hide RestoreFirst, Apply, OldValues, Writes, Allocs, CowAt, TallocAt, Sei.Begun, FirstLog, AllFit, Addresses,
         Talloc.Live;
    FirstLogIs(s, t, phases, ph);
    LiveAllocations(s, t, phases);
    freed := s.Rollback();
  }

  /** Gives up an attempt in phase ph.  In the first phase, with disjoint accesses: a location that
      starts in a block the attempt allocated keeps what was written, the block is freed; of the
      others, one of pointer size that points into a block becomes NULL and the rest are as at the
      start; nothing else changes. */
  method Abandon(s: Sei, ghost t: Txn, ghost phases: Phases, ghost ph: int) returns (freed: seq<nat>)
    requires 0 <= ph < |phases| == s.level && AllPhasesFit(t, phases)
    requires s.Valid() && CowAt(s, t, phases, ph) && TallocAt(s, t, phases)
    modifies s`p, s`cf, s.cow, s.mem, s.talloc, s.tbin, s.wts, s.obuf
    ensures s.mem.Length == |t.start| && s.Begun([]) && freed == Addresses(Allocs(phases[0], t.supply))
    ensures s.mem[..] == MemoryAfterRollback(t, phases, ph) && AllFit(t.start, Writes(phases[0]))
    ensures var ws, allocs := Writes(phases[0]), Allocs(phases[0], t.supply);
            ph == 0 && PairwiseDisjoint(ws) ==>
            forall k, x | 0 <= k < |ws| && Fits(t.start, ws[k]) ::
              x in allocs && x.addr != 0 && x.addr <= ws[k].addr < x.addr + x.size ==>
              Load(s.mem[..], ws[k].addr, |ws[k].value|) == ws[k].value
    ensures var ws, allocs := Writes(phases[0]), Allocs(phases[0], t.supply);
            ph == 0 && PairwiseDisjoint(ws) ==>
            forall k | 0 <= k < |ws| && Fits(t.start, ws[k]) ::
              (forall x :: x in allocs && x.addr != 0 ==> !(x.addr <= ws[k].addr < x.addr + x.size)) ==>
              Load(s.mem[..], ws[k].addr, |ws[k].value|) ==
              if |ws[k].value| == 8 && exists x ::
                  x in allocs && x.addr != 0 && x.addr <= PointerValue(ws[k].value) < x.addr + x.size
              then [0, 0, 0, 0, 0, 0, 0, 0]
              else Load(t.start, ws[k].addr, |ws[k].value|)
    ensures var ws := Writes(phases[0]);
            ph == 0 && PairwiseDisjoint(ws) ==>
            forall b :: 0 <= b < |t.start| && (forall k :: 0 <= k < |ws| ==> !Covers(ws[k], b)) ==>
              s.mem[b] == t.start[b]
  {
    hide RestoreFirst, Apply, OldValues, Writes, Allocs, PairwiseDisjoint, Load, CowAt, TallocAt, Sei.Begun, Sei.Valid,
         FirstLog, AllFit, Addresses, PointerValue;
    FirstLogInFirstPhase(t, phases);
    freed := GiveUp(s, t, phases, ph);
    if ph == 0 && PairwiseDisjoint(Writes(phases[0])) {
      RollbackOutcome(t.start, Writes(phases[0]), Allocs(phases[0], t.supply));
    }
  }

  /** Verification that changes nothing a rollback needs. */
  method Check(s: Sei, ghost t: Txn, ghost phases: Phases) returns (ok: bool)
    requires |phases| >= 2 && AllPhasesFit(t, phases)
    requires s.p == s.level - 1 && Recorded(s, t, phases)
    modifies s.cow, s`cf
    ensures ok <==> Checked(t, phases, AnyEntry)
    ensures |phases| == s.level && s.Valid() && CowAt(s, t, phases, s.level - 1) && TallocAt(s, t, phases)
    ensures ok ==> Passed(s, t, phases)
  {
    hide Writes, Apply, Accepts, InputCorrect, Sei.RecordingsAgree, PhasesAlike, CowAt, TallocAt, TbinAt, WtsAt,
         ObufAt, Abuf.Log, AllFit, SameCalls, SameFrees, SameAllocations, LogsAt, AllPhasesFit, InputFits, Recorded,
         Compared, InputStands, Agree, AllValid, Talloc.Valid, Tbin.Valid, Wts.Valid, Obuf.Valid, Calls, FreeLists,
         ResultOf, Passed, Logs;
    CommitParts(s, t, phases, AnyEntry);
    Parts(s, t, phases);
    LogBefore(s, t, phases, s.level - 1);
    ghost var before := Logs(s.cow);
    ok := s.TryCommit();
    assert Logs(s.cow) == before;
    StillCow(s, t, phases, before);
    if ok {
      NowPassed(s, t, phases);
    }
  }

  lemma NowPassed(s: Sei, t: Txn, phases: Phases)
    requires s.Valid() && |phases| == s.level && s.talloc.p == s.level - 1 && s.obuf.p == s.level - 1
    requires s.RecordingsAgree() && TallocAt(s, t, phases) && TbinAt(s, phases) && WtsAt(s, phases)
    requires ObufAt(s, t, phases)
    requires forall q :: 0 <= q < s.level ==> Deferred.Check(s.cf[q])
    requires InputFits(s.ibuf, s.mem[..]) && InputCorrect(s.ibuf, s.mem[..])
    ensures Passed(s, t, phases)
  {
  }

  lemma StillCow(s: Sei, t: Txn, phases: Phases, before: seq<seq<Write>>)
    requires |phases| == s.level && s.Linked() && AllPhasesFit(t, phases) && AllValid(s.cow) && AllRewound(s.cow)
    requires LogsAt(before, t, phases, s.level - 1) && Logs(s.cow) == before
    requires s.mem[..] == Apply(t.start, Writes(phases[s.level - 1]))
    ensures CowAt(s, t, phases, s.level - 1)
  {
  }

  /** Verification has passed; the allocation counts are still to be compared. */
  ghost predicate Passed(s: Sei, t: Txn, phases: Phases)
    reads s, s.cow, s.mem, s.talloc, s.tbin, s.wts, s.obuf
  {
    s.Valid() && |phases| == s.level && s.talloc.p == s.level - 1 && s.obuf.p == s.level - 1 &&
    s.RecordingsAgree() && TallocAt(s, t, phases) && TbinAt(s, phases) && WtsAt(s, phases) && ObufAt(s, t, phases) &&
    (forall q :: 0 <= q < s.level ==> Deferred.Check(s.cf[q])) &&
    InputFits(s.ibuf, s.mem[..]) && InputCorrect(s.ibuf, s.mem[..])
  }

  /** The commit after it: calls and frees of the first phase, once each and in order.  They are
      done even if the allocation counts then stop the process. */
  method Finish(s: Sei, ghost t: Txn, ghost phases: Phases) returns (r: Ending)
    requires |phases| >= 2 && Passed(s, t, phases)
    modifies s`p, s.cow, s.wts, s.tbin, s.talloc`p, s.talloc`size, s.obuf`p
    ensures r.Committed? <==> SameAllocations(phases, t.supply)
    ensures r.calls == Calls(phases[0]) && r.frees == Frees(phases[0])
    ensures r.Committed? ==>
      s.Valid() && s.p == -1 && s.Emptied() && s.obuf.p == 0 && |phases| == s.level && ObufAt(s, t, phases)
  {
    hide Allocs, Frees, Calls, Messages, InputCorrect, Sei.Emptied, TallocAt, TbinAt, WtsAt, ObufAt, FreesDone,
         Talloc.Valid, Tbin.Valid, Wts.Valid, Obuf.Valid, SameCalls, SameFrees, SameAllocations, Sei.Valid, Agree;
    RecordingsAtEnd(s, t, phases);
    AgreedFrees(s.tbin.queue);
    FullCircle(s.level);
    r := s.Flush();
  }

  /** How an attempt that passes the checks ends. */
  lemma CheckedEnding(t: Txn, phases: Phases, e: Ending)
    requires |phases| >= 2 && AllPhasesFit(t, phases) && Checked(t, phases, AnyEntry)
    requires e.calls == Calls(phases[0]) && e.frees == Frees(phases[0])
    requires e.Committed? <==> SameAllocations(phases, t.supply)
    ensures e == CommitEnding(t, phases, AnyEntry, true)
  {
    hide Compared, InputStands, SameAllocations, Calls, Frees, FreesDone, SameCalls;
    AgreedFrees(FreeLists(phases));
  }

  lemma Standing(s: Sei, t: Txn, phases: Phases)
    requires Recorded(s, t, phases)
    ensures |phases| == s.level && s.Valid() && CowAt(s, t, phases, s.p) && TallocAt(s, t, phases)
  {
  }

  lemma CheckedAgrees(t: Txn, phases: Phases)
    requires |phases| >= 2 && AllPhasesFit(t, phases) && Checked(t, phases, AnyEntry)
    ensures SameRequests(phases) && AllFit(t.start, Writes(phases[|phases| - 1]))
  {
  }

  /** The end of an attempt: verified and committed, or rolled back. */
  method Decide(s: Sei, ghost t: Txn, ghost work: Phases, complete: bool, ghost phases: Phases)
    returns (r: Option<Ending>, freed: seq<nat>)
    requires |phases| >= 2 && AllPhasesFit(t, phases) && 0 < |work| <= |phases|
    requires complete <==> |work| == |phases|
    requires s.p == |work| - 1 && Recorded(s, t, phases)
    modifies s`p, s`cf, s.cow, s.mem, s.talloc, s.tbin, s.wts, s.obuf
    ensures s.mem.Length == |t.start| && |phases| == s.level
    ensures r.Some? <==> complete && Checked(t, phases, AnyEntry)
    ensures r.Some? ==> r.value == CommitEnding(t, phases, AnyEntry, true) && freed == []
    ensures r.Some? ==> (r.value.Committed? <==> SameAllocations(phases, t.supply))
    ensures r.Some? && r.value.Committed? ==> CommittedWith(s, t, phases, r.value)
    ensures r.None? ==>
      s.Begun([]) && freed == Addresses(Allocs(phases[0], t.supply)) &&
      s.mem[..] == MemoryAfterRollback(t, phases, |work| - 1)
  {
    hide Recorded, CowAt, TallocAt, Apply, Writes, Allocs, Checked, SameAllocations, Sei.Valid, Sei.Begun,
         AllPhasesFit, MemoryAfterRollback, Addresses, AllFit, CommitEnding, CommittedWith;
    RecordedBounds(s, t, phases);
    Standing(s, t, phases);
    if complete {
      r := Settle(s, t, phases);
      if r.Some? {
        return r, [];
      }
    }
    freed := Abandon(s, t, phases, |work| - 1);
    r := None;
  }

  /** All phases are over: verify, and commit if that passes. */
  method Settle(s: Sei, ghost t: Txn, ghost phases: Phases) returns (r: Option<Ending>)
    requires |phases| >= 2 && AllPhasesFit(t, phases)
    requires s.p == s.level - 1 && Recorded(s, t, phases)
    modifies s`p, s`cf, s.cow, s.talloc, s.tbin, s.wts, s.obuf
    ensures |phases| == s.level && (r.Some? <==> Checked(t, phases, AnyEntry))
    ensures r.Some? ==> r.value == CommitEnding(t, phases, AnyEntry, true)
    ensures r.Some? ==> (r.value.Committed? <==> SameAllocations(phases, t.supply))
    ensures r.Some? && r.value.Committed? ==> CommittedWith(s, t, phases, r.value)
    ensures r.None? ==> s.Valid() && CowAt(s, t, phases, s.level - 1) && TallocAt(s, t, phases)
  {
    hide Recorded, CowAt, TallocAt, Apply, Writes, Calls, Frees, Checked, SameAllocations, ObufAt, Sei.Emptied,
         Sei.Valid, Passed, AllPhasesFit, SameRequests, AllFit, CommitEnding, CommittedWith, ResultOf;
    RecordedBounds(s, t, phases);
    AtEnd(s, t, phases);
    var ok := Check(s, t, phases);
    if !ok {
      return None;
    }
    CheckedAgrees(t, phases);
    var e := Finish(s, t, phases);
    CheckedEnding(t, phases, e);
    if e.Committed? {
      Sealed(s, t, phases, e);
    }
    r := Some(e);
  }

  predicate Attemptable(work: Phases, level: nat) {
    0 < |work| <= level && AllPhasesPossible(work)
  }

  // ------------------------------------------------ how an attempt comes out

  /** All phases were run and pass the checks before the commit. */
  ghost predicate Complete(t: Txn, work: Phases, level: nat) {
    |work| == level >= 2 && AllPhasesFit(t, work) && Checked(t, work, AnyEntry)
  }

  /** No assertion stops it, but it is given up or fails the checks. */
  ghost predicate RolledBack(s: Sei, t: Txn, work: Phases) {
    AllPhasesRoom(s, t, work) && !Complete(t, work, s.level)
  }

  /** It passes verification, allocation counts included. */
  ghost predicate Commits(s: Sei, t: Txn, work: Phases) {
    AllPhasesRoom(s, t, work) && |work| == s.level >= 2 && AllPhasesFit(t, work) && Verified(t, work, AnyEntry)
  }

  /** How an attempt that is not rolled back ends, and what it has done by then. */
  ghost function EndingOf(s: Sei, t: Txn, work: Phases): Ending {
    if AllPhasesRoom(s, t, work) && Complete(t, work, s.level)
    then CommitEnding(t, work, AnyEntry, true)
    else NOTHING_DONE
  }

  /** What an attempt starts from, but for the allocator's answers. */
  datatype Setting = Setting(start: Ram, waiting: seq<Bytes>, input: Ibuf)

  function TxnOf(from: Setting, supply: Supply): Txn {
    Txn(from.start, supply, from.waiting, from.input)
  }

  /** The input message's record after phase ph. */
  ghost function InputIn(t: Txn, phases: Phases, ph: int): Ibuf
    requires 0 <= ph < |phases| && AllPhasesFit(t, phases)
  {
    if ph == 0 then t.input else InputSwitched(t.input, Apply(t.start, Writes(phases[ph - 1])))
  }

  /** What the rollback of an attempt leaves to the next one. */
  ghost function Retried(t: Txn, work: Phases, level: nat): Setting {
    if 0 < |work| <= level && AllPhasesFit(t, Partial(work, |work|, level)) then
      var phases := Partial(work, |work|, level);
      Setting(MemoryAfterRollback(t, phases, |work| - 1), [], InputIn(t, phases, |work| - 1))
    else Setting(t.start, [], t.input)
  }

  lemma InputIs(s: Sei, t: Txn, phases: Phases)
    requires Recorded(s, t, phases) && AllPhasesFit(t, phases)
    ensures 0 <= s.p < |phases| && s.ibuf == InputIn(t, phases, s.p)
  {
    hide Writes, Apply, OldValues, Allocs, Frees, Calls, Messages;
  }

  lemma RetriedIs(t: Txn, work: Phases, level: nat)
    requires 0 < |work| <= level && AllPhasesFit(t, Partial(work, |work|, level))
    ensures var phases := Partial(work, |work|, level);
            Retried(t, work, level) ==
            Setting(MemoryAfterRollback(t, phases, |work| - 1), [], InputIn(t, phases, |work| - 1))
  {
  }

  /** One attempt: it ends the transaction, or leaves the engine as at the beginning, with the
      memory and input that `Retried` says. */
  method TryOnce(s: Sei, t: Txn, work: Phases) returns (r: Option<Ending>, freed: seq<nat>, made: seq<Call>)
    requires Attemptable(work, s.level)
    requires s.mem[..] == t.start && s.ibuf == t.input && InputFits(t.input, t.start) && s.Begun(t.waiting)
    modifies s, s.cow, s.mem, s.talloc, s.tbin, s.wts, s.obuf
    ensures s.level >= 2
    ensures r.None? <==> RolledBack(s, t, work)
    ensures r.Some? ==> r.value == EndingOf(s, t, work) && freed == []
    ensures r.Some? ==> (r.value.Committed? <==> Commits(s, t, work))
    ensures r.Some? && r.value.Committed? ==> CommittedWith(s, t, work, r.value)
    ensures r.None? ==> s.Begun([]) && freed == Addresses(Allocs(work[0], t.supply))
    ensures r.None? ==> Retried(t, work, s.level) == Setting(s.mem[..], [], s.ibuf) && InputFits(s.ibuf, s.mem[..])
    ensures made == MadeAtOnce(s, t, work, |work|)
  {
    hide Recorded, MadeAtOnce, CommitEnding, Partial, Checked, ObufAt, Sei.Begun, AllPhasesFit, Allocs,
         MemoryAfterRollback, SameAllocations, AllPhasesPossible, AllPhasesRoom, CommittedWith, Addresses, Retried,
         InputIn, InputFits;
    var ok;
    ok, made := RunBegun(s, t, work);
    if !ok {
      return Some(NOTHING_DONE), [], made;
    }
    ghost var phases := Partial(work, |work|, s.level);
    PartialWhole(work);
    RecordedBounds(s, t, phases);
    InputIs(s, t, phases);
    RetriedIs(t, work, s.level);
    ghost var now := s.mem[..];
    r, freed := Decide(s, t, work, |work| == s.level, phases);
    StillFits(s.ibuf, now, s.mem[..]);
  }

  lemma StillFits(ibuf: Ibuf, m: Ram, m': Ram)
    requires InputFits(ibuf, m) && |m'| == |m|
    ensures InputFits(ibuf, m')
  {
  }

  // ---------------------------------------------------------- many attempts

  /** What attempt k starts from when all before it were rolled back. */
  ghost function SettingAt(attempts: seq<Attempt>, k: nat, level: nat, first: Setting): Setting
    requires k <= |attempts|
  {
    if k == 0 then first
    else
      var a := attempts[k - 1];
      Retried(TxnOf(SettingAt(attempts, k - 1, level, first), a.supply), a.work, level)
  }

  ghost function TxnAt(attempts: seq<Attempt>, k: nat, level: nat, first: Setting): Txn
    requires k < |attempts|
  {
    TxnOf(SettingAt(attempts, k, level, first), attempts[k].supply)
  }

  /** The blocks that the first k attempts allocated, in order. */
  function Undone(attempts: seq<Attempt>, k: nat): (ptrs: seq<nat>)
    requires k <= |attempts|
  {
    if k == 0 then [] else Undone(attempts, k - 1) + Blocks(attempts[k - 1])
  }

  function Blocks(a: Attempt): seq<nat> {
    if a.work == [] then [] else Addresses(Allocs(a.work[0], a.supply))
  }

  /** The calls that the first n attempts made at once. */
  ghost function MadeIn(s: Sei, attempts: seq<Attempt>, n: nat, first: Setting): seq<Call>
    requires n <= |attempts|
  {
    if n == 0 then []
    else
      var k := n - 1;
      MadeIn(s, attempts, k, first) +
      MadeAtOnce(s, TxnAt(attempts, k, s.level, first), attempts[k].work, |attempts[k].work|)
  }

  lemma MadeInNext(s: Sei, attempts: seq<Attempt>, k: nat, first: Setting)
    requires k < |attempts|
    ensures MadeIn(s, attempts, k + 1, first) ==
            MadeIn(s, attempts, k, first) +
            MadeAtOnce(s, TxnAt(attempts, k, s.level, first), attempts[k].work, |attempts[k].work|)
  {
  }

  /** With two phases that is none. */
  lemma {:induction false} NoneMadeIn(s: Sei, attempts: seq<Attempt>, n: nat, first: Setting)
    requires n <= |attempts| && AllAttemptable(attempts, 2)
    ensures MadeIn(s, attempts, n, first) == []
    decreases n
  {
    hide MadeIn, AllAttemptable;
    if n == 0 {
      NothingMade(s, attempts, first);
    } else {
      var k: nat := n - 1;
      NoneMadeIn(s, attempts, k, first);
      MadeInShort(s, attempts, k, first);
    }
  }

  lemma MadeInShort(s: Sei, attempts: seq<Attempt>, k: nat, first: Setting)
    requires k < |attempts| && AllAttemptable(attempts, 2)
    ensures MadeIn(s, attempts, k + 1, first) == MadeIn(s, attempts, k, first)
  {
    hide MadeIn, MadeAtOnce, TxnAt, AllPhasesPossible;
    assert Attemptable(attempts[k].work, 2);
    MadeInNext(s, attempts, k, first);
  }

  lemma AtFirst(attempts: seq<Attempt>, level: nat, first: Setting)
    ensures Undone(attempts, 0) == [] && SettingAt(attempts, 0, level, first) == first
  {
  }

  lemma AfterOneMore(attempts: seq<Attempt>, k: nat, level: nat, first: Setting)
    requires k < |attempts|
    ensures Undone(attempts, k + 1) == Undone(attempts, k) + Blocks(attempts[k])
    ensures SettingAt(attempts, k + 1, level, first) ==
            Retried(TxnAt(attempts, k, level, first), attempts[k].work, level)
  {
  }

  ghost predicate AllRolledBack(s: Sei, attempts: seq<Attempt>, k: nat, first: Setting)
    requires k <= |attempts|
  {
    forall i :: 0 <= i < k ==> RolledBack(s, TxnAt(attempts, i, s.level, first), attempts[i].work)
  }

  predicate AllAttemptable(attempts: seq<Attempt>, level: nat) {
    forall i :: 0 <= i < |attempts| ==> Attemptable(attempts[i].work, level)
  }

  /** Attempts until one is not rolled back.  That one commits exactly if it passes verification:
      then its calls and frees are made once each, in the order its first phase asked for them,
      and memory is what it makes of the memory it started from; otherwise `EndingOf` says what it
      had done.  Of the attempts before only the calls of a third or later phase are made, and
      the blocks they allocated are freed once each. */
  method RunAttempts(s: Sei, attempts: seq<Attempt>, waiting: seq<Bytes>)
    returns (r: Option<Ending>, k: nat, undone: seq<nat>, made: seq<Call>)
    requires AllAttemptable(attempts, s.level) && InputFits(s.ibuf, s.mem[..]) && s.Idle(waiting)
    modifies s, s.cow, s.mem, s.talloc, s.tbin, s.wts, s.obuf
    ensures k <= |attempts| && (r.Some? <==> k < |attempts|) && undone == Undone(attempts, k)
    ensures var first := Setting(old(s.mem[..]), waiting, old(s.ibuf));
      AllRolledBack(s, attempts, k, first) &&
      (r.Some? ==>
        var t := TxnAt(attempts, k, s.level, first);
        !RolledBack(s, t, attempts[k].work) && r.value == EndingOf(s, t, attempts[k].work) &&
        (r.value.Committed? <==> Commits(s, t, attempts[k].work)) &&
        (r.value.Committed? ==> CommittedWith(s, t, attempts[k].work, r.value))) &&
      (r.None? ==> SettingAt(attempts, k, s.level, first).start == s.mem[..]) &&
      made == MadeIn(s, attempts, if r.Some? then k + 1 else k, first)
    ensures r.None? ==> s.Valid() && s.p == 0 && s.Emptied() && s.obuf.p == 0
  {
    hide Sei.Begun, Sei.Idle, Sei.Valid, Sei.Emptied, InputFits, AllPhasesPossible, Undone, SettingAt, TxnAt, Blocks,
         RolledBack, Commits, CommittedWith, AllRolledBack, Retried, Allocs, Addresses, EndingOf, MadeIn, MadeAtOnce;
    ghost var level, first := s.level, Setting(s.mem[..], waiting, s.ibuf);
    s.Begin(waiting);
    undone, made := [], [];
    AtFirst(attempts, level, first);
    NoneRolledBack(s, attempts, first);
    assert made == MadeIn(s, attempts, 0, first) by { NothingMade(s, attempts, first); }
    var wait := waiting;
    for i := 0 to |attempts|
      invariant s.Begun(wait) && InputFits(s.ibuf, s.mem[..]) && undone == Undone(attempts, i)
      invariant SettingAt(attempts, i, level, first) == Setting(s.mem[..], wait, s.ibuf)
      invariant AllRolledBack(s, attempts, i, first) && made == MadeIn(s, attempts, i, first)
    {
      var t := Txn(s.mem[..], attempts[i].supply, wait, s.ibuf);
      assert t == TxnAt(attempts, i, level, first) by { TxnIs(attempts, i, level, first); }
      AfterOneMore(attempts, i, level, first);
      OneMoreRolledBack(s, attempts, i, first);
      MadeInNext(s, attempts, i, first);
      BlocksOf(attempts[i]);
      var freed, calls;
      r, freed, calls := TryOnce(s, t, attempts[i].work);
      made := made + calls;
      if r.Some? {
        return r, i, undone, made;
      }
      undone := undone + freed;
      wait := [];
    }
    r, k := None, |attempts|;
    BegunState(s, wait);
  }

  lemma NothingMade(s: Sei, attempts: seq<Attempt>, first: Setting)
    ensures MadeIn(s, attempts, 0, first) == []
  {
  }

  lemma TxnIs(attempts: seq<Attempt>, k: nat, level: nat, first: Setting)
    requires k < |attempts|
    ensures TxnAt(attempts, k, level, first) == TxnOf(SettingAt(attempts, k, level, first), attempts[k].supply)
  {
  }

  lemma NoneRolledBack(s: Sei, attempts: seq<Attempt>, first: Setting)
    ensures AllRolledBack(s, attempts, 0, first)
  {
  }

  lemma OneMoreRolledBack(s: Sei, attempts: seq<Attempt>, k: nat, first: Setting)
    requires k < |attempts|
    ensures AllRolledBack(s, attempts, k, first) &&
            RolledBack(s, TxnAt(attempts, k, s.level, first), attempts[k].work) ==>
            AllRolledBack(s, attempts, k + 1, first)
  {
    hide RolledBack, TxnAt;
  }

  lemma BlocksOf(a: Attempt)
    requires a.work != []
    ensures Blocks(a) == Addresses(Allocs(a.work[0], a.supply))
  {
  }

  lemma BegunState(s: Sei, waiting: seq<Bytes>)
    requires s.Begun(waiting)
    ensures s.Valid() && s.p == 0 && s.Emptied() && s.obuf.p == 0
  {
  }

  // -------------------------------------------------- attempts without trace

  /** An attempt given up in its first phase leaves no trace if it touched no byte twice and
      allocated nothing. */
  ghost predicate Traceless(a: Attempt) {
    |a.work| == 1 && PairwiseDisjoint(Writes(a.work[0])) && Allocs(a.work[0], a.supply) == []
  }

  lemma TracelessRestores(t: Txn, phases: Phases)
    requires phases != [] && AllPhasesFit(t, phases)
    requires PairwiseDisjoint(Writes(phases[0])) && Allocs(phases[0], t.supply) == []
    ensures MemoryAfterRollback(t, phases, 0) == t.start
  {
    hide RestoreFirst, Apply, OldValues, Writes, Allocs, PairwiseDisjoint;
    var ws := Writes(phases[0]);
    FirstLogInFirstPhase(t, phases);
    var log := OldValues(t.start, ws);
    UnfilteredRestore(Apply(t.start, ws), log, |log|);
    assert log[..|log|] == log;
    RestoreDisjoint(t.start, ws);
  }

  lemma TracelessRetried(from: Setting, a: Attempt, level: nat)
    requires Traceless(a)
    ensures Retried(TxnOf(from, a.supply), a.work, level) == Setting(from.start, [], from.input)
  {
    var t := TxnOf(from, a.supply);
    hide Writes, Allocs, PairwiseDisjoint, AllPhasesFit, MemoryAfterRollback, Retried, Partial;
    if 1 <= level && AllPhasesFit(t, Partial(a.work, 1, level)) {
      RetriedIs(t, a.work, level);
      PartialOfOne(a.work, level);
      TracelessRestores(t, Partial(a.work, 1, level));
    } else {
      NotRetried(t, a.work, level);
    }
  }

  lemma NotRetried(t: Txn, work: Phases, level: nat)
    requires |work| == 1 && !(1 <= level && AllPhasesFit(t, Partial(work, 1, level)))
    ensures Retried(t, work, level) == Setting(t.start, [], t.input)
  {
  }

  lemma PartialOfOne(work: Phases, level: nat)
    requires |work| == 1 <= level
    ensures |Partial(work, 1, level)| == level && Partial(work, 1, level)[0] == work[0]
  {
  }

  /** After such attempts the next one starts from the memory and the input of the first. */
  lemma {:induction false} TracelessAttempts(attempts: seq<Attempt>, k: nat, level: nat, first: Setting)
    requires k <= |attempts| && AllTraceless(attempts[..k])
    ensures SettingAt(attempts, k, level, first).start == first.start
    ensures SettingAt(attempts, k, level, first).input == first.input
    decreases k
  {
    hide Retried, TxnOf, Traceless, SettingAt;
    if k == 0 {
      AtFirst(attempts, level, first);
    } else {
      assert attempts[..k][..k - 1] == attempts[..k - 1] && attempts[..k][k - 1] == attempts[k - 1];
      TracelessAttempts(attempts, k - 1, level, first);
      TracelessRetried(SettingAt(attempts, k - 1, level, first), attempts[k - 1], level);
      AfterOneMore(attempts, k - 1, level, first);
    }
  }

  ghost predicate AllTraceless(attempts: seq<Attempt>) {
    forall i :: 0 <= i < |attempts| ==> Traceless(attempts[i])
  }
}
