/** Runs of the engine: one transaction whose phases may do anything, what a commit proves, and
    the fault-free transaction of a handler. */
module Runs {
  import opened Memory
  import opened UndoLog
  import opened Compare
  import opened AbufModule
  import opened Deferred
  import opened CrcApi
  import opened HandlerModule
  import opened Engine
  import opened Transactions

  // ------------------------------------------------------- arbitrary phases

  /** Every action of a phase can be carried out. */
  ghost predicate AllRoom(s: Sei, t: Txn, acts: seq<Action>, ph: int, n: int)
    requires n <= |acts|
  {
    forall k :: 0 <= k < n ==> Room(s, t, acts[..k], ph, acts[k])
  }

  /** How many of the actions, from k on, are carried out before there is no room for one. */
  ghost function Reach(s: Sei, t: Txn, acts: seq<Action>, ph: int, k: nat): (n: nat)
    requires k <= |acts|
    ensures k <= n <= |acts|
    decreases |acts| - k
  {
    if k < |acts| && Room(s, t, acts[..k], ph, acts[k]) then Reach(s, t, acts, ph, k + 1) else k
  }

  lemma {:induction false} ReachAll(s: Sei, t: Txn, acts: seq<Action>, ph: int, k: nat)
    requires k <= |acts| && AllRoom(s, t, acts, ph, |acts|)
    ensures Reach(s, t, acts, ph, k) == |acts|
    decreases |acts| - k
  {
    hide Room;
    if k == |acts| {
    } else {
      assert Room(s, t, acts[..k], ph, acts[k]);
      ReachAll(s, t, acts, ph, k + 1);
    }
  }

  /** What a phase has done after its first k actions. */
  function Upto(phases: Phases, ph: int, acts: seq<Action>, k: int): (r: Phases)
    requires 0 <= ph < |phases| && 0 <= k <= |acts|
    ensures |r| == |phases| && r[ph] == acts[..k] && forall q :: 0 <= q < |phases| && q != ph ==> r[q] == phases[q]
  {
    phases[ph := acts[..k]]
  }

  lemma UptoNext(phases: Phases, ph: int, acts: seq<Action>, k: int)
    requires 0 <= ph < |phases| && 0 <= k < |acts|
    ensures Next(Upto(phases, ph, acts, k), ph, acts[k]) == Upto(phases, ph, acts, k + 1)
  {
    assert acts[..k] + [acts[k]] == acts[..k + 1];
  }

  lemma CallsNext(acts: seq<Action>, k: int, supply: Supply)
    requires 0 <= k < |acts|
    ensures Calls(acts[..k + 1]) == Calls(acts[..k]) + (if acts[k].Defer? then [acts[k].call] else [])
  {
    assert acts[..k] + [acts[k]] == acts[..k + 1];
    ActionsSnoc(acts[..k], acts[k], supply);
  }

  lemma PhaseStart(s: Sei, t: Txn, phases: Phases, ph: int, acts: seq<Action>)
    requires 0 <= ph < |phases| && phases[ph] == []
    ensures Upto(phases, ph, acts, 0) == phases && Upto(phases, ph, acts, |acts|) == phases[ph := acts]
    ensures Calls(acts[..0]) == [] && acts[..|acts|] == acts && AllRoom(s, t, acts, ph, 0)
  {
    assert acts[..|acts|] == acts;
  }

  lemma PhaseStep(s: Sei, t: Txn, phases: Phases, ph: int, acts: seq<Action>, k: int)
    requires 0 <= ph < |phases| && 0 <= k < |acts|
    ensures Next(Upto(phases, ph, acts, k), ph, acts[k]) == Upto(phases, ph, acts, k + 1)
    ensures Calls(acts[..k + 1]) == Calls(acts[..k]) + (if acts[k].Defer? then [acts[k].call] else [])
    ensures AllRoom(s, t, acts, ph, k) && Room(s, t, acts[..k], ph, acts[k]) ==> AllRoom(s, t, acts, ph, k + 1)
    ensures AllRoom(s, t, acts, ph, |acts|) ==> Room(s, t, acts[..k], ph, acts[k])
  {
    hide Calls, Room;
    UptoNext(phases, ph, acts, k);
    CallsNext(acts, k, t.supply);
  }

  /** The current phase performs these actions. */
  method RunActions(s: Sei, t: Txn, ghost phases: Phases, ghost ph: int, acts: seq<Action>)
    returns (ok: bool, made: seq<Call>)
    requires 0 <= ph < |phases| && phases[ph] == [] && AllPossible(acts)
    requires s.p == ph && Recorded(s, t, phases)
    modifies s.cow, s.mem, s.talloc`allocations, s.talloc`size, s.tbin, s.wts, s.obuf`queue, s.obuf`done, s.obuf`part
    ensures ok <==> AllRoom(s, t, acts, ph, |acts|)
    ensures ok ==> Recorded(s, t, phases[ph := acts])
    ensures made == if ph < 2 then [] else Calls(acts[..Reach(s, t, acts, ph, 0)])
  {
    hide Recorded, Room, Next, Calls, Upto, AllRoom;
    made := [];
    PhaseStart(s, t, phases, ph, acts);
    for i := 0 to |acts|
      invariant Recorded(s, t, Upto(phases, ph, acts, i))
      invariant AllRoom(s, t, acts, ph, i) && Reach(s, t, acts, ph, 0) == Reach(s, t, acts, ph, i)
      invariant made == if ph < 2 then [] else Calls(acts[..i])
    {
      PhaseStep(s, t, phases, ph, acts, i);
      var done, obs, calls := Perform(s, t, Upto(phases, ph, acts, i), ph, acts[i]);
      if !done {
        return false, made;
      }
      made := made + calls;
    }
    ok := true;
  }

  /** The first n phases have done their work, the others nothing. */
  function Partial(work: Phases, n: int, level: nat): (r: Phases)
    requires 0 <= n <= |work| <= level
    ensures |r| == level && (forall q :: 0 <= q < n ==> r[q] == work[q]) && (forall q :: n <= q < level ==> r[q] == [])
  {
    seq(level, q requires 0 <= q < level => if q < n then work[q] else [])
  }

  lemma PartialNext(work: Phases, n: int, level: nat)
    requires 0 <= n < |work| <= level
    ensures Partial(work, n, level)[n := work[n]] == Partial(work, n + 1, level)
  {
  }

  lemma PartialWhole(work: Phases)
    ensures Partial(work, |work|, |work|) == work
  {
  }

  /** The calls that the third and later of n phases make at once instead of deferring them. */
  function LateCalls(work: Phases, n: int): (calls: seq<Call>)
    requires 0 <= n <= |work|
    ensures n <= 2 ==> calls == []
  {
    if n <= 2 then [] else LateCalls(work, n - 1) + Calls(work[n - 1])
  }

  lemma LateCallsNext(work: Phases, n: int)
    requires 0 <= n < |work|
    ensures LateCalls(work, n + 1) == LateCalls(work, n) + (if n < 2 then [] else Calls(work[n]))
  {
  }

  /** The calls that the third and later of n phases make at once, each going on until there is no
      room for an action, which ends the transaction. */
  ghost function MadeAtOnce(s: Sei, t: Txn, work: Phases, n: nat): (calls: seq<Call>)
    requires n <= |work|
    ensures n <= 2 ==> calls == []
  {
    if n <= 2 then []
    else
      var before := MadeAtOnce(s, t, work, n - 1);
      if RoomBefore(s, t, work, n - 1)
      then before + Calls(work[n - 1][..Reach(s, t, work[n - 1], n - 1, 0)])
      else before
  }

  ghost predicate RoomBefore(s: Sei, t: Txn, work: Phases, n: nat)
    requires n <= |work|
  {
    forall q :: 0 <= q < n ==> AllRoom(s, t, work[q], q, |work[q]|)
  }

  lemma MadeNext(s: Sei, t: Txn, work: Phases, n: nat)
    requires n < |work| && RoomBefore(s, t, work, n)
    ensures MadeAtOnce(s, t, work, n + 1) ==
            MadeAtOnce(s, t, work, n) + (if n < 2 then [] else Calls(work[n][..Reach(s, t, work[n], n, 0)]))
    ensures RoomBefore(s, t, work, n + 1) <==> AllRoom(s, t, work[n], n, |work[n]|)
  {
    hide AllRoom, Calls, Reach;
  }

  /** Phases after one that was stopped make no calls. */
  lemma {:induction false} MadeNoMore(s: Sei, t: Txn, work: Phases, n: nat, k: nat)
    requires n <= k <= |work| && !RoomBefore(s, t, work, n)
    ensures MadeAtOnce(s, t, work, k) == MadeAtOnce(s, t, work, n)
  {
    hide AllRoom, Calls, Reach;
    if k == n {
    } else {
      MadeNoMore(s, t, work, n, k - 1);
    }
  }

  /** Phases that are not stopped make all their late calls. */
  lemma {:induction false} MadeAll(s: Sei, t: Txn, work: Phases, n: nat)
    requires n <= |work| && RoomBefore(s, t, work, n)
    ensures MadeAtOnce(s, t, work, n) == LateCalls(work, n)
  {
    hide AllRoom, Calls, Reach;
    if n <= 2 {
    } else {
      MadeAll(s, t, work, n - 1);
      ReachAll(s, t, work[n - 1], n - 1, 0);
      assert work[n - 1][..|work[n - 1]|] == work[n - 1];
    }
  }

  predicate AllPhasesPossible(work: Phases) {
    forall q :: 0 <= q < |work| ==> AllPossible(work[q])
  }

  ghost predicate AllPhasesRoom(s: Sei, t: Txn, work: Phases) {
    forall q :: 0 <= q < |work| ==> AllRoom(s, t, work[q], q, |work[q]|)
  }

  /** Run the phases one after another, switching in between. */
  method RunPhases(s: Sei, t: Txn, work: Phases) returns (ok: bool, made: seq<Call>)
    requires 0 < |work| <= s.level && AllPhasesPossible(work)
    requires s.p == 0 && Recorded(s, t, Partial(work, 0, s.level))
    modifies s`p, s`ibuf, s.talloc, s.obuf, s.cow, s.mem, s.tbin, s.wts
    ensures ok <==> AllPhasesRoom(s, t, work)
    ensures ok ==> s.p == |work| - 1 && Recorded(s, t, Partial(work, |work|, s.level))
    ensures made == MadeAtOnce(s, t, work, |work|)
  {
    hide Recorded, AllRoom, Calls, MadeAtOnce, Partial, Reach;
    made := [];
    assert made == MadeAtOnce(s, t, work, 0);
    for i := 0 to |work|
      invariant s.p == if i == 0 then 0 else i - 1
      invariant Recorded(s, t, Partial(work, i, s.level))
      invariant RoomBefore(s, t, work, i) && made == MadeAtOnce(s, t, work, i)
    {
      if i > 0 {
        NextPhase(s, t, Partial(work, i, s.level), i - 1);
      }
      PartialNext(work, i, s.level);
      var done, calls := RunActions(s, t, Partial(work, i, s.level), i, work[i]);
      MadeNext(s, t, work, i);
      made := made + calls;
      if !done {
        MadeNoMore(s, t, work, i + 1, |work|);
        return false, made;
      }
    }
    ok := true;
  }

  /** The same, from a transaction just begun. */
  method RunBegun(s: Sei, t: Txn, work: Phases) returns (ok: bool, made: seq<Call>)
    requires 0 < |work| <= s.level && AllPhasesPossible(work)
    requires s.mem[..] == t.start && s.ibuf == t.input && InputFits(t.input, t.start) && s.Begun(t.waiting)
    modifies s`p, s`ibuf, s.talloc, s.obuf, s.cow, s.mem, s.tbin, s.wts
    ensures s.level >= 2
    ensures ok <==> AllPhasesRoom(s, t, work)
    ensures var phases := Partial(work, |work|, s.level);
            ok ==> s.p == |work| - 1 && Recorded(s, t, phases) && AllPhasesFit(t, phases) &&
                   InputFits(s.ibuf, s.mem[..])
    ensures made == MadeAtOnce(s, t, work, |work|)
  {
    hide Recorded, MadeAtOnce, Partial, Sei.Begun, AllPhasesFit, Sei.Valid, AllPhasesPossible, AllPhasesRoom;
    BegunPhase(s, t.waiting);
    Start(s, t, Partial(work, 0, s.level));
    ok, made := RunPhases(s, t, work);
    if ok {
      RecordedBounds(s, t, Partial(work, |work|, s.level));
    }
  }

  /** One transaction whose phases do anything whatever.  It commits exactly when they pass
      verification; then memory is what the last phase left, and the calls and frees the first
      phase asked for are made, once each and in order.  If it does not, `CommitEnding` says what
      had been done when the process stopped. */
  method Transact(s: Sei, t: Txn, work: Phases, isolated: bool) returns (r: Ending, made: seq<Call>)
    requires |work| == s.level && AllPhasesPossible(work)
    requires s.mem[..] == t.start && s.ibuf == t.input && InputFits(t.input, t.start) && s.Idle(t.waiting)
    modifies s, s.cow, s.mem, s.talloc, s.tbin, s.wts, s.obuf
    ensures s.level >= 2
    ensures r.Committed? <==>
      AllPhasesRoom(s, t, work) && AllPhasesFit(t, work) && Verified(t, work, s.Rule(isolated))
    ensures r.Committed? ==> CommittedWith(s, t, work, r)
    ensures if AllPhasesRoom(s, t, work)
            then AllPhasesFit(t, work) && r == CommitEnding(t, work, s.Rule(isolated), isolated)
            else r == NOTHING_DONE
    ensures made == MadeAtOnce(s, t, work, |work|)
  {
    hide Recorded, Verified, Flushes, Sei.Begun, Calls, Frees, FreesDone, FreeLists, AllPhasesFit, Sei.Idle, Sei.Valid,
         AllPhasesPossible, AllPhasesRoom, CommittedWith, InputFits, Sei.Rule, MadeAtOnce;
    IdleLevel(s, t.waiting);
    s.Begin(t.waiting);
    var ok;
    ok, made := RunWhole(s, t, work);
    if !ok {
      return NOTHING_DONE, made;
    }
    r := Conclude(s, isolated, t, work);
  }

  /** All phases, to the end of the last. */
  method RunWhole(s: Sei, t: Txn, work: Phases) returns (ok: bool, made: seq<Call>)
    requires |work| == s.level && AllPhasesPossible(work)
    requires s.mem[..] == t.start && s.ibuf == t.input && InputFits(t.input, t.start) && s.Begun(t.waiting)
    modifies s`p, s`ibuf, s.talloc, s.obuf, s.cow, s.mem, s.tbin, s.wts
    ensures ok <==> AllPhasesRoom(s, t, work)
    ensures ok ==> s.p == |work| - 1 && Recorded(s, t, work) && AllPhasesFit(t, work)
    ensures made == MadeAtOnce(s, t, work, |work|)
  {
    hide Recorded, MadeAtOnce, Partial, Sei.Begun, AllPhasesFit, AllPhasesPossible, AllPhasesRoom, InputFits;
    BegunPhase(s, t.waiting);
    PartialWhole(work);
    ok, made := RunBegun(s, t, work);
  }

  lemma IdleLevel(s: Sei, waiting: seq<Bytes>)
    requires s.Idle(waiting)
    ensures s.level >= 2
  {
  }

  lemma BegunPhase(s: Sei, waiting: seq<Bytes>)
    requires s.Begun(waiting)
    ensures s.p == 0 && s.level >= 2
  {
  }

  lemma AtEnd(s: Sei, t: Txn, phases: Phases)
    requires |phases| >= 2 && AllPhasesFit(t, phases) && s.p == |phases| - 1 && Recorded(s, t, phases)
    ensures s.Linked() && |phases| == s.level && ObufAt(s, t, phases)
    ensures ResultOf(t.start, phases[|phases| - 1], s.mem[..])
  {
  }

  // --------------------------------------------------------- what a commit proves

  /** If the last writer of every byte was checked, a commit means that the first and the last
      phase computed the same memory. */
  lemma CommitIsSound(t: Txn, phases: Phases, rule: Rule)
    requires |phases| >= 2 && AllPhasesFit(t, phases) && Verified(t, phases, rule)
    requires LastWritersChecked(rule, Writes(phases[0]))
    ensures Apply(t.start, Writes(phases[0])) == Apply(t.start, Writes(phases[|phases| - 1]))
  {
    hide Apply, Writes, Accepts, InputCorrect, LastWritersChecked, SameShape;
    CheckedRunsAgree(rule, MAX_CONFLICTS, t.start, Writes(phases[0]), Writes(phases[|phases| - 1]));
  }

  /** So it does for accesses that are disjoint or identical, if the rule looks at the newest
      entry for an address or no address is logged twice. */
  lemma CommitIsSoundForSeparateAccesses(t: Txn, phases: Phases, rule: Rule)
    requires |phases| >= 2 && AllPhasesFit(t, phases) && Verified(t, phases, rule)
    requires DisjointOrIdentical(Writes(phases[0])) && NonEmptyValues(Writes(phases[0]))
    requires rule == LaterEntry || NoAddressRepeats(Writes(phases[0]))
    ensures Apply(t.start, Writes(phases[0])) == Apply(t.start, Writes(phases[|phases| - 1]))
  {
    hide Apply, Writes, Verified, LastWritersChecked, DisjointOrIdentical, NonEmptyValues, NoAddressRepeats;
    DisjointOrIdenticalIsChecked(Writes(phases[0]));
    AnyEntryChecksExactlyWithoutRepeats(Writes(phases[0]));
    CommitIsSound(t, phases, rule);
  }

  /** Alike but for the values written in phase q. */
  ghost predicate DifferInValues(phases: Phases, other: Phases, q: int, supply: Supply) {
    0 < q < |phases| - 1 && |other| == |phases| &&
    (forall r :: 0 <= r < |phases| && r != q ==> other[r] == phases[r]) &&
    SameShape(Writes(other[q]), Writes(phases[q])) && Frees(other[q]) == Frees(phases[q]) &&
    Calls(other[q]) == Calls(phases[q]) && |Allocs(other[q], supply)| == |Allocs(phases[q], supply)|
  }

  lemma StillSamePlaces(phases: Phases, other: Phases, q: int, supply: Supply)
    requires DifferInValues(phases, other, q, supply) && SamePlaces(phases)
    ensures SamePlaces(other)
  {
    hide Writes, Frees, Calls, Allocs;
    forall r | 0 <= r < |phases|
      ensures SameShape(Writes(other[0]), Writes(other[r]))
    {
      assert SameShape(Writes(phases[0]), Writes(phases[r]));
    }
  }

  lemma StillSameRequests(phases: Phases, other: Phases, q: int, supply: Supply)
    requires DifferInValues(phases, other, q, supply) && SameRequests(phases)
    ensures SameRequests(other)
  {
    hide Writes, Frees, Calls, Allocs, SameShape;
    forall r | 0 <= r < |phases|
      ensures Frees(other[r]) == Frees(other[0])
    {
      assert Frees(phases[r]) == Frees(phases[0]);
    }
  }

  lemma StillSameAllocations(phases: Phases, other: Phases, q: int, supply: Supply)
    requires DifferInValues(phases, other, q, supply) && SameAllocations(phases, supply)
    ensures SameAllocations(other, supply)
  {
    hide Writes, Frees, Calls, Allocs, SameShape;
    forall r | 0 <= r < |phases|
      ensures |Allocs(other[r], supply)| == |Allocs(other[0], supply)|
    {
      assert |Allocs(phases[r], supply)| == |Allocs(phases[0], supply)|;
    }
  }

  /** Neither the first nor the last phase differs. */
  lemma EndsAlike(phases: Phases, other: Phases, q: int, supply: Supply)
    requires DifferInValues(phases, other, q, supply)
    ensures |phases| == |other| >= 3 && other[0] == phases[0] && other[|other| - 1] == phases[|phases| - 1]
    ensures q < |phases| - 2 ==> other[|other| - 2] == phases[|phases| - 2]
  {
    hide Writes, Frees, Calls, Allocs, SameShape;
  }

  lemma SameInput(ibuf: Ibuf, m: Ram, m': Ram)
    requires InputFits(ibuf, m) && InputFits(ibuf, m') && (m == m' || ibuf.NoInput? || ibuf.readOnly)
    ensures InputSwitched(ibuf, m) == InputSwitched(ibuf, m')
  {
  }

  lemma StillVerified(t: Txn, phases: Phases, other: Phases, q: int, rule: Rule)
    requires AllPhasesFit(t, phases) && AllPhasesFit(t, other) && DifferInValues(phases, other, q, t.supply)
    requires q < |phases| - 2 || t.input.NoInput? || t.input.readOnly
    requires Verified(t, phases, rule)
    ensures Verified(t, other, rule)
  {
    hide Apply, Writes, Accepts, InputCorrect, InputSwitched, SamePlaces, SameCalls, SameFrees, SameAllocations,
         AllFit, DifferInValues;
    EndsAlike(phases, other, q, t.supply);
    StillSamePlaces(phases, other, q, t.supply);
    StillSameRequests(phases, other, q, t.supply);
    StillSameAllocations(phases, other, q, t.supply);
    var k := |phases| - 2;
    SameInput(t.input, Apply(t.start, Writes(phases[k])), Apply(t.start, Writes(other[k])));
  }

  /** The values written by the phases in between are never looked at: they may be anything,
      except that the second-last phase leaves the checksum of a message it may change. */
  lemma MiddleValuesUnchecked(t: Txn, phases: Phases, other: Phases, q: int, rule: Rule)
    requires AllPhasesFit(t, phases) && AllPhasesFit(t, other) && DifferInValues(phases, other, q, t.supply)
    requires q < |phases| - 2 || t.input.NoInput? || t.input.readOnly
    ensures Verified(t, phases, rule) <==> Verified(t, other, rule)
  {
    hide Verified, Writes, Frees, Calls, Allocs, AllPhasesFit;
    assert DifferInValues(other, phases, q, t.supply);
    if Verified(t, phases, rule) {
      StillVerified(t, phases, other, q, rule);
    } else if Verified(t, other, rule) {
      StillVerified(t, other, phases, q, rule);
    }
  }

  // ------------------------------------------------ a fault-free transaction

  lemma NextAnswer(h: Handler, t: Txn, full: seq<Obs>, hist: seq<Obs>)
    requires CompleteRun(h, t.start, t.supply, full) && |hist| <= |full| && hist == full[..|hist|]
    ensures |hist| < |full| <==> h(hist) != Finish
    ensures |hist| == |full| ==> hist == full
    ensures |hist| < |full| ==>
      Possible(h(hist)) && Answers(Actions(h, hist), t.start, t.supply, h(hist), full[|hist|]) &&
      hist + [full[|hist|]] == full[..|hist| + 1] && Actions(h, full)[|hist|] == h(hist) &&
      Actions(h, full)[..|hist|] == Actions(h, hist)
  {
    hide Run, Answers;
    RunPrefix(h, t.start, t.supply, full, |hist|);
    if |hist| < |full| {
      HistoryPrefix(h, full, |hist|);
    } else {
      assert hist == full;
    }
  }

  lemma RepeatsAllocation(h: Handler, t: Txn, full: seq<Obs>, k: nat)
    requires k < |full| && Actions(h, full)[k].Alloc?
    ensures |Allocs(Actions(h, full)[..k], t.supply)| < |Allocs(Actions(h, full), t.supply)|
  {
    AllocCounts(Actions(h, full), t.supply, k);
  }

  /** The next action of a handler that is `hist` into its run. */
  lemma HandlerStep(s: Sei, h: Handler, t: Txn, full: seq<Obs>, hist: seq<Obs>, phases: Phases, ph: int)
    requires CompleteRun(h, t.start, t.supply, full) && |hist| <= |full| && hist == full[..|hist|] && h(hist) != Finish
    requires 0 <= ph < |phases| && (ph > 0 ==> phases[0] == Actions(h, full))
    requires AllRoom(s, t, Actions(h, full), ph, |full|)
    ensures |hist| < |full| && Possible(h(hist)) && hist + [full[|hist|]] == full[..|hist| + 1]
    ensures var acts := Actions(h, full);
            var sofar := Upto(phases, ph, acts, |hist|);
            Room(s, t, acts[..|hist|], ph, h(hist)) && Next(sofar, ph, h(hist)) == Upto(phases, ph, acts, |hist| + 1) &&
            (h(hist).Alloc? ==> Replayed(t, sofar, ph)) &&
            Answers(acts[..|hist|], t.start, t.supply, h(hist), full[|hist|]) &&
            Calls(acts[..|hist| + 1]) == Calls(acts[..|hist|]) + (if h(hist).Defer? then [h(hist).call] else [])
  {
    hide Room, Answers, Actions, Possible, CompleteRun, Allocs, Calls, Next, Upto;
    NextAnswer(h, t, full, hist);
    UptoNext(phases, ph, Actions(h, full), |hist|);
    CallsNext(Actions(h, full), |hist|, t.supply);
    if h(hist).Alloc? { RepeatsAllocation(h, t, full, |hist|); }
  }

  /** One action of a handler, answered as it is when the handler runs on its own. */
  method HandlerAction(s: Sei, t: Txn, ghost phases: Phases, ghost ph: int, h: Handler, ghost full: seq<Obs>,
                       hist: seq<Obs>)
    returns (obs: Obs, calls: seq<Call>)
    requires CompleteRun(h, t.start, t.supply, full) && |hist| <= |full| && hist == full[..|hist|] && h(hist) != Finish
    requires 0 <= ph < |phases| && (ph > 0 ==> phases[0] == Actions(h, full))
    requires AllRoom(s, t, Actions(h, full), ph, |full|)
    requires s.p == ph && Recorded(s, t, Upto(phases, ph, Actions(h, full), |hist|))
    modifies s.cow, s.mem, s.talloc`allocations, s.talloc`size, s.tbin, s.wts, s.obuf`queue, s.obuf`done, s.obuf`part
    ensures |hist| < |full| && obs == full[|hist|] && hist + [obs] == full[..|hist| + 1]
    ensures Recorded(s, t, Upto(phases, ph, Actions(h, full), |hist| + 1))
    ensures ph < 2 ==> calls == []
    ensures ph >= 2 ==> Calls(Actions(h, full)[..|hist| + 1]) == Calls(Actions(h, full)[..|hist|]) + calls
  {
    hide Recorded, Room, Next, Upto, Answers, Actions, Possible, CompleteRun, Calls, AllRoom, Replayed;
    HandlerStep(s, h, t, full, hist, phases, ph);
    var ok;
    ok, obs, calls := Perform(s, t, Upto(phases, ph, Actions(h, full), |hist|), ph, h(hist));
    OneAnswer(Actions(h, full)[..|hist|], t.start, t.supply, h(hist), obs, full[|hist|]);
  }

  /** The current phase runs the handler: it observes, and so does, what the handler does on
      its own. */
  method RunHandler(s: Sei, t: Txn, ghost phases: Phases, ghost ph: int, h: Handler, ghost full: seq<Obs>)
    returns (made: seq<Call>)
    requires 0 <= ph < |phases| && phases[ph] == [] && (ph > 0 ==> phases[0] == Actions(h, full))
    requires CompleteRun(h, t.start, t.supply, full) && AllRoom(s, t, Actions(h, full), ph, |full|)
    requires s.p == ph && Recorded(s, t, phases)
    modifies s.cow, s.mem, s.talloc`allocations, s.talloc`size, s.tbin, s.wts, s.obuf`queue, s.obuf`done, s.obuf`part
    ensures Recorded(s, t, phases[ph := Actions(h, full)])
    ensures made == if ph < 2 then [] else Calls(Actions(h, full))
  {
    hide Recorded, Room, Next, Upto, Answers, Actions, Possible, CompleteRun, Calls, AllRoom, Replayed;
    ghost var acts := Actions(h, full);
    made := [];
    var hist: seq<Obs> := [];
    NextAnswer(h, t, full, []);
    PhaseStart(s, t, phases, ph, acts);
    while h(hist) != Finish
      invariant |hist| <= |full| && hist == full[..|hist|]
      invariant Recorded(s, t, Upto(phases, ph, acts, |hist|))
      invariant made == if ph < 2 then [] else Calls(acts[..|hist|])
      decreases |full| - |hist|
    {
      var obs, calls := HandlerAction(s, t, phases, ph, h, full, hist);
      made := made + calls;
      hist := hist + [obs];
    }
    NextAnswer(h, t, full, hist);
    PhaseStart(s, t, phases, ph, acts);
  }

  function Repeated(acts: seq<Action>, level: nat): (r: Phases)
    ensures |r| == level && forall q :: 0 <= q < level ==> r[q] == acts
  {
    seq(level, _ => acts)
  }

  /** When a handler whose run on its own is `acts` commits. */
  ghost predicate Passes(t: Txn, acts: seq<Action>, level: nat, rule: Rule)
    requires AllFit(t.start, Writes(acts)) && InputFits(t.input, t.start)
  {
    SelfAccepted(rule, MAX_CONFLICTS, t.start, Writes(acts)) && 0 !in Frees(acts) &&
    (level == 2 || Calls(acts) == []) && InputKept(t.input, Apply(t.start, Writes(acts)))
  }

  /** The frees before the first of NULL. */
  function UptoNull(ptrs: seq<nat>): (freed: seq<nat>)
    ensures freed <= ptrs && 0 !in freed && (0 !in ptrs ==> freed == ptrs)
    ensures |freed| < |ptrs| ==> ptrs[|freed|] == 0
  {
    if ptrs == [] || ptrs[0] == 0 then [] else [ptrs[0]] + UptoNull(ptrs[1..])
  }

  /** The commit of a handler whose run on its own is `acts` gets as far as making calls, without
      the checks of the build that can retry. */
  ghost predicate Proceeds(t: Txn, acts: seq<Action>, level: nat, rule: Rule)
    requires AllFit(t.start, Writes(acts))
  {
    SelfAccepted(rule, MAX_CONFLICTS, t.start, Writes(acts)) && (level == 2 || Calls(acts) == [])
  }

  /** How the transaction of such a handler ends. */
  ghost function PlainEnding(t: Txn, acts: seq<Action>, level: nat, rule: Rule, isolated: bool): (e: Ending)
    requires AllFit(t.start, Writes(acts)) && InputFits(t.input, t.start)
  {
    if Passes(t, acts, level, rule) then Committed(Calls(acts), Frees(acts))
    else if !isolated && Proceeds(t, acts, level, rule) then Stopped(Calls(acts), UptoNull(Frees(acts)))
    else NOTHING_DONE
  }

  /** Without faults a transaction that does not commit has had effects exactly in the build that
      cannot retry, if the comparison accepts, there was something to do, and NULL was freed or
      the input changed. */
  lemma PlainStopsWithEffectsExactly(t: Txn, acts: seq<Action>, level: nat, rule: Rule, isolated: bool)
    requires AllFit(t.start, Writes(acts)) && InputFits(t.input, t.start)
    ensures var e := PlainEnding(t, acts, level, rule, isolated);
            e.Stopped? && (e.calls != [] || e.frees != []) <==>
            !isolated && Proceeds(t, acts, level, rule) && (Calls(acts) != [] || UptoNull(Frees(acts)) != []) &&
            (0 in Frees(acts) || !InputKept(t.input, Apply(t.start, Writes(acts))))
  {
    hide SelfAccepted, Calls, Frees, InputKept, Apply, Writes, UptoNull;
  }

  /** A handler that defers a call, frees NULL and finishes. */
  function CallThenFreeNull(call: Call): Handler {
    (hist: seq<Obs>) => if |hist| == 0 then Defer(call) else if |hist| == 1 then Release(0) else Finish
  }

  lemma CallThenFreeNullRuns(t: Txn, call: Call)
    requires call.func != 0
    ensures CompleteRun(CallThenFreeNull(call), t.start, t.supply, [Unit, Unit])
    ensures Actions(CallThenFreeNull(call), [Unit, Unit]) == [Defer(call), Release(0)]
  {
    hide Run, Actions, Writes, Allocs, Apply;
    var h := CallThenFreeNull(call);
    RunNothing(h, t.start, t.supply);
    RunSnoc(h, t.start, t.supply, [], Unit);
    HistorySnoc(h, [], Unit);
    assert [] + [Unit] == [Unit];
    RunSnoc(h, t.start, t.supply, [Unit], Unit);
    HistorySnoc(h, [Unit], Unit);
    assert [Unit] + [Unit] == [Unit, Unit];
  }

  lemma CallThenFreeNullDoes(call: Call, supply: Supply)
    ensures var acts := [Defer(call), Release(0)];
            Writes(acts) == [] && Calls(acts) == [call] && Frees(acts) == [0]
  {
    NoActions(supply);
    ActionsSnoc([], Defer(call), supply);
    ActionsSnoc([Defer(call)], Release(0), supply);
    hide Writes, Calls, Frees, Allocs, Messages;
    assert [] + [Defer(call)] == [Defer(call)] && [Defer(call)] + [Release(0)] == [Defer(call), Release(0)];
  }

  lemma NothingConflicts(rule: Rule, m: Ram)
    ensures SelfAccepted(rule, MAX_CONFLICTS, m, [])
  {
    assert Conflicts([], Apply(m, [])) == {};
  }

  /** With two phases and no retrying its call is made, and then the process stops. */
  lemma CallMadeThenStopped(t: Txn, call: Call)
    requires call.func != 0 && InputFits(t.input, t.start)
    ensures var h, full := CallThenFreeNull(call), [Unit, Unit];
            CompleteRun(h, t.start, t.supply, full) && AllFit(t.start, Writes(Actions(h, full))) &&
            PlainEnding(t, Actions(h, full), 2, LaterEntry, false) == Stopped([call], [])
  {
    hide CompleteRun, Actions, Writes, Calls, Frees, SelfAccepted;
    CallThenFreeNullRuns(t, call);
    CallThenFreeNullDoes(call, t.supply);
    NothingConflicts(LaterEntry, t.start);
  }

  lemma {:induction false} RepeatedFirstBad(lists: seq<seq<nat>>, i: nat)
    requires lists != [] && Agree(lists) && SameCounts(lists) && i <= |lists[0]|
    ensures FirstBad(lists, i) == i + |UptoNull(lists[0][i..])|
    decreases |lists[0]| - i
  {
    if i == |lists[0]| || lists[0][i] == 0 {
    } else {
      RepeatedFirstBad(lists, i + 1);
      assert SamePointer(lists, i);
      assert lists[0][i..][1..] == lists[0][i + 1..];
    }
  }

  lemma RepeatedFrees(acts: seq<Action>, level: nat)
    requires level >= 2
    ensures FreesDone(FreeLists(Repeated(acts, level))) == UptoNull(Frees(acts))
  {
    hide Frees;
    var lists := FreeLists(Repeated(acts, level));
    assert lists[0] == Frees(acts) && lists[0][0..] == lists[0];
    RepeatedFirstBad(lists, 0);
  }

  lemma RepeatedEnding(t: Txn, acts: seq<Action>, level: nat, rule: Rule, isolated: bool)
    requires level >= 2 && AllFit(t.start, Writes(acts)) && InputFits(t.input, t.start)
    ensures AllPhasesFit(t, Repeated(acts, level))
    ensures CommitEnding(t, Repeated(acts, level), rule, isolated) == PlainEnding(t, acts, level, rule, isolated)
  {
    hide Apply, Writes, Accepts, InputCorrect, InputSwitched, InputKept, Frees, Calls, Allocs, SameShape, FreesDone,
         FreeLists, UptoNull;
    RepeatedVerified(t, acts, level, rule);
    RepeatedFrees(acts, level);
    ShapeReflexive(Writes(acts));
    InputAfterSwitches(t.input, Apply(t.start, Writes(acts)), Apply(t.start, Writes(acts)));
  }

  lemma RepeatedVerified(t: Txn, acts: seq<Action>, level: nat, rule: Rule)
    requires level >= 2 && AllFit(t.start, Writes(acts)) && InputFits(t.input, t.start)
    ensures AllPhasesFit(t, Repeated(acts, level))
    ensures Verified(t, Repeated(acts, level), rule) <==> Passes(t, acts, level, rule)
  {
    hide Apply, Writes, Accepts, InputCorrect, InputSwitched, InputKept, Frees, Calls, Allocs, SameShape;
    ShapeReflexive(Writes(acts));
    InputAfterSwitches(t.input, Apply(t.start, Writes(acts)), Apply(t.start, Writes(acts)));
  }

  /** Phases after the first need no more room than it does. */
  lemma RoomLater(s: Sei, t: Txn, acts: seq<Action>, ph: nat)
    requires AllRoom(s, t, acts, 0, |acts|)
    ensures AllRoom(s, t, acts, ph, |acts|)
  {
    forall k | 0 <= k < |acts|
      ensures Room(s, t, acts[..k], ph, acts[k])
    {
      assert Room(s, t, acts[..k], 0, acts[k]);
    }
  }

  /** Every phase runs the handler, from the same memory. */
  method RunHandlerPhases(s: Sei, t: Txn, h: Handler, ghost full: seq<Obs>) returns (made: seq<Call>)
    requires CompleteRun(h, t.start, t.supply, full) && AllRoom(s, t, Actions(h, full), 0, |full|)
    requires s.p == 0 && Recorded(s, t, Repeated([], s.level))
    modifies s`p, s`ibuf, s.talloc, s.obuf, s.cow, s.mem, s.tbin, s.wts
    ensures s.p == s.level - 1 && Recorded(s, t, Repeated(Actions(h, full), s.level))
    ensures made == LateCalls(Repeated(Actions(h, full), s.level), s.level)
  {
    hide Recorded, AllRoom, Calls, LateCalls, Partial, Actions, CompleteRun, Repeated;
    ghost var acts := Actions(h, full);
    ghost var work := Repeated(acts, s.level);
    made := [];
    RecordedBounds(s, t, Repeated([], s.level));
    assert Partial(work, 0, s.level) == Repeated([], s.level);
    for i := 0 to s.level
      invariant s.p == if i == 0 then 0 else i - 1
      invariant Recorded(s, t, Partial(work, i, s.level))
      invariant made == LateCalls(work, i)
    {
      if i > 0 {
        NextPhase(s, t, Partial(work, i, s.level), i - 1);
      }
      PartialNext(work, i, s.level);
      RoomLater(s, t, acts, i);
      var calls := RunHandler(s, t, Partial(work, i, s.level), i, h, full);
      LateCallsNext(work, i);
      made := made + calls;
    }
    assert Partial(work, s.level, s.level) == work;
  }

  lemma {:induction false} NoLateCalls(acts: seq<Action>, level: nat, n: nat)
    requires n <= level
    ensures LateCalls(Repeated(acts, level), n) == [] <==> n <= 2 || Calls(acts) == []
  {
    hide Calls;
    if n <= 2 {
    } else {
      NoLateCalls(acts, level, n - 1);
    }
  }

  /** The whole transaction, without faults.  It commits exactly when `Passes` says so; then
      memory, calls, frees and messages are those of one run of the handler on its own.  If it
      does not, `PlainEnding` says what had been done when the process stopped. */
  method Execute(s: Sei, t: Txn, h: Handler, isolated: bool, ghost full: seq<Obs>) returns (r: Ending, made: seq<Call>)
    requires CompleteRun(h, t.start, t.supply, full) && AllRoom(s, t, Actions(h, full), 0, |full|)
    requires s.mem[..] == t.start && s.ibuf == t.input && InputFits(t.input, t.start) && s.Idle(t.waiting)
    modifies s, s.cow, s.mem, s.talloc, s.tbin, s.wts, s.obuf
    ensures AllFit(t.start, Writes(Actions(h, full)))
    ensures r.Committed? <==> Passes(t, Actions(h, full), s.level, s.Rule(isolated))
    ensures r == PlainEnding(t, Actions(h, full), s.level, s.Rule(isolated), isolated)
    ensures r.Committed? ==> s.mem[..] == Apply(t.start, Writes(Actions(h, full)))
    ensures r.Committed? ==> s.Valid() && s.p == -1 && s.Emptied() && s.obuf.p == 0
    ensures r.Committed? ==> ObufAt(s, t, Repeated(Actions(h, full), s.level)) && made == []
    ensures made == LateCalls(Repeated(Actions(h, full), s.level), s.level)
  {
    hide Recorded, AllRoom, Calls, LateCalls, Verified, Passes, Proceeds, ObufAt, Sei.Emptied, Sei.Begun, Sei.Idle,
         Frees, Apply, Writes, AllPhasesFit, Sei.Valid, Actions, CompleteRun, Repeated, AllFit, CommitEnding,
         UptoNull;
    ghost var acts := Actions(h, full);
    ghost var work := Repeated(acts, s.level);
    IdleLevel(s, t.waiting);
    RunOf(h, t, full);
    s.Begin(t.waiting);
    Start(s, t, Repeated([], s.level));
    BegunPhase(s, t.waiting);
    made := RunHandlerPhases(s, t, h, full);
    NoLateCalls(acts, s.level, s.level);
    RepeatedEnding(t, acts, s.level, s.Rule(isolated), isolated);
    r := Conclude(s, isolated, t, work);
    assert r.Committed? ==> s.level == 2 || Calls(acts) == [] by { PassesCalls(t, acts, s.level, s.Rule(isolated)); }
  }

  lemma RunOf(h: Handler, t: Txn, full: seq<Obs>)
    requires CompleteRun(h, t.start, t.supply, full)
    ensures AllFit(t.start, Writes(Actions(h, full)))
  {
    RunFits(h, t.start, t.supply, full);
  }

  lemma PassesCalls(t: Txn, acts: seq<Action>, level: nat, rule: Rule)
    requires AllFit(t.start, Writes(acts)) && InputFits(t.input, t.start)
    ensures Passes(t, acts, level, rule) ==> level == 2 || Calls(acts) == []
  {
  }

  /** For accesses that are disjoint or identical it commits, under either rule, if no more of
      them are superseded than the conflict table holds. */
  lemma SeparateAccessesPass(t: Txn, acts: seq<Action>, level: nat, rule: Rule)
    requires AllFit(t.start, Writes(acts)) && InputFits(t.input, t.start)
    requires DisjointOrIdentical(Writes(acts)) && NonEmptyValues(Writes(acts))
    requires |DisturbedEntries(Writes(acts))| <= MAX_CONFLICTS && 0 !in Frees(acts)
    requires (level == 2 || Calls(acts) == []) && InputKept(t.input, Apply(t.start, Writes(acts)))
    ensures Passes(t, acts, level, rule)
  {
    hide Apply, Writes, DisjointOrIdentical, NonEmptyValues, InputKept, DisturbedEntries, LastWritersChecked;
    DisjointOrIdenticalIsChecked(Writes(acts));
    AnyEntryChecksExactlyWithoutRepeats(Writes(acts));
    UndisturbedRunsPass(rule, MAX_CONFLICTS, t.start, Writes(acts));
  }
}
