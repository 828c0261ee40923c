/** A handler that has the machine to itself commits: from any quiet state of any run, a guarded
    handler whose own run completes, taking no mutex twice, goes through all its phases and leaves
    with exactly its writes done and all mutexes free. */
module TwoPhaseAlone {
  import opened TwoPhase
  import opened TwoPhaseProgress

  /** What the mutexes answer a handler that runs alone: a lock or trylock succeeds exactly if the
      handler has not taken the mutex before, and it never waits for itself. */
  ghost predicate MutexesAnswer(h: Handler, mutexes: nat, hist: seq<Obs>) {
    forall n :: 0 <= n < |hist| ==> MutexAnswers(h, mutexes, hist[..n], hist[n])
  }

  ghost predicate MutexAnswers(h: Handler, mutexes: nat, past: seq<Obs>, obs: Obs) {
    match h(past)
    case Lock(l) => l < mutexes && Taken(l, true) !in Locks(h, past)
    case TryLock(l) => l < mutexes && obs == Outcome(Taken(l, true) !in Locks(h, past))
    case _ => true
  }

  predicate Quiet(s: State) {
    forall t :: 0 <= t < |s.threads| ==> s.threads[t].stage.Outside?
  }

  predicate OthersOutside(s: State, t: nat) {
    t < |s.threads| && forall u :: 0 <= u < |s.threads| && u != t ==> s.threads[u].stage.Outside?
  }

  /** Thread t is somewhere in the transaction in which h observes hist. */
  ghost predicate OnTrack(level: nat, s: State, t: nat, h: Handler, hist: seq<Obs>, before: seq<Commit>)
    requires t < |s.threads|
  {
    var th := s.threads[t];
    match th.stage
    case Outside => s.committed == before + [Commit(h, hist)]
    case Phase(ph) =>
      ph < level && th.h == h && s.committed == before && th.hist <= hist && (ph > 0 ==> th.full == hist)
    case Rewinding(ph, _) => ph + 1 < level && th.h == h && s.committed == before && th.full == hist
    case Releasing(_) => s.committed == before + [Commit(h, hist)]
  }

  // ------------------------------------------------------------- single steps

  lemma RunSnoc(level: nat, guard: seq<Guard>, states: seq<State>, steps: seq<Step>, t: nat, e: Event)
    requires Run(level, guard, states, steps) && Enabled(level, guard, states[|steps|], t, e)
    ensures Run(level, guard, states + [After(level, guard, states[|steps|], t, e)], steps + [Step(t, e)])
  {
    hide Enabled, After;
  }

  lemma FreeUnlessTaken(s: State, t: nat, l: nat)
    requires LockInv(s) && OthersOutside(s, t) && l < |s.owner|
    ensures s.owner[l] < 0 <==> Taken(l, true) !in Outstanding(s.threads[t])
  {
    if s.owner[l] >= 0 {
      assert Taken(l, true) in Outstanding(s.threads[s.owner[l]]);
    }
  }

  /** The mutexes free for thread t are those it has not taken. */
  lemma FirstPhaseMutex(guard: seq<Guard>, s: State, m: seq<int>, t: nat, l: nat)
    requires Inv(guard, s, m) && OthersOutside(s, t) && s.threads[t].stage == Phase(0) && l < |s.owner|
    ensures s.owner[l] < 0 <==> Taken(l, true) !in Locks(s.threads[t].h, s.threads[t].hist)
  {
    hide MemoryInv, Guarded, Writes, Locks, Put, Replaced, Follows;
    assert ThreadInv(guard, m, t, s.threads[t]);
    FreeUnlessTaken(s, t, l);
  }

  /** The state answers the handler's next action with obs. */
  ghost predicate StateAnswers(s: State, t: nat, obs: Obs)
    requires t < |s.threads|
  {
    match s.threads[t].h(s.threads[t].hist)
    case Read(x) => x < |s.mem| && obs == Value(s.mem[x])
    case Write(x, _) => x < |s.mem| && obs == Unit
    case Lock(l) => l < |s.owner| && s.owner[l] < 0 && obs == Outcome(true)
    case TryLock(l) => l < |s.owner| && obs == Outcome(s.owner[l] < 0)
    case Unlock(_) => obs == Unit
    case Finish => false
  }

  lemma FirstPhaseAnswers(guard: seq<Guard>, s: State, m: seq<int>, t: nat, obs: Obs)
    requires Inv(guard, s, m) && OthersOutside(s, t) && s.threads[t].stage == Phase(0)
    requires var th := s.threads[t];
             Answers(th.h, m, th.hist, obs) && MutexAnswers(th.h, |s.owner|, th.hist, obs)
    ensures StateAnswers(s, t, obs)
  {
    hide Inv, Writes, Put, Locks;
    SameSize(guard, s, m);
    var a := s.threads[t].h(s.threads[t].hist);
    if Place(a) >= 0 {
      ReadsSerial(guard, s, m, t);
    } else if a.Lock? || a.TryLock? {
      FirstPhaseMutex(guard, s, m, t, a.l);
    }
  }

  /** In the first phase a lock or trylock takes the mutex, for this thread, exactly when it is free;
      a trylock of a mutex that is held fails and leaves its owner. */
  lemma MutexTakenExactlyWhenFree(level: nat, guard: seq<Guard>, s: State, t: nat, l: nat)
    requires t < |s.threads| && s.threads[t].stage == Phase(0) && l < |s.owner|
    requires var a := s.threads[t].h(s.threads[t].hist); a == Lock(l) || a == TryLock(l)
    ensures Enabled(level, guard, s, t, Act) <==> s.owner[l] < 0 || s.threads[t].h(s.threads[t].hist).TryLock?
    ensures Enabled(level, guard, s, t, Act) ==>
            var s', th := After(level, guard, s, t, Act), s.threads[t];
            s'.owner == (if s.owner[l] < 0 then s.owner[l := t] else s.owner) && s'.mem == s.mem &&
            s'.threads[t].hist == th.hist + [Outcome(s.owner[l] < 0)] &&
            s'.threads[t].locks == th.locks + [Taken(l, s.owner[l] < 0)]
  {
    hide Guarded;
  }

  /** Thread t is still in its first phase and has now observed hist; no other thread has moved. */
  ghost predicate Observed(s: State, s': State, t: nat, hist: seq<Obs>)
    requires t < |s.threads|
  {
    |s'.threads| == |s.threads| && s'.threads == s.threads[t := s'.threads[t]] && s'.committed == s.committed &&
    |s'.owner| == |s.owner| && s'.threads[t].stage == Phase(0) && s'.threads[t].h == s.threads[t].h &&
    s'.threads[t].hist == hist
  }

  lemma ObservesAnswer(level: nat, guard: seq<Guard>, s: State, t: nat, obs: Obs)
    requires t < |s.threads| && s.threads[t].stage == Phase(0) && StateAnswers(s, t, obs)
    ensures Enabled(level, guard, s, t, Act)
    ensures Observed(s, After(level, guard, s, t, Act), t, s.threads[t].hist + [obs])
  {
    hide Guarded;
  }

  lemma OneMore(hist: seq<Obs>, n: nat)
    requires n < |hist|
    ensures hist[..n + 1] == hist[..n] + [hist[n]]
  {
  }

  lemma NextAnswer(h: Handler, m: seq<int>, mutexes: nat, hist: seq<Obs>, n: nat)
    requires n < |hist| && Follows(h, m, hist) && MutexesAnswer(h, mutexes, hist)
    ensures Answers(h, m, hist[..n], hist[n]) && MutexAnswers(h, mutexes, hist[..n], hist[n])
  {
    hide Answers, MutexAnswers, Follows;
    FollowsPrefix(h, m, hist, n);
  }

  /** The first phase observes what the handler would observe on its own. */
  lemma FirstPhaseStep(level: nat, guard: seq<Guard>, s: State, m: seq<int>, t: nat, hist: seq<Obs>)
    requires Inv(guard, s, m) && OthersOutside(s, t) && s.threads[t].stage == Phase(0)
    requires |s.threads[t].hist| < |hist| && s.threads[t].hist == hist[..|s.threads[t].hist|]
    requires Follows(s.threads[t].h, m, hist) && MutexesAnswer(s.threads[t].h, |s.owner|, hist)
    ensures Enabled(level, guard, s, t, Act)
    ensures Observed(s, After(level, guard, s, t, Act), t, hist[..|s.threads[t].hist| + 1])
  {
    hide Inv, MutexesAnswer, MutexAnswers, Answers, Follows, StateAnswers, Enabled, After, Observed;
    var n := |s.threads[t].hist|;
    NextAnswer(s.threads[t].h, m, |s.owner|, hist, n);
    OneMore(hist, n);
    FirstPhaseAnswers(guard, s, m, t, hist[n]);
    ObservesAnswer(level, guard, s, t, hist[n]);
  }

  /** How far thread t is from the end of its transaction: the stages to come, then what is left of
      the current one. */
  function Rank(level: nat, th: Thread): nat {
    match th.stage
    case Outside => 0
    case Releasing(_) => 1
    case Rewinding(ph, _) => if ph < level then 2 * (level - ph) else 0
    case Phase(ph) => if ph < level then 2 * (level - ph) + 1 else 0
  }

  function Left(th: Thread, n: nat): nat {
    match th.stage
    case Outside => 0
    case Releasing(next) => if next < |th.locks| then |th.locks| - next else 0
    case Rewinding(_, left) => left
    case Phase(_) => if |th.hist| < n then n - |th.hist| else 0
  }

  /** The step brings thread t closer to the end, and changes no other thread. */
  ghost predicate Closer(level: nat, guard: seq<Guard>, s: State, t: nat, e: Event, h: Handler, hist: seq<Obs>,
                         before: seq<Commit>)
    requires t < |s.threads|
  {
    Enabled(level, guard, s, t, e) &&
    var s' := After(level, guard, s, t, e);
    |s'.owner| == |s.owner| && |s'.threads| == |s.threads| && OthersOutside(s', t) &&
    OnTrack(level, s', t, h, hist, before) &&
    (Rank(level, s'.threads[t]) < Rank(level, s.threads[t]) ||
     (Rank(level, s'.threads[t]) == Rank(level, s.threads[t]) &&
      Left(s'.threads[t], |hist|) < Left(s.threads[t], |hist|)))
  }

  lemma FirstPhaseCloser(level: nat, guard: seq<Guard>, s: State, m: seq<int>, t: nat, h: Handler, hist: seq<Obs>,
                         before: seq<Commit>)
    requires Inv(guard, s, m) && OthersOutside(s, t) && OnTrack(level, s, t, h, hist, before)
    requires s.threads[t].stage == Phase(0) && |s.threads[t].hist| < |hist|
    requires Completes(h, m, hist) && MutexesAnswer(h, |s.owner|, hist)
    ensures Closer(level, guard, s, t, Act, h, hist, before)
  {
    hide Inv, MutexesAnswer, Enabled, After, Follows;
    FirstPhaseStep(level, guard, s, m, t, hist);
  }

  /** The end of a phase. */
  lemma PhaseEndsCloser(level: nat, guard: seq<Guard>, s: State, m: seq<int>, t: nat, h: Handler, hist: seq<Obs>,
                        before: seq<Commit>)
    requires Inv(guard, s, m) && OthersOutside(s, t) && OnTrack(level, s, t, h, hist, before)
    requires s.threads[t].stage.Phase? && s.threads[t].hist == hist && Completes(h, m, hist)
    ensures Closer(level, guard, s, t, if s.threads[t].stage.ph + 1 < level then EndPhase else CommitAll, h, hist,
                   before)
  {
    hide Inv, Guarded, Follows;
  }

  lemma ReleaseCloser(level: nat, guard: seq<Guard>, s: State, t: nat, h: Handler, hist: seq<Obs>, before: seq<Commit>)
    requires OthersOutside(s, t) && OnTrack(level, s, t, h, hist, before) && s.threads[t].stage.Releasing?
    ensures Closer(level, guard, s, t, if s.threads[t].stage.next < |s.threads[t].locks| then LateUnlock else Leave,
                   h, hist, before)
  {
    hide Guarded;
  }

  lemma RewindCloser(level: nat, guard: seq<Guard>, s: State, t: nat, h: Handler, hist: seq<Obs>, before: seq<Commit>,
                     e: Event)
    requires OthersOutside(s, t) && OnTrack(level, s, t, h, hist, before) && s.threads[t].stage.Rewinding?
    requires (e == UndoOne || e == NextPhase) && Enabled(level, guard, s, t, e)
    ensures Closer(level, guard, s, t, e, h, hist, before)
  {
    hide Guarded;
  }

  lemma NotFinished(h: Handler, m: seq<int>, hist: seq<Obs>, n: nat)
    requires Completes(h, m, hist) && n < |hist|
    ensures h(hist[..n]) != Finish
  {
    FollowsPrefix(h, m, hist, n);
  }

  lemma ActOneMore(s: State, t: nat)
    requires t < |s.threads| && s.threads[t].stage.Phase? && CanAct(s, t) && s.threads[t].stage.ph > 0
    ensures var th, s' := s.threads[t], AfterAct(s, t);
            s'.threads == s.threads[t := s'.threads[t]] && s'.committed == s.committed && |s'.owner| == |s.owner| &&
            s'.threads[t].stage == th.stage && s'.threads[t].h == th.h && s'.threads[t].full == th.full &&
            |s'.threads[t].hist| == |th.hist| + 1
  {
  }

  /** A later phase goes on along the first one. */
  lemma LaterPhaseCloser(level: nat, guard: seq<Guard>, s: State, m: seq<int>, t: nat, h: Handler, hist: seq<Obs>,
                         before: seq<Commit>)
    requires Inv(guard, s, m) && OthersOutside(s, t) && OnTrack(level, s, t, h, hist, before)
    requires s.threads[t].stage.Phase? && s.threads[t].stage.ph > 0 && |s.threads[t].hist| < |hist| && CanAct(s, t)
    ensures Closer(level, guard, s, t, Act, h, hist, before)
  {
    hide Guarded, Writes, Locks, Put, Replaced, MemoryInv, LockInv, Follows, CanAct;
    ActKeeps(guard, s, m, t);
    ActOneMore(s, t);
    var s' := AfterAct(s, t);
    assert ThreadInv(guard, m, t, s'.threads[t]);
    hide AfterAct, Inv;
  }

  // ------------------------------------------------------- to the end

  /** The situation of thread t in the last state of a run. */
  ghost predicate Situation(level: nat, guard: seq<Guard>, states: seq<State>, steps: seq<Step>, t: nat, h: Handler,
                            hist: seq<Obs>, before: seq<Commit>) {
    level >= 2 && Run(level, guard, states, steps) && Initial(guard, states[0]) && OthersOutside(states[|steps|], t) &&
    OnTrack(level, states[|steps|], t, h, hist, before) && Completes(h, SerialMemory(states[0].mem, before), hist) &&
    MutexesAnswer(h, |states[|steps|].owner|, hist)
  }

  lemma NextInPhase(level: nat, guard: seq<Guard>, states: seq<State>, steps: seq<Step>, t: nat, h: Handler,
                    hist: seq<Obs>, before: seq<Commit>) returns (e: Event)
    requires Situation(level, guard, states, steps, t, h, hist, before) && states[|steps|].threads[t].stage.Phase?
    ensures Closer(level, guard, states[|steps|], t, e, h, hist, before)
  {
    hide Inv, Enabled, After, SerialOrder, SerialMemory, Completes, MutexesAnswer, Closer, CanAct;
    var s := states[|steps|];
    var th, m := s.threads[t], SerialMemory(states[0].mem, before);
    SerializableInCommitOrder(level, guard, states, steps, |steps|);
    if th.hist == hist {
      PhaseEndsCloser(level, guard, s, m, t, h, hist, before);
      e := if th.stage.ph + 1 < level then EndPhase else CommitAll;
    } else {
      assert th.hist == hist[..|th.hist|] && |th.hist| < |hist|;
      e := Act;
      if th.stage.ph == 0 {
        FirstPhaseCloser(level, guard, s, m, t, h, hist, before);
      } else {
        NotFinished(h, m, hist, |th.hist|);
        LaterPhasesRetrace(level, guard, states, steps, |steps|, t);
        LaterPhaseCloser(level, guard, s, m, t, h, hist, before);
      }
    }
  }

  lemma NextEvent(level: nat, guard: seq<Guard>, states: seq<State>, steps: seq<Step>, t: nat, h: Handler,
                  hist: seq<Obs>, before: seq<Commit>) returns (e: Event)
    requires Situation(level, guard, states, steps, t, h, hist, before) && !states[|steps|].threads[t].stage.Outside?
    ensures Closer(level, guard, states[|steps|], t, e, h, hist, before)
  {
    hide Inv, Enabled, After, SerialOrder, SerialMemory, Completes, MutexesAnswer, Closer;
    var s := states[|steps|];
    match s.threads[t].stage
    case Phase(_) => e := NextInPhase(level, guard, states, steps, t, h, hist, before);
    case Rewinding(_, _) =>
      RewindGoesOn(level, guard, states, steps, |steps|, t);
      e := if Enabled(level, guard, s, t, UndoOne) then UndoOne else NextPhase;
      RewindCloser(level, guard, s, t, h, hist, before, e);
    case Releasing(next) =>
      ReleaseCloser(level, guard, s, t, h, hist, before);
      e := if next < |s.threads[t].locks| then LateUnlock else Leave;
  }

  lemma SituationNext(level: nat, guard: seq<Guard>, states: seq<State>, steps: seq<Step>, t: nat, h: Handler,
                      hist: seq<Obs>, before: seq<Commit>, e: Event)
    requires Situation(level, guard, states, steps, t, h, hist, before)
    requires Closer(level, guard, states[|steps|], t, e, h, hist, before)
    ensures Situation(level, guard, states + [After(level, guard, states[|steps|], t, e)], steps + [Step(t, e)], t, h,
                      hist, before)
  {
    hide Enabled, After, SerialMemory, Completes, MutexesAnswer, OnTrack, OthersOutside, Initial;
    RunSnoc(level, guard, states, steps, t, e);
    hide Run;
  }

  lemma {:induction false} GoesToTheEnd(level: nat, guard: seq<Guard>, states: seq<State>, steps: seq<Step>, t: nat,
                                        h: Handler, hist: seq<Obs>, before: seq<Commit>)
    returns (states': seq<State>, steps': seq<Step>)
    requires Situation(level, guard, states, steps, t, h, hist, before)
    ensures Situation(level, guard, states', steps', t, h, hist, before)
    ensures states <= states' && steps <= steps' && states'[|steps'|].threads[t].stage.Outside?
    ensures forall k :: |steps| <= k < |steps'| ==> steps'[k].t == t
    ensures |states'[|steps'|].owner| == |states[|steps|].owner|
    ensures |states'[|steps'|].threads| == |states[|steps|].threads|
    decreases Rank(level, states[|steps|].threads[t]), Left(states[|steps|].threads[t], |hist|)
  {
    if states[|steps|].threads[t].stage.Outside? {
      states', steps' := states, steps;
    } else {
      var e := NextEvent(level, guard, states, steps, t, h, hist, before);
      SituationNext(level, guard, states, steps, t, h, hist, before, e);
      hide Enabled, After, SerialMemory, Completes, MutexesAnswer, OnTrack, Initial, Run;
      var next := After(level, guard, states[|steps|], t, e);
      states', steps' := GoesToTheEnd(level, guard, states + [next], steps + [Step(t, e)], t, h, hist, before);
    }
  }

  /** All threads outside: all mutexes are free. */
  lemma QuietMutexesFree(guard: seq<Guard>, s: State, m: seq<int>, l: nat)
    requires Inv(guard, s, m) && Quiet(s) && l < |s.owner|
    ensures s.owner[l] == -1
  {
    hide MemoryInv, ThreadInv;
    if s.threads != [] {
      FreeUnlessTaken(s, 0, l);
    }
  }

  lemma Begins(level: nat, guard: seq<Guard>, states: seq<State>, steps: seq<Step>, t: nat, h: Handler, hist: seq<Obs>)
    requires level >= 2 && Run(level, guard, states, steps) && Initial(guard, states[0]) && Quiet(states[|steps|])
    requires t < |states[|steps|].threads| && Guarded(guard, t, h) && Completes(h, states[|steps|].mem, hist)
    requires MutexesAnswer(h, |states[|steps|].owner|, hist)
    ensures var s := states[|steps|];
            Enabled(level, guard, s, t, Begin(h)) &&
            var s' := After(level, guard, s, t, Begin(h));
            |s'.owner| == |s.owner| && |s'.threads| == |s.threads| &&
            Situation(level, guard, states + [s'], steps + [Step(t, Begin(h))], t, h, hist, s.committed)
  {
    hide SerialMemory, Completes, MutexesAnswer, Initial, Guarded;
    QuietMemoryIsSerial(level, guard, states, steps, |steps|);
    RunSnoc(level, guard, states, steps, t, Begin(h));
    hide Run;
  }

  lemma EndsWith(init: seq<int>, before: seq<Commit>, h: Handler, hist: seq<Obs>)
    requires Completes(h, SerialMemory(init, before), hist)
    ensures InMemory(SerialMemory(init, before), Writes(h, hist))
    ensures SerialMemory(init, before + [Commit(h, hist)]) == Put(SerialMemory(init, before), Writes(h, hist))
  {
    hide Put, Writes, Follows;
    FollowsInMemory(h, SerialMemory(init, before), hist);
    assert (before + [Commit(h, hist)])[..|before|] == before;
  }

  /** From a quiet state thread t alone can run the handler to its commit and out again.  Memory then
      holds the handler's writes, all mutexes are free, and what it observed is on record. */
  lemma CommitsAlone(level: nat, guard: seq<Guard>, states: seq<State>, steps: seq<Step>, t: nat, h: Handler,
                     hist: seq<Obs>)
    returns (states': seq<State>, steps': seq<Step>)
    requires level >= 2 && Run(level, guard, states, steps) && Initial(guard, states[0]) && Quiet(states[|steps|])
    requires t < |states[|steps|].threads| && Guarded(guard, t, h) && Completes(h, states[|steps|].mem, hist)
    requires MutexesAnswer(h, |states[|steps|].owner|, hist)
    ensures Run(level, guard, states', steps') && states <= states' && steps <= steps'
    ensures forall k :: |steps| <= k < |steps'| ==> steps'[k].t == t
    ensures var s, s' := states[|steps|], states'[|steps'|];
            Quiet(s') && s'.committed == s.committed + [Commit(h, hist)] && InMemory(s.mem, Writes(h, hist)) &&
            s'.mem == Put(s.mem, Writes(h, hist)) && |s'.owner| == |s.owner| &&
            forall l :: 0 <= l < |s'.owner| ==> s'.owner[l] == -1
  {
    var s := states[|steps|];
    QuietMemoryIsSerial(level, guard, states, steps, |steps|);
    Begins(level, guard, states, steps, t, h, hist);
    var s1 := After(level, guard, s, t, Begin(h));
    hide Enabled, After, SerialMemory, Completes, MutexesAnswer, Initial, Guarded, Inv, SerialOrder, Put, Writes;
    states', steps' :=
      GoesToTheEnd(level, guard, states + [s1], steps + [Step(t, Begin(h))], t, h, hist, s.committed);
    var s' := states'[|steps'|];
    assert Quiet(s');
    QuietMemoryIsSerial(level, guard, states', steps', |steps'|);
    EndsWith(states[0].mem, s.committed, h, hist);
    SerializableInCommitOrder(level, guard, states', steps', |steps'|);
    forall l | 0 <= l < |s'.owner|
      ensures s'.owner[l] == -1
    {
      QuietMutexesFree(guard, s', SerialMemory(states'[0].mem, s'.committed), l);
    }
  }

  /** The plain handler: whatever location 0 held, it ends as 5. */
  lemma PlainHandlerCommits(level: nat, states: seq<State>, steps: seq<Step>, t: nat)
    returns (states': seq<State>, steps': seq<Step>)
    requires level >= 2 && Run(level, [ByLock(0)], states, steps) && Initial([ByLock(0)], states[0])
    requires Quiet(states[|steps|]) && t < |states[|steps|].threads| && |states[|steps|].owner| == 1
    ensures Run(level, [ByLock(0)], states', steps') && states <= states' && Quiet(states'[|steps'|])
    ensures states'[|steps'|].mem == [5] && states'[|steps'|].owner == [-1]
    ensures |states'[|steps'|].committed| == |states[|steps|].committed| + 1
  {
    var s, hist := states[|steps|], [Outcome(true), Unit, Unit];
    PlainHandlerIsGuarded(t);
    SerializableInCommitOrder(level, [ByLock(0)], states, steps, |steps|);
    SameSize([ByLock(0)], s, SerialMemory(states[0].mem, s.committed));
    PlainRun(s.mem);
    states', steps' := CommitsAlone(level, [ByLock(0)], states, steps, t, LockWriteUnlock, hist);
  }

  lemma PlainHistory()
    ensures var h: Handler, h1 := LockWriteUnlock, [Outcome(true)];
            Locks(h, []) == [] && Writes(h, h1) == [] && Writes(h, h1 + [Unit]) == [Stored(0, 5)] &&
            Writes(h, h1 + [Unit] + [Unit]) == [Stored(0, 5)]
  {
    var h: Handler, h0: seq<Obs> := LockWriteUnlock, [];
    NoHistory(h);
    HistorySnoc(h, h0, Outcome(true));
    assert h0 + [Outcome(true)] == [Outcome(true)];
    hide Writes, Locks;
    HistorySnoc(h, [Outcome(true)], Unit);
    HistorySnoc(h, [Outcome(true)] + [Unit], Unit);
  }

  lemma PlainFollows(m: seq<int>)
    requires |m| == 1
    ensures Follows(LockWriteUnlock, m, [Outcome(true)] + [Unit] + [Unit])
  {
    hide Writes, Follows;
    var h: Handler, h0: seq<Obs> := LockWriteUnlock, [];
    assert Follows(h, m, h0) by { NothingFollowed(h, m); }
    FollowsSnoc(h, m, h0, Outcome(true));
    assert h0 + [Outcome(true)] == [Outcome(true)];
    FollowsSnoc(h, m, [Outcome(true)], Unit);
    FollowsSnoc(h, m, [Outcome(true)] + [Unit], Unit);
  }

  lemma NothingFollowed(h: Handler, m: seq<int>)
    ensures Follows(h, m, [])
  {
  }

  lemma PlainRun(m: seq<int>)
    requires |m| == 1
    ensures var h, hist := LockWriteUnlock, [Outcome(true), Unit, Unit];
            Completes(h, m, hist) && MutexesAnswer(h, 1, hist) && Writes(h, hist) == [Stored(0, 5)] &&
            Put(m, [Stored(0, 5)]) == [5]
  {
    var hist: seq<Obs> := [Outcome(true), Unit, Unit];
    assert hist == [Outcome(true)] + [Unit] + [Unit];
    PlainHistory();
    PlainFollows(m);
    hide Follows, Writes, Locks;
    assert hist[..0] == [];
    PutSnoc(m, [], Stored(0, 5));
    assert [] + [Stored(0, 5)] == [Stored(0, 5)];
  }
}
