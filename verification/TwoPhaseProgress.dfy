/** Which threads of the two-phase-locking build can go on: all that are inside a transaction,
    except those that wait for a mutex in their first phase. */
module TwoPhaseProgress {
  import opened TwoPhase

  /** About to take a mutex, in the first phase, that some thread has. */
  predicate Waits(s: State, t: nat)
    requires t < |s.threads|
  {
    var th := s.threads[t];
    th.stage == Phase(0) && th.h(th.hist).Lock? && th.h(th.hist).l < |s.owner| && s.owner[th.h(th.hist).l] >= 0
  }

  /** About to take a mutex that does not exist. */
  predicate Astray(s: State, t: nat)
    requires t < |s.threads|
  {
    var th := s.threads[t];
    th.stage == Phase(0) && (th.h(th.hist).Lock? || th.h(th.hist).TryLock?) && th.h(th.hist).l >= |s.owner|
  }

  /** Can take a step of its transaction. */
  ghost predicate CanStep(level: nat, guard: seq<Guard>, s: State, t: nat) {
    Enabled(level, guard, s, t, Act) || Enabled(level, guard, s, t, EndPhase) || Enabled(level, guard, s, t, UndoOne) ||
    Enabled(level, guard, s, t, NextPhase) || Enabled(level, guard, s, t, CommitAll) ||
    Enabled(level, guard, s, t, LateUnlock) || Enabled(level, guard, s, t, Leave)
  }

  // ------------------------------------------------------- phases are bounded

  predicate InBounds(level: nat, th: Thread) {
    match th.stage
    case Phase(ph) => ph < level
    case Rewinding(ph, _) => ph + 1 < level
    case _ => true
  }

  predicate AllInBounds(level: nat, s: State) {
    forall t :: 0 <= t < |s.threads| ==> InBounds(level, s.threads[t])
  }

  lemma StepInBounds(level: nat, guard: seq<Guard>, s: State, t: nat, e: Event)
    requires level >= 2 && Enabled(level, guard, s, t, e) && AllInBounds(level, s)
    ensures AllInBounds(level, After(level, guard, s, t, e))
  {
    hide Guarded;
    assert InBounds(level, s.threads[t]);
  }

  lemma {:induction false} RunInBounds(level: nat, guard: seq<Guard>, states: seq<State>, steps: seq<Step>, i: nat)
    requires level >= 2 && Run(level, guard, states, steps) && Initial(guard, states[0]) && i <= |steps|
    ensures AllInBounds(level, states[i])
  {
    hide Enabled, After, AllInBounds;
    if i == 0 {
      assert AllInBounds(level, states[0]) by { InitialInBounds(level, guard, states[0]); }
    } else {
      RunInBounds(level, guard, states, steps, i - 1);
      StepInBounds(level, guard, states[i - 1], steps[i - 1].t, steps[i - 1].e);
    }
  }

  lemma InitialInBounds(level: nat, guard: seq<Guard>, s: State)
    requires Initial(guard, s)
    ensures AllInBounds(level, s)
  {
  }

  // --------------------------------------------------------------- progress

  lemma PhaseGoesOn(level: nat, guard: seq<Guard>, states: seq<State>, steps: seq<Step>, i: nat, t: nat)
    requires level >= 2 && Run(level, guard, states, steps) && Initial(guard, states[0]) && i <= |steps|
    requires t < |states[i].threads| && states[i].threads[t].stage.Phase?
    ensures var s, th := states[i], states[i].threads[t];
            th.h(th.hist) == Finish || CanAct(s, t) || Waits(s, t) || Astray(s, t)
  {
    hide SerialOrder, SerialMemory, Enabled, After, Writes, Locks, Put, Replaced, Follows, Initial;
    var s, th := states[i], states[i].threads[t];
    if th.stage.ph > 0 {
      LaterPhasesRetrace(level, guard, states, steps, i, t);
    } else if Place(th.h(th.hist)) >= 0 {
      SerializableInCommitOrder(level, guard, states, steps, i);
      var m := SerialMemory(states[0].mem, s.committed);
      assert ThreadInv(guard, m, t, th);
      hide Inv, Guarded;
      ReadsSerial(guard, s, m, t);
      assert |s.mem| == |m| by { SameSize(guard, s, m); }
    }
  }

  lemma RewindGoesOn(level: nat, guard: seq<Guard>, states: seq<State>, steps: seq<Step>, i: nat, t: nat)
    requires level >= 2 && Run(level, guard, states, steps) && Initial(guard, states[0]) && i <= |steps|
    requires t < |states[i].threads| && states[i].threads[t].stage.Rewinding?
    ensures Enabled(level, guard, states[i], t, UndoOne) || Enabled(level, guard, states[i], t, NextPhase)
  {
    hide SerialOrder, SerialMemory, After, Writes, Locks, Put, Follows, Initial, Guarded;
    SerializableInCommitOrder(level, guard, states, steps, i);
    var s, th := states[i], states[i].threads[t];
    var m := SerialMemory(states[0].mem, s.committed);
    assert ThreadInv(guard, m, t, th);
    var left := th.stage.left;
    if left > 0 {
      assert th.log[..left][left - 1] == Replaced(m, Writes(th.h, th.hist))[..left][left - 1];
    }
  }

  /** In every reachable state a thread inside a transaction can go on, exactly unless it is in its
      first phase and about to take a mutex that is held or does not exist. */
  lemma GoesOnExactlyUnlessWaiting(level: nat, guard: seq<Guard>, states: seq<State>, steps: seq<Step>, i: nat, t: nat)
    requires level >= 2 && Run(level, guard, states, steps) && Initial(guard, states[0]) && i <= |steps|
    requires t < |states[i].threads| && !states[i].threads[t].stage.Outside?
    ensures CanStep(level, guard, states[i], t) <==> !Waits(states[i], t) && !Astray(states[i], t)
  {
    var s, th := states[i], states[i].threads[t];
    RunInBounds(level, guard, states, steps, i);
    assert InBounds(level, th);
    if th.stage.Phase? {
      PhaseGoesOn(level, guard, states, steps, i, t);
    } else if th.stage.Rewinding? {
      RewindGoesOn(level, guard, states, steps, i, t);
    }
    hide Run, Initial, Guarded;
  }

  // ------------------------------------------------- locking a mutex twice

  /** About to take a mutex that it has taken before. */
  ghost predicate LocksAgain(s: State, t: nat, l: nat) {
    t < |s.threads| && s.threads[t].stage == Phase(0) && s.threads[t].h(s.threads[t].hist) == Lock(l) &&
    Taken(l, true) in s.threads[t].locks
  }

  lemma StepOfAnother(level: nat, guard: seq<Guard>, s: State, m: seq<int>, t: nat, l: nat, u: nat, e: Event)
    requires level >= 2 && Inv(guard, s, m) && LocksAgain(s, t, l) && Enabled(level, guard, s, u, e)
    ensures var s' := After(level, guard, s, u, e);
            u != t && t < |s'.threads| && s'.threads[t] == s.threads[t]
  {
    hide MemoryInv, ThreadInv, Guarded;
    var th := s.threads[t];
    assert Outstanding(th) == th.locks;
    assert l < |s.owner| && s.owner[l] == t;
  }

  /** Such a thread never takes another step, whatever the others do. */
  lemma {:induction false} LocksAgainForGood(level: nat, guard: seq<Guard>, states: seq<State>, steps: seq<Step>,
                                             i: nat, j: nat, t: nat, l: nat)
    requires level >= 2 && Run(level, guard, states, steps) && Initial(guard, states[0]) && i <= j <= |steps|
    requires LocksAgain(states[i], t, l)
    ensures LocksAgain(states[j], t, l) && states[j].threads[t] == states[i].threads[t]
    ensures !CanStep(level, guard, states[j], t)
    decreases j
  {
    hide Inv, Enabled, After, LocksAgain, SerialOrder, SerialMemory;
    if j == i {
    } else {
      LocksAgainForGood(level, guard, states, steps, i, j - 1, t, l);
      SerializableInCommitOrder(level, guard, states, steps, j - 1);
      var m := SerialMemory(states[0].mem, states[j - 1].committed);
      StepOfAnother(level, guard, states[j - 1], m, t, l, steps[j - 1].t, steps[j - 1].e);
      SameThread(states[j - 1], states[j], t, l);
    }
    SerializableInCommitOrder(level, guard, states, steps, j);
    NoStep(level, guard, states[j], SerialMemory(states[0].mem, states[j].committed), t, l);
  }

  lemma SameThread(s: State, s': State, t: nat, l: nat)
    requires LocksAgain(s, t, l) && t < |s'.threads| && s'.threads[t] == s.threads[t]
    ensures LocksAgain(s', t, l)
  {
  }

  lemma NoStep(level: nat, guard: seq<Guard>, s: State, m: seq<int>, t: nat, l: nat)
    requires level >= 2 && Inv(guard, s, m) && LocksAgain(s, t, l)
    ensures !CanStep(level, guard, s, t)
  {
    hide MemoryInv, ThreadInv, Guarded;
    assert Outstanding(s.threads[t]) == s.threads[t].locks;
  }
}
