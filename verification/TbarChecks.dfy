/** What a check of the traversal barrier returns: exactly when it returns 1, in any interleaving,
    and that it does so once the traversals it waits for have ended. */
module TbarChecks {
  import opened Tbar

  /** The item the check is about to look at is settled already, was even when copied, or its
      counter c compares above the copy: it has moved and the move is not overlooked, or it has
      not moved and is misread. */
  predicate Clears(s: State, t: nat)
    requires Enabled(s, t, CheckOne)
  {
    var n := s.threads[t].stage.next;
    var item, c := s.threads[t].items[n], s.counts[n];
    item.mark || item.count % 2 == 0 ||
    (c > item.count && !(c % 0x1_0000_0000 < 0x8000_0000 && c % 0x1_0000_0000 <= item.count)) ||
    (c == item.count && c % 0x1_0000_0000 >= 0x8000_0000 && c < 0xFFFF_FFFF_0000_0000)
  }

  lemma ClearsExactly(s: State, t: nat)
    requires Inv(s) && Enabled(s, t, CheckOne)
    ensures var n := s.threads[t].stage.next;
            Passes(s.threads[t].items[n], s.counts[n]) <==> Clears(s, t)
  {
    var th := s.threads[t];
    var n := th.stage.next;
    var item, c := th.items[n], s.counts[n];
    assert ThreadInv(s, th);
    assert ItemInv(s.counts, th, n);
    if c == item.count {
      UnchangedLooksChanged(c);
    } else {
      ChangedIsOverlooked(c, item.count);
    }
  }

  /** One look: it settles the item, and keeps the verdict, exactly when the item clears; nothing
      else changes but the position. */
  lemma LookExactly(s: State, t: nat)
    requires Inv(s) && Enabled(s, t, CheckOne)
    ensures var s', th := After(s, t, CheckOne), s.threads[t];
            var n, th' := th.stage.next, s'.threads[t];
            (th'.items[n].mark <==> Clears(s, t)) &&
            th'.stage == Checking(th.stage.inside, n + 1, th.stage.r && Clears(s, t)) &&
            th'.items == th.items[n := Item(th.items[n].count, Clears(s, t))] &&
            s'.counts == s.counts && s'.registered == s.registered &&
            forall u :: 0 <= u < |s.threads| && u != t ==> s'.threads[u] == s.threads[u]
  {
    ClearsExactly(s, t);
    hide Inv, Passes, Clears;
    var n := s.threads[t].stage.next;
    var item := s.threads[t].items[n];
    if Clears(s, t) {
      assert item.(mark := true) == Item(item.count, true);
    } else {
      assert !item.mark by {
        NotMarked(s, t);
      }
      assert item == Item(item.count, false);
    }
  }

  lemma NotMarked(s: State, t: nat)
    requires Enabled(s, t, CheckOne) && !Clears(s, t)
    ensures !s.threads[t].items[s.threads[t].stage.next].mark
  {
  }

  /** A check about to return does so with 1 exactly when every item it looked at is settled. */
  lemma GrantedExactlyWhenMarked(states: seq<State>, steps: seq<Step>, i: nat, t: nat)
    requires Run(states, steps) && Initial(states[0]) && i <= |steps| && Enabled(states[i], t, EndCheck)
    ensures var s := states[i];
            s.registered <= |s.threads[t].items| &&
            (Grants(s, t) <==> forall n :: 0 <= n < s.registered ==> s.threads[t].items[n].mark)
  {
    RunKeeps(states, steps, i);
    hide Run, Initial;
    assert ThreadInv(states[i], states[i].threads[t]);
  }

  // ------------------------------------------------------- one whole check

  /** Thread t began a check at step a and has not returned from it up to state k. */
  predicate CheckRuns(states: seq<State>, steps: seq<Step>, t: nat, a: nat, k: nat) {
    Run(states, steps) && Initial(states[0]) && a < k <= |steps| && steps[a] == Step(t, BeginCheck) &&
    forall i :: a < i < k ==> steps[i] != Step(t, EndCheck)
  }

  /** Every look of the check between the steps a and k clears its item. */
  predicate AllClear(states: seq<State>, steps: seq<Step>, t: nat, a: nat, k: nat)
    requires Run(states, steps) && k <= |steps|
  {
    forall i :: a < i < k && steps[i] == Step(t, CheckOne) ==> Clears(states[i], t)
  }

  /** What a step does to a thread in the middle of a check. */
  lemma StepWithinCheck(s: State, t: nat, u: nat, e: Event)
    requires Inv(s) && Enabled(s, u, e) && t < |s.threads| && s.threads[t].stage.Checking?
    requires u == t ==> e != EndCheck
    ensures var s' := After(s, u, e);
            |s'.threads| == |s.threads| && |s'.counts| == |s.counts| &&
            (u == t ==> e == CheckOne) && (u != t ==> s'.threads[t] == s.threads[t]) &&
            forall n :: 0 <= n < |s.counts| ==> s.counts[n] <= s'.counts[n]
  {
  }

  lemma AllClearSnoc(states: seq<State>, steps: seq<Step>, t: nat, a: nat, k: nat)
    requires Run(states, steps) && a < k < |steps|
    ensures AllClear(states, steps, t, a, k + 1) <==>
            AllClear(states, steps, t, a, k) && (steps[k] == Step(t, CheckOne) ==> Clears(states[k], t))
  {
    hide Enabled, After, Clears;
  }

  lemma CheckBegins(s: State, t: nat)
    requires Enabled(s, t, BeginCheck)
    ensures t < |s.threads| && s.threads[t].stage.Resting?
    ensures var th' := After(s, t, BeginCheck).threads[t];
            th'.stage == Checking(s.threads[t].stage.inside, 0, true) && th'.items == s.threads[t].items
    ensures var s' := After(s, t, BeginCheck);
            s'.counts == s.counts && s'.registered == s.registered && |s'.threads| == |s.threads|
  {
  }

  lemma {:induction false} VerdictSoFar(states: seq<State>, steps: seq<Step>, t: nat, a: nat, k: nat)
    requires CheckRuns(states, steps, t, a, k)
    ensures t < |states[k].threads| && states[k].threads[t].stage.Checking?
    ensures states[k].threads[t].stage.r <==> AllClear(states, steps, t, a, k)
    decreases k
  {
    hide Inv, Initial, Clears, After, Enabled;
    var s, step := states[k - 1], steps[k - 1];
    assert Enabled(s, step.t, step.e) && states[k] == After(s, step.t, step.e);
    if k == a + 1 {
      CheckBegins(s, t);
    } else {
      RunKeeps(states, steps, k - 1);
      AllClearSnoc(states, steps, t, a, k - 1);
      VerdictSoFar(states, steps, t, a, k - 1);
      hide Run, AllClear;
      StepWithinCheck(s, t, step.t, step.e);
      if step.t == t {
        LookExactly(s, t);
      }
    }
  }

  /** A check returns 1 exactly when each of its looks cleared its item, whatever the other threads
      did between them. */
  lemma GrantedExactly(states: seq<State>, steps: seq<Step>, t: nat, a: nat, k: nat)
    requires CheckRuns(states, steps, t, a, k) && Enabled(states[k], t, EndCheck)
    ensures Grants(states[k], t) <==> AllClear(states, steps, t, a, k)
  {
    hide Inv, Initial, Clears, AllClear, CheckRuns;
    VerdictSoFar(states, steps, t, a, k);
  }

  // ---------------------------------------------------- once all have left

  /** Counters only grow during a check; the copies stay, and so do marks. */
  lemma {:induction false} KeptDuringCheck(states: seq<State>, steps: seq<Step>, t: nat, a: nat, k: nat, n: nat)
    requires CheckRuns(states, steps, t, a, k)
    requires t < |states[a].threads| && n < |states[a].counts| == |states[a].threads[t].items|
    ensures t < |states[k].threads| && |states[k].counts| == |states[k].threads[t].items| == |states[a].counts|
    ensures states[a].counts[n] <= states[k].counts[n]
    ensures states[k].threads[t].items[n].count == states[a].threads[t].items[n].count
    ensures states[a].threads[t].items[n].mark ==> states[k].threads[t].items[n].mark
    decreases k
  {
    hide Inv, Initial, Clears, After, Enabled;
    var s, step := states[k - 1], steps[k - 1];
    assert Enabled(s, step.t, step.e) && states[k] == After(s, step.t, step.e);
    if k == a + 1 {
      CheckBegins(s, t);
    } else {
      RunKeeps(states, steps, k - 1);
      KeptDuringCheck(states, steps, t, a, k - 1, n);
      VerdictSoFar(states, steps, t, a, k - 1);
      hide Run, AllClear;
      StepWithinCheck(s, t, step.t, step.e);
      if step.t == t {
        LookExactly(s, t);
        StillMarked(s, t);
      }
    }
  }

  lemma StillMarked(s: State, t: nat)
    requires Enabled(s, t, CheckOne)
    ensures s.threads[t].stage.next < |s.threads[t].items|
    ensures s.threads[t].items[s.threads[t].stage.next].mark ==> Clears(s, t)
  {
  }

  lemma SizesMatch(s: State, t: nat)
    requires Inv(s) && t < |s.threads|
    ensures |s.threads[t].items| == |s.counts| && s.registered <= |s.counts|
  {
    assert ThreadInv(s, s.threads[t]);
  }

  lemma StepGrows(s: State, t: nat, e: Event)
    requires Enabled(s, t, e)
    ensures var s' := After(s, t, e);
            |s'.counts| == |s.counts| && forall n :: 0 <= n < |s.counts| ==> s.counts[n] <= s'.counts[n]
  {
  }

  lemma {:induction false} CountersGrow(states: seq<State>, steps: seq<Step>, i: nat, k: nat)
    requires Run(states, steps) && i <= k <= |steps|
    ensures |states[k].counts| == |states[i].counts|
    ensures forall n :: 0 <= n < |states[i].counts| ==> states[i].counts[n] <= states[k].counts[n]
    decreases k - i
  {
    hide Enabled, After;
    if i == k {
    } else {
      StepGrows(states[i], steps[i].t, steps[i].e);
      CountersGrow(states, steps, i + 1, k);
    }
  }

  lemma MovedClears(s: State, t: nat, n: nat)
    requires Enabled(s, t, CheckOne) && n == s.threads[t].stage.next
    ensures n < |s.counts| && n < |s.threads[t].items|
    ensures var item := s.threads[t].items[n];
            item.mark || item.count % 2 == 0 || item.count < s.counts[n] < 0x8000_0000 ==> Clears(s, t)
  {
  }

  /** A look during a check that began with nobody left to wait for. */
  lemma LookClears(states: seq<State>, steps: seq<Step>, t: nat, a: nat, i: nat, k: nat)
    requires CheckRuns(states, steps, t, a, k) && a < i < k && steps[i] == Step(t, CheckOne)
    requires t < |states[a].threads| && |states[a].threads[t].items| == |states[a].counts|
    requires forall n :: 0 <= n < |states[a].counts| ==>
               var item := states[a].threads[t].items[n];
               item.mark || item.count % 2 == 0 || item.count < states[a].counts[n]
    requires forall n :: 0 <= n < |states[k].counts| ==> states[k].counts[n] < 0x8000_0000
    ensures Enabled(states[i], t, CheckOne) && Clears(states[i], t)
  {
    hide Inv, Initial, Clears, After, Enabled;
    assert Enabled(states[i], steps[i].t, steps[i].e);
    VerdictSoFar(states, steps, t, a, i);
    var n := states[i].threads[t].stage.next;
    MovedClears(states[i], t, n);
    CountersGrow(states, steps, a, i);
    KeptDuringCheck(states, steps, t, a, i, n);
    CountersGrow(states, steps, i, k);
  }

  /** If, when a check begins, every counter that was odd in the snapshot and is not settled yet
      has moved on, and counters stay below 2^31, the check returns 1. */
  lemma GrantedOnceAllLeft(states: seq<State>, steps: seq<Step>, t: nat, a: nat, k: nat)
    requires CheckRuns(states, steps, t, a, k) && Enabled(states[k], t, EndCheck)
    requires t < |states[a].threads| && |states[a].threads[t].items| == |states[a].counts|
    requires forall n :: 0 <= n < |states[a].counts| ==>
               var item := states[a].threads[t].items[n];
               item.mark || item.count % 2 == 0 || item.count < states[a].counts[n]
    requires forall n :: 0 <= n < |states[k].counts| ==> states[k].counts[n] < 0x8000_0000
    ensures Grants(states[k], t)
  {
    hide Inv, Initial, Clears, After, Enabled, Grants;
    forall i | a < i < k && steps[i] == Step(t, CheckOne)
      ensures Clears(states[i], t)
    {
      LookClears(states, steps, t, a, i, k);
    }
    GrantedExactly(states, steps, t, a, k);
  }

  /** Nobody is left to wait for, and no counter is large enough to be misread. */
  predicate NobodyLeft(s: State, t: nat) {
    t < |s.threads| && |s.threads[t].items| == |s.counts| &&
    forall n :: 0 <= n < |s.counts| ==>
      var item := s.threads[t].items[n];
      s.counts[n] < 0x8000_0000 && (item.mark || item.count % 2 == 0 || item.count < s.counts[n])
  }

  lemma LookGoesOn(s: State, t: nat)
    requires Inv(s) && NobodyLeft(s, t) && s.threads[t].stage.Checking? && s.threads[t].stage.r
    requires s.threads[t].stage.next < s.registered
    ensures Enabled(s, t, CheckOne)
    ensures var s' := After(s, t, CheckOne);
            NobodyLeft(s', t) && s'.registered == s.registered &&
            s'.threads[t].stage == Checking(s.threads[t].stage.inside, s.threads[t].stage.next + 1, true)
  {
    SizesMatch(s, t);
    assert Enabled(s, t, CheckOne);
    hide Inv, Enabled, After, Clears;
    MovedClears(s, t, s.threads[t].stage.next);
    LookExactly(s, t);
  }

  lemma {:induction false} LooksToTheEnd(from: State, s: State, t: nat) returns (s': State)
    requires Reaches(from, s) && Inv(s) && NobodyLeft(s, t)
    requires s.threads[t].stage.Checking? && s.threads[t].stage.r
    ensures Reaches(from, s') && Grants(s', t)
    decreases s.registered - s.threads[t].stage.next
  {
    if s.threads[t].stage.next >= s.registered {
      s' := s;
    } else {
      hide Inv, Reaches, NobodyLeft, Enabled, After, Grants;
      LookGoesOn(s, t);
      StepKeeps(s, t, CheckOne);
      ReachesNext(from, s, t, CheckOne);
      s' := LooksToTheEnd(from, After(s, t, CheckOne), t);
    }
  }

  /** A check is never stuck: from a resting thread with nobody left to wait for, it runs to the
      end and returns 1. */
  lemma CheckCanGrant(s: State, t: nat) returns (s': State)
    requires Inv(s) && NobodyLeft(s, t) && s.threads[t].stage.Resting?
    ensures Reaches(s, s') && Grants(s', t)
  {
    assert Enabled(s, t, BeginCheck);
    var s1 := After(s, t, BeginCheck);
    assert NobodyLeft(s1, t) && s1.threads[t].stage.Checking? && s1.threads[t].stage.r;
    hide Inv, Reaches, NobodyLeft, Enabled, After, Grants;
    StepKeeps(s, t, BeginCheck);
    ReachesItself(s);
    ReachesNext(s, s, t, BeginCheck);
    s' := LooksToTheEnd(s, s1, t);
  }
}
