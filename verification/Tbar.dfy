/** The traversal barrier (src/tbar.c): each thread counts its enters and leaves in a shared
    counter, odd while it is inside.  A thread that leaves takes a snapshot of the counters,
    one at a time; a later check says whether everybody who was inside has left since. */
module Tbar {

  const TWO31: nat := 0x8000_0000
  const TWO32: nat := 0x1_0000_0000
  const TWO64: nat := 0x1_0000_0000_0000_0000

  /** A 64-bit counter as the check reads it: cut to a 32-bit int, then widened again for the
      comparison with an unsigned 64-bit number. */
  function Narrowed(c: nat): nat {
    var low := c % TWO32;
    if low < TWO31 then low else low + TWO64 - TWO32
  }

  /** Bit 31 is set, and the high half is not all ones. */
  predicate Misread(c: nat) {
    c % TWO32 >= TWO31 && c < TWO64 - TWO32
  }

  /** An unchanged counter looks changed exactly when it is misread. */
  lemma UnchangedLooksChanged(c: nat)
    requires c < TWO64
    ensures Narrowed(c) > c <==> Misread(c)
  {
  }

  /** A counter that has moved on is noticed, below 2^31. */
  lemma ChangedIsNoticed(c: nat, seen: nat)
    requires c < TWO31
    ensures Narrowed(c) > seen <==> c > seen
  {
  }

  /** A move is overlooked exactly when bit 31 of the counter is clear and its low half is not
      above the snapshot: the check then waits on, although it need not. */
  lemma ChangedIsOverlooked(c: nat, seen: nat)
    requires seen < c < TWO64
    ensures Narrowed(c) <= seen <==> c % TWO32 < TWO31 && c % TWO32 <= seen
  {
  }

  // ------------------------------------------------------------- the protocol

  datatype Item = Item(count: nat, mark: bool)

  datatype Stage =
    | New
    | Resting(inside: bool)
    | Counting // left, about to read the number of threads
    | Copying(next: nat, upto: nat)
    | Checking(inside: bool, next: nat, r: bool)

  /** `begun` is no part of the implementation: it remembers all counters as they were when the
      latest leave began. */
  datatype Thread = Thread(stage: Stage, me: nat, items: seq<Item>, begun: seq<nat>)

  datatype State = State(counts: seq<nat>, registered: nat, threads: seq<Thread>)

  datatype Event = Register | Enter | BeginLeave | CountThreads | CopyOne | EndLeave | BeginCheck | CheckOne | EndCheck

  predicate Enabled(s: State, t: nat, e: Event) {
    t < |s.threads| &&
    var th := s.threads[t];
    match e
    case Register => th.stage.New? && s.registered < |s.counts|
    case Enter => th.stage == Resting(false) && th.me < |s.counts| && s.counts[th.me] + 1 < TWO64
    case BeginLeave => th.stage == Resting(true) && th.me < |s.counts| && s.counts[th.me] + 1 < TWO64
    case CountThreads => th.stage.Counting?
    case CopyOne =>
      th.stage.Copying? && th.stage.next < th.stage.upto && th.stage.next < |s.counts| && th.stage.next < |th.items|
    case EndLeave => th.stage.Copying? && th.stage.next >= th.stage.upto
    case BeginCheck => th.stage.Resting?
    case CheckOne =>
      th.stage.Checking? && th.stage.next < s.registered && th.stage.next < |s.counts| && th.stage.next < |th.items|
    case EndCheck => th.stage.Checking? && th.stage.next >= s.registered
  }

  /** Does the check mark this item? */
  predicate Passes(item: Item, count: nat) {
    item.mark || item.count % 2 == 0 || Narrowed(count) > item.count
  }

  predicate Inside(c: nat) { c % 2 == 1 }

  function After(s: State, t: nat, e: Event): (r: State)
    requires Enabled(s, t, e)
  {
    var th := s.threads[t];
    match e
    case Register =>
      s.(registered := s.registered + 1, threads := s.threads[t := th.(stage := Resting(false), me := s.registered)])
    case Enter =>
      s.(counts := s.counts[th.me := s.counts[th.me] + 1], threads := s.threads[t := th.(stage := Resting(true))])
    case BeginLeave =>
      var counts := s.counts[th.me := s.counts[th.me] + 1];
      s.(counts := counts, threads := s.threads[t := th.(stage := Counting, begun := counts)])
    case CountThreads => s.(threads := s.threads[t := th.(stage := Copying(0, s.registered))])
    case CopyOne =>
      var i := th.stage.next;
      s.(threads := s.threads[t := th.(stage := Copying(i + 1, th.stage.upto),
                                       items := th.items[i := Item(s.counts[i], false)])])
    case EndLeave => s.(threads := s.threads[t := th.(stage := Resting(false))])
    case BeginCheck => s.(threads := s.threads[t := th.(stage := Checking(th.stage.inside, 0, true))])
    case CheckOne =>
      var i := th.stage.next;
      var ok := Passes(th.items[i], s.counts[i]);
      s.(threads := s.threads[t := th.(stage := Checking(th.stage.inside, i + 1, th.stage.r && ok),
                                       items := if ok then th.items[i := th.items[i].(mark := true)] else th.items)])
    case EndCheck => s.(threads := s.threads[t := th.(stage := Resting(th.stage.inside))])
  }

  // -------------------------------------------------------------- invariant

  /** Item i knows about the traversal that was in progress, if any, when the latest leave of
      its owner began; a mark means it has ended, unless its counter could be misread. */
  predicate ItemInv(counts: seq<nat>, th: Thread, i: nat)
    requires i < |counts| == |th.items| == |th.begun|
  {
    th.items[i].count <= counts[i] && th.begun[i] <= counts[i] &&
    (Copied(th, i) && Inside(th.begun[i]) ==> th.items[i].count >= th.begun[i]) &&
    (th.items[i].mark && Inside(th.items[i].count) ==> counts[i] > th.items[i].count || Misread(th.items[i].count))
  }

  /** The snapshot of item i belongs to the latest leave. */
  predicate Copied(th: Thread, i: nat) {
    match th.stage
    case Counting => false
    case Copying(next, _) => i < next
    case _ => true
  }

  predicate StageInv(s: State, th: Thread)
    requires s.registered <= |s.counts| == |th.items|
  {
    match th.stage
    case New => true
    case Resting(inside) => th.me < s.registered && Inside(s.counts[th.me]) == inside
    case Counting => th.me < s.registered && !Inside(s.counts[th.me])
    case Copying(next, upto) =>
      th.me < s.registered && !Inside(s.counts[th.me]) && next <= upto <= s.registered &&
      forall i :: upto <= i < |th.begun| && upto <= i < |th.items| ==> th.begun[i] == 0 && th.items[i].count == 0
    case Checking(inside, next, r) =>
      th.me < s.registered && Inside(s.counts[th.me]) == inside && next <= s.registered &&
      (r <==> forall i :: 0 <= i < next ==> th.items[i].mark)
  }

  predicate ThreadInv(s: State, th: Thread)
    requires s.registered <= |s.counts|
  {
    |s.counts| == |th.items| == |th.begun| && StageInv(s, th) &&
    (forall i :: 0 <= i < |s.counts| ==> ItemInv(s.counts, th, i)) &&
    (forall i :: s.registered <= i < |s.counts| ==> th.begun[i] == 0)
  }

  /** Counters fit 64 bits, those of threads that do not exist yet are zero; no two threads share a
      counter. */
  predicate Inv(s: State) {
    s.registered <= |s.counts| && (forall i :: 0 <= i < |s.counts| ==> s.counts[i] < TWO64) &&
    (forall i :: s.registered <= i < |s.counts| ==> s.counts[i] == 0) &&
    (forall t :: 0 <= t < |s.threads| ==> ThreadInv(s, s.threads[t])) &&
    forall t, u :: 0 <= t < u < |s.threads| && !s.threads[t].stage.New? && !s.threads[u].stage.New? ==>
      s.threads[t].me != s.threads[u].me
  }

  predicate Initial(s: State) {
    s.registered == 0 && (forall i :: 0 <= i < |s.counts| ==> s.counts[i] == 0) &&
    forall t :: 0 <= t < |s.threads| ==>
      var th := s.threads[t];
      th.stage.New? && th.items == seq(|s.counts|, _ => Item(0, false)) && th.begun == seq(|s.counts|, _ => 0)
  }

  lemma InitialInv(s: State)
    requires Initial(s)
    ensures Inv(s)
  {
  }

  /** What other threads know survives a counter going up, and more threads registering. */
  lemma OthersKeep(s: State, s': State, th: Thread)
    requires s.registered <= s'.registered <= |s.counts| == |s'.counts| && ThreadInv(s, th)
    requires forall i :: 0 <= i < |s.counts| ==> s.counts[i] <= s'.counts[i]
    requires !th.stage.New? ==> s'.counts[th.me] == s.counts[th.me]
    ensures ThreadInv(s', th)
  {
    forall i | 0 <= i < |s.counts|
      ensures ItemInv(s'.counts, th, i)
    {
      assert ItemInv(s.counts, th, i);
    }
  }

  lemma OwnStageKeeps(s: State, t: nat, e: Event)
    requires Inv(s) && Enabled(s, t, e)
    ensures var s' := After(s, t, e);
            |s'.counts| == |s'.threads[t].items| == |s'.threads[t].begun| && StageInv(s', s'.threads[t])
  {
    var th := s.threads[t];
    assert ThreadInv(s, th);
    hide ThreadInv, Inv;
    if e.CountThreads? {
      NotCopied(s, th);
    } else if e.CheckOne? {
      var i, items := th.stage.next, After(s, t, e).threads[t].items;
      assert items[i].mark <==> Passes(th.items[i], s.counts[i]);
      assert forall j :: 0 <= j < i ==> items[j] == th.items[j];
    }
  }

  /** Snapshots of threads that do not exist yet are zero. */
  lemma NotCopied(s: State, th: Thread)
    requires Inv(s) && ThreadInv(s, th)
    ensures forall i :: s.registered <= i < |s.counts| ==> th.begun[i] == 0 && th.items[i].count == 0
  {
    forall i | s.registered <= i < |s.counts|
      ensures th.items[i].count == 0
    {
      assert ItemInv(s.counts, th, i);
    }
  }

  lemma OwnItemKeeps(s: State, t: nat, e: Event, i: nat)
    requires Inv(s) && Enabled(s, t, e) && i < |s.counts| == |s.threads[t].items| == |s.threads[t].begun|
    requires StageInv(s, s.threads[t]) && ItemInv(s.counts, s.threads[t], i)
    ensures ItemInv(After(s, t, e).counts, After(s, t, e).threads[t], i)
  {
    hide Inv;
  }

  lemma OwnKeeps(s: State, t: nat, e: Event)
    requires Inv(s) && Enabled(s, t, e)
    ensures ThreadInv(After(s, t, e), After(s, t, e).threads[t])
  {
    var th := s.threads[t];
    var s' := After(s, t, e);
    assert ThreadInv(s, th);
    OwnStageKeeps(s, t, e);
    assert forall i :: s'.registered <= i < |s'.counts| ==> s'.threads[t].begun[i] == 0;
    hide Inv, After, Enabled, ItemInv, StageInv;
    forall i | 0 <= i < |s.counts|
      ensures ItemInv(s'.counts, s'.threads[t], i)
    {
      OwnItemKeeps(s, t, e, i);
    }
  }

  /** Each step of any thread keeps the invariant. */
  lemma StepKeeps(s: State, t: nat, e: Event)
    requires Inv(s) && Enabled(s, t, e)
    ensures Inv(After(s, t, e))
  {
    var s' := After(s, t, e);
    OwnKeeps(s, t, e);
    forall u | 0 <= u < |s.threads| && u != t
      ensures ThreadInv(s', s'.threads[u])
    {
      OthersKeep(s, s', s.threads[u]);
    }
  }

  // ------------------------------------------------------------------- runs

  datatype Step = Step(t: nat, e: Event)

  /** A run: any interleaving of the threads' steps. */
  predicate Run(states: seq<State>, steps: seq<Step>) {
    |states| == |steps| + 1 &&
    forall i :: 0 <= i < |steps| ==>
      Enabled(states[i], steps[i].t, steps[i].e) && states[i + 1] == After(states[i], steps[i].t, steps[i].e)
  }

  lemma {:induction false} RunKeeps(states: seq<State>, steps: seq<Step>, i: nat)
    requires Run(states, steps) && Initial(states[0]) && i <= |steps|
    ensures Inv(states[i])
  {
    hide Inv, Initial, Enabled, After;
    if i == 0 {
      InitialInv(states[0]);
    } else {
      RunKeeps(states, steps, i - 1);
      StepKeeps(states[i - 1], steps[i - 1].t, steps[i - 1].e);
    }
  }

  /** A check that is about to return 1. */
  predicate Grants(s: State, t: nat) {
    Enabled(s, t, EndCheck) && s.threads[t].stage.r
  }

  /** When a check returns 1, every traversal that was in progress when the caller's latest leave
      began, at a counter that cannot be misread, has ended: its counter has moved. */
  lemma GrantedMeansLeft(states: seq<State>, steps: seq<Step>, i: nat, t: nat, j: nat)
    requires Run(states, steps) && Initial(states[0]) && i <= |steps| && Grants(states[i], t)
    requires j < |states[i].counts|
    ensures var s, begun := states[i], states[i].threads[t].begun;
            |begun| == |s.counts| && (Inside(begun[j]) && !Misread(begun[j]) ==> s.counts[j] > begun[j])
  {
    RunKeeps(states, steps, i);
    var s := states[i];
    hide Run, Initial;
    assert ThreadInv(s, s.threads[t]);
    assert ItemInv(s.counts, s.threads[t], j);
  }

  /** The check marks the counter of a thread that has not moved, and is inside, exactly when it
      is misread. */
  lemma MisreadingMarksExactly(s: State, t: nat)
    requires Inv(s) && Enabled(s, t, CheckOne)
    requires var th := s.threads[t]; var i := th.stage.next;
             !th.items[i].mark && Inside(th.items[i].count) && s.counts[i] == th.items[i].count < TWO64
    ensures var i := s.threads[t].stage.next;
            After(s, t, CheckOne).threads[t].items[i].mark <==> Misread(s.counts[i])
  {
    UnchangedLooksChanged(s.counts[s.threads[t].stage.next]);
  }

  // ------------------------------------------------- a run that misreads

  ghost predicate Reaches(from: State, s: State) {
    exists states, steps :: Run(states, steps) && states[0] == from && states[|steps|] == s
  }

  lemma ReachesItself(s: State)
    ensures Reaches(s, s)
  {
    assert Run([s], []);
  }

  lemma ReachesNext(from: State, s: State, t: nat, e: Event)
    requires Reaches(from, s) && Enabled(s, t, e)
    ensures Reaches(from, After(s, t, e))
  {
    hide Enabled, After;
    var states, steps :| Run(states, steps) && states[0] == from && states[|steps|] == s;
    var states', steps' := states + [After(s, t, e)], steps + [Step(t, e)];
    assert Run(states', steps') && states'[0] == from && states'[|steps'|] == After(s, t, e);
  }

  /** Two threads, nothing done yet. */
  const START := State([0, 0], 0, [Thread(New, 0, [Item(0, false), Item(0, false)], [0, 0]),
                                   Thread(New, 0, [Item(0, false), Item(0, false)], [0, 0])])

  /** Thread 0 has just registered; thread 1 has entered and left n times. */
  function Looped(n: nat): State {
    State([0, 2 * n], 2, [Thread(Resting(false), 0, [Item(0, false), Item(0, false)], [0, 0]),
                          Thread(Resting(false), 1, [Item(0, false), Item(2 * n, false)], [0, 2 * n])])
  }

  lemma BothRegister()
    ensures Reaches(START, Looped(0))
  {
    hide Reaches;
    ReachesItself(START);
    ReachesNext(START, START, 0, Register);
    var s := After(START, 0, Register);
    ReachesNext(START, s, 1, Register);
    assert After(s, 1, Register) == Looped(0);
  }

  /** Thread t, holding its counter at c and resting, enters and leaves. */
  lemma EnterAndLeave(from: State, s: State, t: nat) returns (s': State)
    requires Reaches(from, s) && t < 2 == |s.counts| == |s.threads| == s.registered
    requires var th := s.threads[t];
             th.stage == Resting(false) && th.me == t && |th.items| == 2 && s.counts[t] + 2 < TWO64
    ensures Reaches(from, s')
    ensures var counts := s.counts[t := s.counts[t] + 2];
            var items := [Item(counts[0], false), Item(counts[1], false)];
            s' == State(counts, 2, s.threads[t := Thread(Resting(false), t, items, counts)])
  {
    hide Reaches;
    var counts := s.counts[t := s.counts[t] + 2];
    ReachesNext(from, s, t, Enter);
    s' := After(s, t, Enter);
    ReachesNext(from, s', t, BeginLeave);
    s' := After(s', t, BeginLeave);
    assert s'.counts == counts;
    ReachesNext(from, s', t, CountThreads);
    s' := After(s', t, CountThreads);
    ReachesNext(from, s', t, CopyOne);
    s' := After(s', t, CopyOne);
    ReachesNext(from, s', t, CopyOne);
    s' := After(s', t, CopyOne);
    ReachesNext(from, s', t, EndLeave);
    s' := After(s', t, EndLeave);
    assert s'.threads[t].items == [Item(counts[0], false), Item(counts[1], false)];
  }

  lemma {:induction false} ReachesLooped(n: nat)
    requires 2 * n < TWO64
    ensures Reaches(START, Looped(n))
  {
    hide Reaches;
    if n == 0 {
      BothRegister();
    } else {
      ReachesLooped(n - 1);
      var s := EnterAndLeave(START, Looped(n - 1), 1);
      assert s.counts == [0, 2 * n] && s.threads == Looped(n).threads;
    }
  }

  /** Thread 1 has entered and left n times and is inside again, with a counter of 2n + 1; thread 0
      has entered and left once meanwhile, and is checking. */
  function LongRunning(n: nat): State {
    State([2, 2 * n + 1], 2,
          [Thread(Checking(false, 1, true), 0, [Item(2, true), Item(2 * n + 1, false)], [2, 2 * n + 1]),
           Thread(Resting(true), 1, [Item(0, false), Item(2 * n, false)], [0, 2 * n])])
  }

  lemma ReachesLongRunning(n: nat)
    requires 2 * n + 2 < TWO64
    ensures Initial(START) && Reaches(START, LongRunning(n))
  {
    hide Reaches;
    ReachesLooped(n);
    var s := Looped(n);
    ReachesNext(START, s, 1, Enter);
    s := EnterAndLeave(START, After(s, 1, Enter), 0);
    var other := LongRunning(n).threads[1];
    assert s.counts == [2, 2 * n + 1] && s.threads[1] == other;
    ReachesNext(START, s, 0, BeginCheck);
    s := After(s, 0, BeginCheck);
    ReachesNext(START, s, 0, CheckOne);
    s := After(s, 0, CheckOne);
    assert s.threads[0].items == [Item(2, true), Item(2 * n + 1, false)];
    assert s.threads == [LongRunning(n).threads[0], other];
  }

  /** In this state thread t is granted although the traversal that thread j had in progress, with
      its counter at c, when t's latest leave began is still in progress. */
  predicate GrantsEarly(s: State, t: nat, j: nat, c: nat) {
    Grants(s, t) && j < |s.counts| && j < |s.threads[t].begun| && Inside(c) && s.threads[t].begun[j] == c == s.counts[j]
  }

  /** Some run from an initial state gets there. */
  ghost predicate EarlyAt(c: nat) {
    exists from, s, t, j :: Initial(from) && Reaches(from, s) && GrantsEarly(s, t, j, c)
  }

  /** Misread counters are granted too early: the first check after thread 1 has entered and left
      often enough returns 1 with thread 1 inside all the time. */
  lemma MisreadGrantsTooEarly(c: nat)
    requires Inside(c) && Misread(c)
    ensures EarlyAt(c)
  {
    hide Reaches;
    var n := c / 2;
    ReachesLongRunning(n);
    var s := LongRunning(n);
    UnchangedLooksChanged(c);
    ReachesNext(START, s, 0, CheckOne);
    assert GrantsEarly(After(s, 0, CheckOne), 0, 1, c);
  }

  /** The barrier can grant too early with a counter at c exactly if c is odd, has bit 31 set and
      an upper half that is not all ones. */
  lemma EarlyExactlyWhenMisread(c: nat)
    ensures EarlyAt(c) <==> Inside(c) && Misread(c)
  {
    hide Initial, Grants, Enabled, After;
    if EarlyAt(c) {
      var from, s, t, j :| Initial(from) && Reaches(from, s) && GrantsEarly(s, t, j, c);
      var states, steps :| Run(states, steps) && states[0] == from && states[|steps|] == s;
      GrantedMeansLeft(states, steps, |steps|, t, j);
    }
    if Inside(c) && Misread(c) {
      MisreadGrantsTooEarly(c);
    }
  }
}
