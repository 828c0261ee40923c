/** Threads running transactions at the same time, in the two-phase-locking build
    (src/tmi.c:1115-1199, 1254-1262, 1392-1398, 1518-1534).

    The first phase takes mutexes and records the outcome, later phases replay it; unlocking
    does nothing until the transaction has committed.  Every step of every thread - also each
    single undo step of a rewind and each single late unlock - may be interleaved with any
    step of any other thread. */
module TwoPhase {

  // ------------------------------------------------------------- handlers

  datatype Action = Read(x: nat) | Write(x: nat, value: int) | Lock(l: nat) | TryLock(l: nat) | Unlock(l: nat) | Finish

  datatype Obs = Value(value: int) | Outcome(taken: bool) | Unit

  /** Handlers are deterministic: what they do next depends on what they observed. */
  type Handler = seq<Obs> -> Action

  datatype Stored = Stored(x: nat, value: int)

  /** A mutex operation of the first phase and whether it took the mutex. */
  datatype Taken = Taken(l: nat, ok: bool)

  function Writes(h: Handler, hist: seq<Obs>): (ws: seq<Stored>) {
    if hist == [] then []
    else
      var past := hist[..|hist| - 1];
      var a := h(past);
      if a.Write? then Writes(h, past) + [Stored(a.x, a.value)] else Writes(h, past)
  }

  function Locks(h: Handler, hist: seq<Obs>): (ls: seq<Taken>) {
    if hist == [] then []
    else
      var past := hist[..|hist| - 1];
      var a := h(past);
      if a.Lock? || a.TryLock? then Locks(h, past) + [Taken(a.l, hist[|hist| - 1] == Outcome(true))]
      else Locks(h, past)
  }

  lemma HistorySnoc(h: Handler, hist: seq<Obs>, obs: Obs)
    ensures Writes(h, hist + [obs]) ==
            Writes(h, hist) + (if h(hist).Write? then [Stored(h(hist).x, h(hist).value)] else [])
    ensures Locks(h, hist + [obs]) ==
            Locks(h, hist) +
            (if h(hist).Lock? || h(hist).TryLock? then [Taken(h(hist).l, obs == Outcome(true))] else [])
  {
    assert (hist + [obs])[..|hist|] == hist;
  }

  // --------------------------------------------------- one handler on its own

  predicate InMemory(m: seq<int>, ws: seq<Stored>) {
    forall i :: 0 <= i < |ws| ==> ws[i].x < |m|
  }

  /** Memory after the writes. */
  function Put(m: seq<int>, ws: seq<Stored>): (r: seq<int>)
    requires InMemory(m, ws)
    ensures |r| == |m|
  {
    if ws == [] then m else Put(m, ws[..|ws| - 1])[ws[|ws| - 1].x := ws[|ws| - 1].value]
  }

  /** What each write replaced. */
  function Replaced(m: seq<int>, ws: seq<Stored>): (log: seq<Stored>)
    requires InMemory(m, ws)
    ensures |log| == |ws|
    ensures forall i :: 0 <= i < |ws| ==> log[i].x == ws[i].x
  {
    if ws == [] then []
    else
      var past := ws[..|ws| - 1];
      Replaced(m, past) + [Stored(ws[|ws| - 1].x, Put(m, past)[ws[|ws| - 1].x])]
  }

  /** The observation is the one the handler makes next when it runs from memory m with no
      other thread around; whether a trylock succeeds is left open. */
  ghost predicate Answers(h: Handler, m: seq<int>, past: seq<Obs>, obs: Obs) {
    match h(past)
    case Read(x) => x < |m| && InMemory(m, Writes(h, past)) && obs == Value(Put(m, Writes(h, past))[x])
    case Write(x, _) => x < |m| && obs == Unit
    case Lock(_) => obs == Outcome(true)
    case TryLock(_) => obs.Outcome?
    case Unlock(_) => obs == Unit
    case Finish => false
  }

  ghost predicate Follows(h: Handler, m: seq<int>, hist: seq<Obs>) {
    hist == [] || (Follows(h, m, hist[..|hist| - 1]) && Answers(h, m, hist[..|hist| - 1], hist[|hist| - 1]))
  }

  ghost predicate Completes(h: Handler, m: seq<int>, hist: seq<Obs>) {
    Follows(h, m, hist) && h(hist) == Finish
  }

  lemma FollowsSnoc(h: Handler, m: seq<int>, hist: seq<Obs>, obs: Obs)
    ensures Follows(h, m, hist + [obs]) <==> Follows(h, m, hist) && Answers(h, m, hist, obs)
  {
    assert (hist + [obs])[..|hist|] == hist;
  }

  lemma {:induction false} FollowsInMemory(h: Handler, m: seq<int>, hist: seq<Obs>)
    requires Follows(h, m, hist)
    ensures InMemory(m, Writes(h, hist))
  {
    if hist == [] {
    } else {
      FollowsInMemory(h, m, hist[..|hist| - 1]);
    }
  }

  lemma {:induction false} FollowsPrefix(h: Handler, m: seq<int>, hist: seq<Obs>, k: nat)
    requires Follows(h, m, hist) && k <= |hist|
    ensures Follows(h, m, hist[..k])
    ensures k < |hist| ==> Answers(h, m, hist[..k], hist[k])
  {
    hide Answers;
    if k < |hist| {
      var past := hist[..|hist| - 1];
      FollowsPrefix(h, m, past, k);
      assert past[..k] == hist[..k];
    } else {
      assert hist[..k] == hist;
    }
  }

  lemma {:induction false} LocksPrefix(h: Handler, hist: seq<Obs>, k: nat)
    requires k <= |hist|
    ensures Locks(h, hist[..k]) <= Locks(h, hist)
  {
    if k < |hist| {
      var past := hist[..|hist| - 1];
      LocksPrefix(h, past, k);
      assert past[..k] == hist[..k];
    } else {
      assert hist[..k] == hist;
    }
  }

  lemma PutSnoc(m: seq<int>, ws: seq<Stored>, w: Stored)
    requires InMemory(m, ws) && w.x < |m|
    ensures InMemory(m, ws + [w]) && Put(m, ws + [w]) == Put(m, ws)[w.x := w.value]
    ensures Replaced(m, ws + [w]) == Replaced(m, ws) + [Stored(w.x, Put(m, ws)[w.x])]
  {
    assert (ws + [w])[..|ws|] == ws;
  }

  lemma {:induction false} ReplacedPrefix(m: seq<int>, ws: seq<Stored>, k: nat)
    requires InMemory(m, ws) && k <= |ws|
    ensures InMemory(m, ws[..k]) && Replaced(m, ws)[..k] == Replaced(m, ws[..k])
  {
    if k < |ws| {
      var past := ws[..|ws| - 1];
      ReplacedPrefix(m, past, k);
      assert past[..k] == ws[..k];
    } else {
      assert ws[..k] == ws;
    }
  }

  /** A location's contents depend on its own history only. */
  lemma {:induction false} PutLocal(m: seq<int>, n: seq<int>, ws: seq<Stored>, x: nat)
    requires InMemory(m, ws) && |n| == |m| && x < |m|
    requires m[x] == n[x]
    ensures InMemory(n, ws) && Put(m, ws)[x] == Put(n, ws)[x]
  {
    if ws == [] {
    } else {
      PutLocal(m, n, ws[..|ws| - 1], x);
    }
  }

  lemma {:induction false} PutElsewhere(m: seq<int>, ws: seq<Stored>, x: nat)
    requires InMemory(m, ws) && x < |m| && forall i :: 0 <= i < |ws| ==> ws[i].x != x
    ensures Put(m, ws)[x] == m[x]
  {
    if ws == [] {
    } else {
      PutElsewhere(m, ws[..|ws| - 1], x);
    }
  }

  // ------------------------------------------------------- guarded sharing

  /** Every location belongs to a mutex or to a thread. */
  datatype Guard = ByLock(l: nat) | ByThread(t: nat)

  ghost predicate Covered(guard: seq<Guard>, t: int, ls: seq<Taken>, x: int) {
    0 <= x < |guard| &&
    match guard[x]
    case ByThread(u) => u == t
    case ByLock(l) => Taken(l, true) in ls
  }

  /** The location an action touches, or -1. */
  function Place(a: Action): int {
    match a
    case Read(x) => x
    case Write(x, _) => x
    case _ => -1
  }

  /** In no run of the handler does it touch a location before it has taken its mutex. */
  ghost predicate Guarded(guard: seq<Guard>, t: int, h: Handler) {
    forall m: seq<int>, hist: seq<Obs> :: |m| == |guard| && Follows(h, m, hist) ==> TouchesCovered(guard, t, h, hist)
  }

  ghost predicate TouchesCovered(guard: seq<Guard>, t: int, h: Handler, hist: seq<Obs>) {
    Place(h(hist)) >= 0 ==> Covered(guard, t, Locks(h, hist), Place(h(hist)))
  }

  /** Take mutex 0, write location 0, give the mutex back; no return value is looked at. */
  function LockWriteUnlock(hist: seq<Obs>): Action {
    match |hist|
    case 0 => Lock(0)
    case 1 => Write(0, 5)
    case 2 => Unlock(0)
    case _ => Finish
  }

  /** An ordinary handler is guarded. */
  lemma PlainHandlerIsGuarded(t: int)
    ensures Guarded([ByLock(0)], t, LockWriteUnlock)
  {
    var h: Handler := LockWriteUnlock;
    forall m: seq<int>, hist: seq<Obs> | |m| == 1 && Follows(h, m, hist)
      ensures TouchesCovered([ByLock(0)], t, h, hist)
    {
      if |hist| == 1 {
        FollowsPrefix(h, m, hist, 0);
        assert Locks(h, hist) == [Taken(0, true)];
      }
    }
  }

  lemma CoveredMore(guard: seq<Guard>, t: int, ls: seq<Taken>, more: seq<Taken>, x: int)
    requires Covered(guard, t, ls, x) && ls <= more
    ensures Covered(guard, t, more, x)
  {
    if guard[x].ByLock? {
      var i :| 0 <= i < |ls| && ls[i] == Taken(guard[x].l, true);
      assert more[i] == ls[i];
    }
  }

  lemma {:induction false} WritesCovered(guard: seq<Guard>, t: int, h: Handler, m: seq<int>, hist: seq<Obs>)
    requires Guarded(guard, t, h) && |m| == |guard| && Follows(h, m, hist)
    ensures forall i :: 0 <= i < |Writes(h, hist)| ==> Covered(guard, t, Locks(h, hist), Writes(h, hist)[i].x)
  {
    hide Covered, Writes, Locks;
    if hist == [] {
      assert Writes(h, []) == [] by { NoHistory(h); }
    } else {
      var past, obs := hist[..|hist| - 1], hist[|hist| - 1];
      WritesCovered(guard, t, h, m, past);
      assert TouchesCovered(guard, t, h, past);
      HistorySnoc(h, past, obs);
      assert past + [obs] == hist;
      assert Locks(h, past) <= Locks(h, hist);
      var ws := Writes(h, hist);
      forall i | 0 <= i < |ws|
        ensures Covered(guard, t, Locks(h, hist), ws[i].x)
      {
        assert i == |ws| - 1 && h(past).Write? ==> ws[i].x == Place(h(past));
        CoveredMore(guard, t, Locks(h, past), Locks(h, hist), ws[i].x);
      }
    }
  }

  lemma NoHistory(h: Handler)
    ensures Writes(h, []) == [] && Locks(h, []) == []
  {
  }

  ghost predicate SameWhereCovered(guard: seq<Guard>, t: int, ls: seq<Taken>, m: seq<int>, n: seq<int>) {
    |m| == |n| && forall x :: 0 <= x < |m| && Covered(guard, t, ls, x) ==> m[x] == n[x]
  }

  lemma SameWhereLess(guard: seq<Guard>, t: int, ls: seq<Taken>, more: seq<Taken>, m: seq<int>, n: seq<int>)
    requires SameWhereCovered(guard, t, more, m, n) && ls <= more
    ensures SameWhereCovered(guard, t, ls, m, n)
  {
    hide Covered;
    forall x | 0 <= x < |m| && Covered(guard, t, ls, x)
      ensures m[x] == n[x]
    {
      CoveredMore(guard, t, ls, more, x);
    }
  }

  /** A guarded run is the same from memories that agree where it holds the guard. */
  lemma {:induction false} FollowsStable(guard: seq<Guard>, t: int, h: Handler, m: seq<int>, n: seq<int>,
                                         hist: seq<Obs>)
    requires Guarded(guard, t, h) && |m| == |guard| && Follows(h, m, hist)
    requires SameWhereCovered(guard, t, Locks(h, hist), m, n)
    ensures Follows(h, n, hist)
  {
    hide Covered, Writes, Locks, Put;
    if hist == [] {
    } else {
      var past, obs := hist[..|hist| - 1], hist[|hist| - 1];
      HistorySnoc(h, past, obs);
      assert past + [obs] == hist;
      SameWhereLess(guard, t, Locks(h, past), Locks(h, hist), m, n);
      FollowsStable(guard, t, h, m, n, past);
      if h(past).Read? {
        assert TouchesCovered(guard, t, h, past);
        PutLocal(m, n, Writes(h, past), h(past).x);
      }
    }
  }

  lemma {:induction false} ReplacedStable(guard: seq<Guard>, t: int, ls: seq<Taken>, m: seq<int>, n: seq<int>,
                                          ws: seq<Stored>)
    requires InMemory(m, ws) && SameWhereCovered(guard, t, ls, m, n)
    requires forall i :: 0 <= i < |ws| ==> Covered(guard, t, ls, ws[i].x)
    ensures InMemory(n, ws) && Replaced(m, ws) == Replaced(n, ws)
  {
    hide Covered, Put;
    if ws == [] {
    } else {
      var past := ws[..|ws| - 1];
      ReplacedStable(guard, t, ls, m, n, past);
      assert Covered(guard, t, ls, ws[|ws| - 1].x);
      PutLocal(m, n, past, ws[|ws| - 1].x);
    }
  }

  // ---------------------------------------------------------------- threads

  datatype Stage =
    | Outside
    | Phase(ph: nat)
    | Rewinding(ph: nat, left: nat) // entries of the log still to be undone
    | Releasing(next: nat) // next entry of the lock log to be unlocked

  /** `log` is the log of the current phase, `redo` that of the first one after its rewind.  `full`
      is no part of the implementation: it remembers what the first phase observed. */
  datatype Thread = Thread(stage: Stage, h: Handler, hist: seq<Obs>, log: seq<Stored>, redo: seq<Stored>,
                           locks: seq<Taken>, popped: nat, full: seq<Obs>)

  datatype Commit = Commit(h: Handler, hist: seq<Obs>)

  /** Memory, the owner of each mutex (-1: free), the threads, and - for the record - the
      transactions committed so far. */
  datatype State = State(mem: seq<int>, owner: seq<int>, threads: seq<Thread>, committed: seq<Commit>)

  datatype Event = Begin(h: Handler) | Act | EndPhase | UndoOne | NextPhase | CommitAll | LateUnlock | Leave

  /** The recorded outcome that a later phase gets for an operation on mutex l. */
  predicate Replays(th: Thread, l: nat) {
    th.popped < |th.locks| && th.locks[th.popped].l == l
  }

  /** A mutex operation in the first phase waits for the mutex; a later one needs a matching
      record; memory accesses need memory. */
  predicate CanAct(s: State, t: nat)
    requires t < |s.threads| && s.threads[t].stage.Phase?
  {
    var th := s.threads[t];
    match th.h(th.hist)
    case Read(x) => x < |s.mem|
    case Write(x, _) => x < |s.mem|
    case Lock(l) => if th.stage.ph == 0 then l < |s.owner| && s.owner[l] < 0 else Replays(th, l)
    case TryLock(l) => if th.stage.ph == 0 then l < |s.owner| else Replays(th, l)
    case Unlock(_) => true
    case Finish => false
  }

  ghost predicate Enabled(level: nat, guard: seq<Guard>, s: State, t: nat, e: Event) {
    t < |s.threads| &&
    var th := s.threads[t];
    match e
    case Begin(h) => th.stage.Outside? && Guarded(guard, t, h)
    case Act => th.stage.Phase? && CanAct(s, t)
    case EndPhase => th.stage.Phase? && th.stage.ph + 1 < level && th.h(th.hist) == Finish
    case UndoOne => th.stage.Rewinding? && 0 < th.stage.left <= |th.log| && th.log[th.stage.left - 1].x < |s.mem|
    case NextPhase => th.stage.Rewinding? && th.stage.left == 0
    case CommitAll => th.stage.Phase? && th.stage.ph + 1 == level && th.h(th.hist) == Finish
    case LateUnlock => th.stage.Releasing? && th.stage.next < |th.locks|
    case Leave => th.stage.Releasing? && th.stage.next >= |th.locks|
  }

  function Saw(th: Thread, obs: Obs): Thread {
    th.(hist := th.hist + [obs])
  }

  /** A lock or trylock: taken and recorded in the first phase, replayed in later ones. */
  function AfterMutex(s: State, t: nat, l: nat): (r: State)
    requires t < |s.threads| && s.threads[t].stage.Phase?
    requires if s.threads[t].stage.ph == 0 then l < |s.owner| else Replays(s.threads[t], l)
  {
    var th := s.threads[t];
    if th.stage.ph == 0 then
      var ok := s.owner[l] < 0;
      s.(owner := if ok then s.owner[l := t] else s.owner,
         threads := s.threads[t := Saw(th.(locks := th.locks + [Taken(l, ok)]), Outcome(ok))])
    else
      s.(threads := s.threads[t := Saw(th.(popped := th.popped + 1), Outcome(th.locks[th.popped].ok))])
  }

  /** One action of the current phase. */
  function AfterAct(s: State, t: nat): (r: State)
    requires t < |s.threads| && s.threads[t].stage.Phase? && CanAct(s, t)
  {
    var th := s.threads[t];
    match th.h(th.hist)
    case Read(x) => s.(threads := s.threads[t := Saw(th, Value(s.mem[x]))])
    case Write(x, v) =>
      s.(mem := s.mem[x := v], threads := s.threads[t := Saw(th.(log := th.log + [Stored(x, s.mem[x])]), Unit)])
    case Unlock(_) => s.(threads := s.threads[t := Saw(th, Unit)])
    case Lock(l) => AfterMutex(s, t, l)
    case TryLock(l) => AfterMutex(s, t, l)
    case Finish => s
  }

  ghost function After(level: nat, guard: seq<Guard>, s: State, t: nat, e: Event): (r: State)
    requires Enabled(level, guard, s, t, e)
  {
    var th := s.threads[t];
    match e
    case Begin(h) => s.(threads := s.threads[t := Thread(Phase(0), h, [], [], [], [], 0, [])])
    case Act => AfterAct(s, t)
    case EndPhase =>
      s.(threads := s.threads[t := th.(stage := Rewinding(th.stage.ph, |th.log|), full := th.hist)])
    case UndoOne =>
      var k := th.stage.left - 1;
      s.(mem := s.mem[th.log[k].x := th.log[k].value],
         threads := s.threads[t := th.(stage := Rewinding(th.stage.ph, k),
                                       log := th.log[k := Stored(th.log[k].x, s.mem[th.log[k].x])])])
    case NextPhase =>
      s.(threads := s.threads[t := th.(stage := Phase(th.stage.ph + 1), hist := [], log := [], popped := 0,
                                       redo := if th.stage.ph == 0 then th.log else th.redo)])
    case CommitAll =>
      s.(threads := s.threads[t := th.(stage := Releasing(0))], committed := s.committed + [Commit(th.h, th.hist)])
    case LateUnlock =>
      var entry := th.locks[th.stage.next];
      s.(owner := if entry.ok && entry.l < |s.owner| then s.owner[entry.l := -1] else s.owner,
         threads := s.threads[t := th.(stage := Releasing(th.stage.next + 1))])
    case Leave => s.(threads := s.threads[t := th.(stage := Outside, locks := [])])
  }

  // -------------------------------------------------------------- invariant

  /** The mutexes a thread still has to unlock. */
  function Outstanding(th: Thread): seq<Taken> {
    match th.stage
    case Outside => []
    case Releasing(next) => if next <= |th.locks| then th.locks[next..] else []
    case _ => th.locks
  }

  /** The writes of a thread that are in memory but not committed. */
  function Pending(th: Thread): seq<Stored> {
    match th.stage
    case Phase(_) => Writes(th.h, th.hist)
    case Rewinding(_, left) =>
      if left <= |Writes(th.h, th.hist)| then Writes(th.h, th.hist)[..left] else Writes(th.h, th.hist)
    case _ => []
  }

  /** A later phase is on the tracks of the first one. */
  ghost predicate Retracing(m: seq<int>, th: Thread) {
    Completes(th.h, m, th.full) && th.locks == Locks(th.h, th.full) && |th.hist| <= |th.full| &&
    th.hist == th.full[..|th.hist|] && th.popped == |Locks(th.h, th.hist)| &&
    th.redo == Writes(th.h, th.full)
  }

  ghost predicate ThreadInv(guard: seq<Guard>, m: seq<int>, t: int, th: Thread) {
    match th.stage
    case Outside => true
    case Phase(ph) =>
      |m| == |guard| && Guarded(guard, t, th.h) && Follows(th.h, m, th.hist) && InMemory(m, Writes(th.h, th.hist)) &&
      th.log == Replaced(m, Writes(th.h, th.hist)) &&
      if ph == 0 then th.locks == Locks(th.h, th.hist) else Retracing(m, th)
    case Rewinding(ph, left) =>
      |m| == |guard| && Guarded(guard, t, th.h) && Completes(th.h, m, th.hist) && th.hist == th.full &&
      th.locks == Locks(th.h, th.hist) &&
      InMemory(m, Writes(th.h, th.hist)) && left <= |Writes(th.h, th.hist)| == |th.log| &&
      th.log[..left] == Replaced(m, Writes(th.h, th.hist))[..left] &&
      th.log[left..] == Writes(th.h, th.hist)[left..] && (ph > 0 ==> th.redo == Writes(th.h, th.hist))
    case Releasing(next) => next <= |th.locks|
  }

  ghost predicate NoneTwice(ls: seq<Taken>) {
    forall i, j :: 0 <= i < j < |ls| && ls[i].ok && ls[j].ok ==> ls[i].l != ls[j].l
  }

  /** The owner of a mutex is the thread that has still to unlock it. */
  ghost predicate LockInv(s: State) {
    (forall l :: 0 <= l < |s.owner| ==> -1 <= s.owner[l] < |s.threads|) &&
    (forall t :: 0 <= t < |s.threads| ==> NoneTwice(Outstanding(s.threads[t]))) &&
    (forall t, l :: 0 <= t < |s.threads| && 0 <= l ==>
      (Taken(l, true) in Outstanding(s.threads[t]) <==> l < |s.owner| && s.owner[l] == t))
  }

  /** The thread a location belongs to at the moment, or -1. */
  function Holder(guard: seq<Guard>, s: State, x: int): (t: int)
    requires 0 <= x < |guard|
  {
    match guard[x]
    case ByThread(t) => if t < |s.threads| then t else -1
    case ByLock(l) => if l < |s.owner| then s.owner[l] else -1
  }

  /** Memory is the serial memory, plus the pending writes of each location's holder. */
  ghost predicate MemoryInv(guard: seq<Guard>, s: State, m: seq<int>)
    requires |guard| == |m| == |s.mem|
  {
    forall x :: 0 <= x < |m| ==>
      var t := Holder(guard, s, x);
      if 0 <= t < |s.threads| && InMemory(m, Pending(s.threads[t]))
      then s.mem[x] == Put(m, Pending(s.threads[t]))[x]
      else s.mem[x] == m[x]
  }

  ghost predicate Inv(guard: seq<Guard>, s: State, m: seq<int>) {
    |guard| == |m| == |s.mem| && LockInv(s) && MemoryInv(guard, s, m) &&
    forall t :: 0 <= t < |s.threads| ==> ThreadInv(guard, m, t, s.threads[t])
  }

  /** The thread holds exactly the locations its outstanding mutexes cover. */
  lemma HoldsWhatItCovers(guard: seq<Guard>, s: State, t: int, x: int)
    requires LockInv(s) && 0 <= t < |s.threads| && 0 <= x < |guard|
    ensures Holder(guard, s, x) == t <==> Covered(guard, t, Outstanding(s.threads[t]), x)
  {
  }

  lemma PendingInMemory(guard: seq<Guard>, m: seq<int>, t: int, th: Thread)
    requires ThreadInv(guard, m, t, th)
    ensures InMemory(m, Pending(th))
  {
    hide Writes, Replaced, Follows, Locks, Guarded;
  }

  lemma PendingCovered(guard: seq<Guard>, m: seq<int>, t: int, th: Thread)
    requires ThreadInv(guard, m, t, th)
    ensures forall i :: 0 <= i < |Pending(th)| ==> Covered(guard, t, Outstanding(th), Pending(th)[i].x)
  {
    hide Writes, Replaced, Follows, Locks, Guarded, Covered;
    if th.stage.Phase? || th.stage.Rewinding? {
      WritesCovered(guard, t, th.h, m, th.hist);
      LocksKept(guard, m, t, th);
      var ws := Writes(th.h, th.hist);
      forall i | 0 <= i < |ws|
        ensures Covered(guard, t, th.locks, ws[i].x)
      {
        CoveredMore(guard, t, Locks(th.h, th.hist), th.locks, ws[i].x);
      }
    }
  }

  lemma LocksKept(guard: seq<Guard>, m: seq<int>, t: int, th: Thread)
    requires ThreadInv(guard, m, t, th) && (th.stage.Phase? || th.stage.Rewinding?)
    ensures Locks(th.h, th.hist) <= th.locks == Outstanding(th)
  {
    hide Writes, Replaced, Follows, Locks, Guarded;
    if th.stage.Phase? && th.stage.ph > 0 {
      LocksPrefix(th.h, th.full, |th.hist|);
    }
  }

  // ------------------------------------------------ every step keeps the invariant

  lemma HeldMemory(guard: seq<Guard>, s: State, m: seq<int>, t: int, x: int)
    requires Inv(guard, s, m) && 0 <= t < |s.threads| && 0 <= x < |m| && Holder(guard, s, x) == t
    ensures InMemory(m, Pending(s.threads[t])) && s.mem[x] == Put(m, Pending(s.threads[t]))[x]
  {
    hide Pending, Put, ThreadInv, LockInv, Holder;
    PendingInMemory(guard, m, t, s.threads[t]);
  }

  /** A step that moves one thread on but changes neither memory, nor owners, nor what the
      thread holds or has pending. */
  lemma ThreadMoves(guard: seq<Guard>, s: State, s': State, m: seq<int>, t: nat, th: Thread)
    requires Inv(guard, s, m) && t < |s.threads| && ThreadInv(guard, m, t, th)
    requires s'.threads == s.threads[t := th] && s'.mem == s.mem && s'.owner == s.owner
    requires Outstanding(th) == Outstanding(s.threads[t]) && Pending(th) == Pending(s.threads[t])
    ensures Inv(guard, s', m)
  {
    hide ThreadInv, Put, Pending, Outstanding, InMemory;
  }

  /** The first phase's view of a location it has locked is the serial one. */
  lemma ReadsSerial(guard: seq<Guard>, s: State, m: seq<int>, t: nat)
    requires Inv(guard, s, m) && t < |s.threads| && s.threads[t].stage.Phase?
    requires Place(s.threads[t].h(s.threads[t].hist)) >= 0
    ensures var th, x := s.threads[t], Place(s.threads[t].h(s.threads[t].hist));
            x < |m| && Holder(guard, s, x) == t && InMemory(m, Writes(th.h, th.hist)) &&
            s.mem[x] == Put(m, Writes(th.h, th.hist))[x]
  {
    var th := s.threads[t];
    var x := Place(th.h(th.hist));
    assert ThreadInv(guard, m, t, th) && Guarded(guard, t, th.h) && Follows(th.h, m, th.hist);
    assert TouchesCovered(guard, t, th.h, th.hist);
    hide Writes, Put, Locks, ThreadInv, Follows, LockInv, MemoryInv, Covered, Holder;
    assert Covered(guard, t, Locks(th.h, th.hist), x);
    LocksKept(guard, m, t, th);
    CoveredMore(guard, t, Locks(th.h, th.hist), th.locks, x);
    assert 0 <= x < |guard| by { CoveredPlace(guard, t, th.locks, x); }
    HoldsWhatItCovers(guard, s, t, x);
    HeldMemory(guard, s, m, t, x);
  }

  lemma CoveredPlace(guard: seq<Guard>, t: int, ls: seq<Taken>, x: int)
    requires Covered(guard, t, ls, x)
    ensures 0 <= x < |guard|
  {
  }

  /** The answer a phase gets is the serial one, and a later phase is on its track. */
  lemma Advances(guard: seq<Guard>, m: seq<int>, t: int, th: Thread, obs: Obs, th': Thread)
    requires ThreadInv(guard, m, t, th) && th.stage.Phase? && Answers(th.h, m, th.hist, obs)
    requires th'.stage == th.stage && th'.h == th.h && th'.full == th.full && th'.hist == th.hist + [obs]
    requires th.stage.ph > 0 ==> |th.hist| < |th.full| && obs == th.full[|th.hist|]
    ensures Guarded(guard, t, th'.h) && Follows(th.h, m, th'.hist) && InMemory(m, Writes(th.h, th'.hist))
    ensures th.stage.ph > 0 ==> |th'.hist| <= |th.full| && th'.hist == th.full[..|th'.hist|]
  {
    hide Writes, Put, Locks, Guarded, Answers, Replaced;
    FollowsSnoc(th.h, m, th.hist, obs);
    FollowsInMemory(th.h, m, th'.hist);
  }

  /** A later phase observes what the first one observed. */
  lemma SameAnswer(m: seq<int>, th: Thread, obs: Obs)
    requires Retracing(m, th) && Follows(th.h, m, th.hist) && Answers(th.h, m, th.hist, obs)
    requires th.h(th.hist).TryLock? ==> obs == Outcome(th.popped < |th.locks| && th.locks[th.popped].ok)
    ensures |th.hist| < |th.full| && obs == th.full[|th.hist|]
  {
    hide Writes, Put, Locks, Follows;
    NotDone(m, th);
    FollowsPrefix(th.h, m, th.full, |th.hist|);
    if th.h(th.hist).TryLock? {
      Replay(m, th);
    }
  }

  lemma NotDone(m: seq<int>, th: Thread)
    requires Retracing(m, th) && th.h(th.hist) != Finish
    ensures |th.hist| < |th.full|
  {
    hide Follows, Locks;
    assert |th.hist| == |th.full| ==> th.hist == th.full;
  }

  /** The next record is the one the next mutex operation made. */
  lemma Replay(m: seq<int>, th: Thread)
    requires Retracing(m, th) && (th.h(th.hist).Lock? || th.h(th.hist).TryLock?)
    ensures |th.hist| < |th.full| && th.popped < |th.locks|
    ensures th.locks[th.popped] == Taken(th.h(th.hist).l, th.full[|th.hist|] == Outcome(true))
  {
    hide Follows, Locks;
    NotDone(m, th);
    var n := |th.hist|;
    assert th.full[..n + 1] == th.hist + [th.full[n]];
    HistorySnoc(th.h, th.hist, th.full[n]);
    LocksPrefix(th.h, th.full, n + 1);
    assert Locks(th.h, th.full[..n + 1])[th.popped] == th.locks[th.popped];
  }

  /** Actions that write nothing and take nothing. */
  lemma PlainActKeeps(guard: seq<Guard>, s: State, m: seq<int>, t: nat)
    requires Inv(guard, s, m) && t < |s.threads| && s.threads[t].stage.Phase? && CanAct(s, t)
    requires var a := s.threads[t].h(s.threads[t].hist); a.Read? || a.Unlock?
    ensures Inv(guard, AfterAct(s, t), m)
  {
    var th := s.threads[t];
    assert ThreadInv(guard, m, t, th);
    var obs := if th.h(th.hist).Read? then Value(s.mem[th.h(th.hist).x]) else Unit;
    hide Writes, Put, Locks, Follows, Replaced, Guarded, Inv;
    if th.h(th.hist).Read? {
      ReadsSerial(guard, s, m, t);
    }
    if th.stage.ph > 0 {
      SameAnswer(m, th, obs);
    }
    HistorySnoc(th.h, th.hist, obs);
    Advances(guard, m, t, th, obs, Saw(th, obs));
    ThreadMoves(guard, s, AfterAct(s, t), m, t, Saw(th, obs));
  }

  /** A mutex operation of a later phase. */
  lemma ReplayKeeps(guard: seq<Guard>, s: State, m: seq<int>, t: nat)
    requires Inv(guard, s, m) && t < |s.threads| && s.threads[t].stage.Phase? && CanAct(s, t)
    requires var a := s.threads[t].h(s.threads[t].hist); a.Lock? || a.TryLock?
    requires s.threads[t].stage.ph > 0
    ensures Inv(guard, AfterAct(s, t), m)
  {
    var th := s.threads[t];
    assert ThreadInv(guard, m, t, th);
    hide Writes, Put, Locks, Replaced, Guarded, Inv, Follows;
    Replay(m, th);
    FollowsPrefix(th.h, m, th.full, |th.hist|);
    var obs := Outcome(th.locks[th.popped].ok);
    SameAnswer(m, th, obs);
    HistorySnoc(th.h, th.hist, obs);
    var th' := Saw(th.(popped := th.popped + 1), obs);
    Advances(guard, m, t, th, obs, th');
    ThreadMoves(guard, s, AfterAct(s, t), m, t, th');
  }

  lemma WriteKeepsThread(guard: seq<Guard>, s: State, m: seq<int>, t: nat)
    requires Inv(guard, s, m) && t < |s.threads| && s.threads[t].stage.Phase? && CanAct(s, t)
    requires s.threads[t].h(s.threads[t].hist).Write?
    ensures ThreadInv(guard, m, t, AfterAct(s, t).threads[t])
    ensures var th, th' := s.threads[t], AfterAct(s, t).threads[t];
            Outstanding(th') == Outstanding(th) &&
            Pending(th') == Pending(th) + [Stored(th.h(th.hist).x, th.h(th.hist).value)]
  {
    var th := s.threads[t];
    assert ThreadInv(guard, m, t, th);
    hide Writes, Put, Locks, Follows, Replaced, Guarded, Inv;
    ReadsSerial(guard, s, m, t);
    if th.stage.ph > 0 {
      SameAnswer(m, th, Unit);
    }
    HistorySnoc(th.h, th.hist, Unit);
    PutSnoc(m, Writes(th.h, th.hist), Stored(th.h(th.hist).x, th.h(th.hist).value));
    Advances(guard, m, t, th, Unit, AfterAct(s, t).threads[t]);
  }

  /** A step that changes one location its thread holds, and its pending writes to match. */
  lemma MemoryMoves(guard: seq<Guard>, s: State, s': State, m: seq<int>, t: nat, th: Thread, x: nat, v: int)
    requires Inv(guard, s, m) && t < |s.threads| && ThreadInv(guard, m, t, th) && x < |m|
    requires s'.threads == s.threads[t := th] && s'.mem == s.mem[x := v] && s'.owner == s.owner
    requires Outstanding(th) == Outstanding(s.threads[t]) && Holder(guard, s, x) == t
    requires InMemory(m, Pending(th)) && InMemory(m, Pending(s.threads[t]))
    requires Put(m, Pending(th)) == Put(m, Pending(s.threads[t]))[x := v]
    ensures Inv(guard, s', m)
  {
    hide ThreadInv, Put, Pending, Outstanding, InMemory;
    assert forall y :: 0 <= y < |m| ==> Holder(guard, s', y) == Holder(guard, s, y);
    assert LockInv(s');
    hide LockInv, Holder;
    forall y | 0 <= y < |m|
      ensures var u := Holder(guard, s', y);
              if 0 <= u < |s'.threads| && InMemory(m, Pending(s'.threads[u]))
              then s'.mem[y] == Put(m, Pending(s'.threads[u]))[y] else s'.mem[y] == m[y]
    {
    }
  }

  lemma AfterWrite(s: State, t: nat)
    requires t < |s.threads| && s.threads[t].stage.Phase? && CanAct(s, t)
    requires s.threads[t].h(s.threads[t].hist).Write?
    ensures var s', a := AfterAct(s, t), s.threads[t].h(s.threads[t].hist);
            |s'.threads| == |s.threads| && s'.threads == s.threads[t := s'.threads[t]] &&
            s'.mem == s.mem[a.x := a.value] && s'.owner == s.owner
  {
  }

  /** Writing a location the thread holds. */
  lemma WriteKeeps(guard: seq<Guard>, s: State, m: seq<int>, t: nat)
    requires Inv(guard, s, m) && t < |s.threads| && s.threads[t].stage.Phase? && CanAct(s, t)
    requires s.threads[t].h(s.threads[t].hist).Write?
    ensures Inv(guard, AfterAct(s, t), m)
  {
    var th := s.threads[t];
    var w := Stored(th.h(th.hist).x, th.h(th.hist).value);
    WriteKeepsThread(guard, s, m, t);
    ReadsSerial(guard, s, m, t);
    PendingInMemory(guard, m, t, th);
    hide Writes, Put, Locks, Replaced, ThreadInv, Pending, Outstanding, LockInv, MemoryInv, AfterAct, Holder;
    PutSnoc(m, Pending(th), w);
    AfterWrite(s, t);
    MemoryMoves(guard, s, AfterAct(s, t), m, t, AfterAct(s, t).threads[t], w.x, w.value);
  }

  /** The newest entry not yet undone takes memory back before its write. */
  lemma UndoValue(m: seq<int>, ws: seq<Stored>, log: seq<Stored>, k: nat)
    requires InMemory(m, ws) && k < |ws| == |log| && log[..k + 1] == Replaced(m, ws)[..k + 1]
    ensures InMemory(m, ws[..k]) && InMemory(m, ws[..k + 1]) && log[k].x == ws[k].x
    ensures Put(m, ws[..k]) == Put(m, ws[..k + 1])[ws[k].x := log[k].value]
  {
    hide Put, Replaced;
    ReplacedPrefix(m, ws, k + 1);
    assert ws[..k + 1] == ws[..k] + [ws[k]];
    PutSnoc(m, ws[..k], ws[k]);
    assert log[k] == log[..k + 1][k];
  }

  lemma LogShortened(log: seq<Stored>, r: seq<Stored>, k: nat, e: Stored)
    requires k < |log| == |r| && log[..k + 1] == r[..k + 1]
    ensures log[k := e][..k] == r[..k]
  {
    assert r[..k] == r[..k + 1][..k] && log[k := e][..k] == log[..k + 1][..k];
  }

  function Undone(th: Thread, e: Stored): Thread
    requires th.stage.Rewinding? && 0 < th.stage.left <= |th.log|
  {
    th.(stage := Rewinding(th.stage.ph, th.stage.left - 1), log := th.log[th.stage.left - 1 := e])
  }

  lemma UndoKeepsThread(guard: seq<Guard>, m: seq<int>, t: nat, th: Thread, e: Stored)
    requires ThreadInv(guard, m, t, th) && th.stage.Rewinding? && 0 < th.stage.left <= |th.log|
    requires th.stage.left <= |Writes(th.h, th.hist)| && e == Writes(th.h, th.hist)[th.stage.left - 1]
    ensures ThreadInv(guard, m, t, Undone(th, e)) && Outstanding(Undone(th, e)) == Outstanding(th)
  {
    hide Writes, Put, Locks, Replaced, Follows, Guarded, InMemory;
    LogShortened(th.log, Replaced(m, Writes(th.h, th.hist)), th.stage.left - 1, e);
    LogRedone(th.log, Writes(th.h, th.hist), th.stage.left - 1);
  }

  lemma LogRedone(log: seq<Stored>, ws: seq<Stored>, k: nat)
    requires k < |log| == |ws| && log[k + 1..] == ws[k + 1..]
    ensures log[k := ws[k]][k..] == ws[k..]
  {
    assert forall i :: k + 1 <= i < |ws| ==> log[i] == log[k + 1..][i - k - 1] && ws[i] == ws[k + 1..][i - k - 1];
  }

  /** What memory holds before a write is undone is what the write put there. */
  lemma UndoFinds(m: seq<int>, ws: seq<Stored>, k: nat)
    requires InMemory(m, ws) && k < |ws|
    ensures InMemory(m, ws[..k + 1]) && Put(m, ws[..k + 1])[ws[k].x] == ws[k].value
  {
    hide Put;
    assert ws[..k + 1] == ws[..k] + [ws[k]];
    PutSnoc(m, ws[..k], ws[k]);
  }

  lemma UndoPending(guard: seq<Guard>, m: seq<int>, t: nat, th: Thread)
    requires ThreadInv(guard, m, t, th) && th.stage.Rewinding? && 0 < th.stage.left <= |th.log|
    ensures th.stage.left <= |Writes(th.h, th.hist)| && InMemory(m, Pending(th)) && th.log[th.stage.left - 1].x < |m|
    ensures var e, last := Writes(th.h, th.hist)[th.stage.left - 1], th.log[th.stage.left - 1];
            InMemory(m, Pending(Undone(th, e))) && e == Stored(last.x, Put(m, Pending(th))[last.x]) &&
            Put(m, Pending(Undone(th, e))) == Put(m, Pending(th))[last.x := last.value]
    ensures Covered(guard, t, Outstanding(th), th.log[th.stage.left - 1].x)
  {
    var ws, k := Writes(th.h, th.hist), th.stage.left - 1;
    PendingCovered(guard, m, t, th);
    assert Pending(th) == ws[..k + 1] && Pending(Undone(th, ws[k])) == ws[..k];
    assert Covered(guard, t, Outstanding(th), Pending(th)[k].x);
    hide Writes, Put, Locks, Replaced, Follows, Guarded, Covered, Pending, Outstanding, InMemory;
    UndoValue(m, ws, th.log, k);
    UndoFinds(m, ws, k);
  }

  /** Undoing one write of a phase that is over. */
  lemma UndoKeeps(guard: seq<Guard>, s: State, m: seq<int>, t: nat, level: nat)
    requires Inv(guard, s, m) && Enabled(level, guard, s, t, UndoOne)
    ensures Inv(guard, After(level, guard, s, t, UndoOne), m)
  {
    var th := s.threads[t];
    var last := th.log[th.stage.left - 1];
    assert ThreadInv(guard, m, t, th);
    hide Put, ThreadInv, Holder, Covered, Pending, Outstanding, LockInv, MemoryInv, Writes;
    UndoPending(guard, m, t, th);
    HoldsWhatItCovers(guard, s, t, last.x);
    HeldMemory(guard, s, m, t, last.x);
    var e := Stored(last.x, s.mem[last.x]);
    UndoKeepsThread(guard, m, t, th, e);
    MemoryMoves(guard, s, After(level, guard, s, t, UndoOne), m, t, Undone(th, e), last.x, last.value);
  }

  // --------------------------------------------------- mutexes change hands

  /** The thread after a mutex operation of its first phase. */
  lemma TakeKeepsThread(guard: seq<Guard>, m: seq<int>, t: nat, th: Thread, l: nat, ok: bool)
    requires ThreadInv(guard, m, t, th) && th.stage == Phase(0)
    requires th.h(th.hist) == TryLock(l) || (th.h(th.hist) == Lock(l) && ok)
    ensures var th' := Saw(th.(locks := th.locks + [Taken(l, ok)]), Outcome(ok));
            ThreadInv(guard, m, t, th') && Outstanding(th') == Outstanding(th) + [Taken(l, ok)] &&
            Pending(th') == Pending(th)
  {
    hide Writes, Put, Locks, Follows, Replaced, Guarded;
    HistorySnoc(th.h, th.hist, Outcome(ok));
    assert Writes(th.h, th.hist + [Outcome(ok)]) == Writes(th.h, th.hist);
    Advances(guard, m, t, th, Outcome(ok), Saw(th.(locks := th.locks + [Taken(l, ok)]), Outcome(ok)));
  }

  /** Owners stay right when a thread takes a free mutex, or fails to take one. */
  lemma TakeKeepsLocks(s: State, s': State, t: nat, th: Thread, l: nat, ok: bool)
    requires LockInv(s) && t < |s.threads| && l < |s.owner| && (ok ==> s.owner[l] < 0)
    requires s'.threads == s.threads[t := th] && s'.owner == if ok then s.owner[l := t] else s.owner
    requires Outstanding(th) == Outstanding(s.threads[t]) + [Taken(l, ok)]
    ensures LockInv(s')
  {
    hide Outstanding;
    var ls := Outstanding(s.threads[t]);
    assert NoneTwice(ls);
    assert ok ==> Taken(l, true) !in ls;
    assert NoneTwice(Outstanding(th)) by {
      forall i, j | 0 <= i < j < |ls| + 1 && Outstanding(th)[i].ok && Outstanding(th)[j].ok
        ensures Outstanding(th)[i].l != Outstanding(th)[j].l
      {
        assert Outstanding(th)[i] == ls[i];
        assert ls[i] == Taken(ls[i].l, true);
      }
    }
    assert forall k :: Taken(k, true) in Outstanding(th) <==> Taken(k, true) in ls || (k == l && ok);
  }

  /** A mutex that was free covers nothing its new owner has written. */
  lemma FreshlyTaken(guard: seq<Guard>, s: State, m: seq<int>, t: nat, l: nat, x: nat)
    requires Inv(guard, s, m) && t < |s.threads| && l < |s.owner| && s.owner[l] < 0
    requires x < |m| && guard[x] == ByLock(l)
    ensures InMemory(m, Pending(s.threads[t])) && Put(m, Pending(s.threads[t]))[x] == m[x] == s.mem[x]
  {
    var th := s.threads[t];
    assert ThreadInv(guard, m, t, th) && Taken(l, true) !in Outstanding(th);
    hide Pending, Put, ThreadInv, Outstanding, LockInv;
    PendingInMemory(guard, m, t, th);
    PendingCovered(guard, m, t, th);
    forall i | 0 <= i < |Pending(th)|
      ensures Pending(th)[i].x != x
    {
      assert Covered(guard, t, Outstanding(th), Pending(th)[i].x);
    }
    PutElsewhere(m, Pending(th), x);
  }

  lemma TakeKeeps(guard: seq<Guard>, s: State, s': State, m: seq<int>, t: nat, th: Thread, l: nat, ok: bool)
    requires Inv(guard, s, m) && t < |s.threads| && l < |s.owner| && (ok ==> s.owner[l] < 0)
    requires s'.threads == s.threads[t := th] && s'.mem == s.mem
    requires s'.owner == if ok then s.owner[l := t] else s.owner
    requires ThreadInv(guard, m, t, th) && Pending(th) == Pending(s.threads[t])
    requires Outstanding(th) == Outstanding(s.threads[t]) + [Taken(l, ok)]
    ensures Inv(guard, s', m)
  {
    TakeKeepsLocks(s, s', t, th, l, ok);
    hide Pending, Put, ThreadInv, Outstanding, LockInv, InMemory;
    forall x | 0 <= x < |m|
      ensures var u := Holder(guard, s', x);
              if 0 <= u < |s'.threads| && InMemory(m, Pending(s'.threads[u]))
              then s'.mem[x] == Put(m, Pending(s'.threads[u]))[x] else s'.mem[x] == m[x]
    {
      if ok && guard[x] == ByLock(l) {
        FreshlyTaken(guard, s, m, t, l, x);
      } else {
        assert Holder(guard, s', x) == Holder(guard, s, x);
      }
    }
  }

  lemma FirstPhaseMutexKeeps(guard: seq<Guard>, s: State, m: seq<int>, t: nat)
    requires Inv(guard, s, m) && t < |s.threads| && s.threads[t].stage.Phase? && CanAct(s, t)
    requires var a := s.threads[t].h(s.threads[t].hist); a.Lock? || a.TryLock?
    requires s.threads[t].stage.ph == 0
    ensures Inv(guard, AfterAct(s, t), m)
  {
    var th := s.threads[t];
    var l := th.h(th.hist).l;
    var ok := s.owner[l] < 0;
    var th' := Saw(th.(locks := th.locks + [Taken(l, ok)]), Outcome(ok));
    assert ThreadInv(guard, m, t, th);
    hide Pending, Put, ThreadInv, Outstanding, LockInv, MemoryInv;
    TakeKeepsThread(guard, m, t, th, l, ok);
    TakeKeeps(guard, s, AfterAct(s, t), m, t, th', l, ok);
  }

  /** One late unlock: the mutex is the thread's own, and nothing under it is pending. */
  lemma UnlockKeepsLocks(s: State, s': State, t: nat, th: Thread, e: Taken)
    requires LockInv(s) && t < |s.threads|
    requires Outstanding(s.threads[t]) == [e] + Outstanding(th) && s'.threads == s.threads[t := th]
    requires s'.owner == if e.ok && e.l < |s.owner| then s.owner[e.l := -1] else s.owner
    ensures LockInv(s')
    ensures e.ok ==> e.l < |s.owner| && s.owner[e.l] == t
  {
    hide Outstanding;
    var ls, rest := Outstanding(s.threads[t]), Outstanding(th);
    assert NoneTwice(ls);
    assert ls[0] == e && rest == ls[1..];
    assert e == Taken(e.l, e.ok);
    assert NoneTwice(rest) by {
      forall i, j | 0 <= i < j < |rest| && rest[i].ok && rest[j].ok
        ensures rest[i].l != rest[j].l
      {
        assert rest[i] == ls[i + 1] && rest[j] == ls[j + 1];
      }
    }
    assert forall i :: 0 <= i < |rest| ==> rest[i] == ls[i + 1];
    assert e.ok ==> Taken(e.l, true) !in rest;
    assert forall k :: Taken(k, true) in ls <==> Taken(k, true) in rest || (k == e.l && e.ok);
  }

  lemma LateUnlockKeeps(guard: seq<Guard>, s: State, m: seq<int>, t: nat, level: nat)
    requires Inv(guard, s, m) && Enabled(level, guard, s, t, LateUnlock)
    ensures Inv(guard, After(level, guard, s, t, LateUnlock), m)
    ensures var e := s.threads[t].locks[s.threads[t].stage.next]; e.ok ==> e.l < |s.owner| && s.owner[e.l] == t
  {
    var th := s.threads[t];
    var s' := After(level, guard, s, t, LateUnlock);
    var e, th' := th.locks[th.stage.next], s'.threads[t];
    assert ThreadInv(guard, m, t, th);
    assert Outstanding(th) == [e] + Outstanding(th');
    UnlockKeepsLocks(s, s', t, th', e);
    assert ThreadInv(guard, m, t, th') && Pending(th') == Pending(th) == [];
    assert InMemory(m, []) && Put(m, []) == m;
    hide Pending, Put, ThreadInv, Outstanding, LockInv, InMemory;
    forall x | 0 <= x < |m|
      ensures var u := Holder(guard, s', x);
              if 0 <= u < |s'.threads| && InMemory(m, Pending(s'.threads[u]))
              then s'.mem[x] == Put(m, Pending(s'.threads[u]))[x] else s'.mem[x] == m[x]
    {
      assert Holder(guard, s', x) == Holder(guard, s, x) || Holder(guard, s, x) == t;
    }
  }

  // ----------------------------------------------------------------- commit

  /** What a thread has seen and logged is the same for any serial memory that agrees with the
      old one on the locations it holds. */
  lemma ThreadStable(guard: seq<Guard>, m: seq<int>, n: seq<int>, t: int, th: Thread)
    requires ThreadInv(guard, m, t, th) && SameWhereCovered(guard, t, Outstanding(th), m, n)
    ensures ThreadInv(guard, n, t, th)
  {
    if th.stage.Phase? || th.stage.Rewinding? {
      hide Writes, Put, Locks, Replaced, Follows, Guarded, SameWhereCovered, InMemory, Covered;
      LocksKept(guard, m, t, th);
      SameWhereLess(guard, t, Locks(th.h, th.hist), th.locks, m, n);
      FollowsStable(guard, t, th.h, m, n, th.hist);
      WritesCovered(guard, t, th.h, m, th.hist);
      ReplacedStable(guard, t, Locks(th.h, th.hist), m, n, Writes(th.h, th.hist));
      if th.stage.Phase? && th.stage.ph > 0 {
        FollowsStable(guard, t, th.h, m, n, th.full);
      }
    }
  }

  /** Committing changes only locations the committing thread holds. */
  lemma CommitElsewhere(guard: seq<Guard>, s: State, m: seq<int>, t: nat, x: nat)
    requires Inv(guard, s, m) && t < |s.threads| && x < |m| && Holder(guard, s, x) != t
    ensures InMemory(m, Pending(s.threads[t])) && Put(m, Pending(s.threads[t]))[x] == m[x]
  {
    var th := s.threads[t];
    assert ThreadInv(guard, m, t, th);
    hide Pending, Put, ThreadInv, Outstanding, LockInv, MemoryInv, Holder, Covered;
    PendingInMemory(guard, m, t, th);
    PendingCovered(guard, m, t, th);
    HoldsWhatItCovers(guard, s, t, x);
    assert forall i :: 0 <= i < |Pending(th)| ==> Pending(th)[i].x != x;
    PutElsewhere(m, Pending(th), x);
  }

  lemma OthersStable(guard: seq<Guard>, s: State, m: seq<int>, n: seq<int>, t: nat, u: nat)
    requires Inv(guard, s, m) && t < |s.threads| && u < |s.threads| && u != t
    requires InMemory(m, Pending(s.threads[t])) && n == Put(m, Pending(s.threads[t]))
    ensures ThreadInv(guard, n, u, s.threads[u])
    ensures forall x :: 0 <= x < |m| && Holder(guard, s, x) == u ==> n[x] == m[x]
  {
    var th := s.threads[u];
    assert ThreadInv(guard, m, u, th);
    hide Pending, Put, ThreadInv, Outstanding, LockInv, MemoryInv, Holder, Covered, InMemory;
    forall x | 0 <= x < |m| && Holder(guard, s, x) == u
      ensures n[x] == m[x]
    {
      CommitElsewhere(guard, s, m, t, x);
    }
    forall x | 0 <= x < |m| && Covered(guard, u, Outstanding(th), x)
      ensures n[x] == m[x]
    {
      HoldsWhatItCovers(guard, s, u, x);
    }
    ThreadStable(guard, m, n, u, th);
  }

  lemma CommittedMemory(guard: seq<Guard>, s: State, s': State, m: seq<int>, n: seq<int>, t: nat, x: nat)
    requires Inv(guard, s, m) && t < |s.threads| && x < |m| && |n| == |m|
    requires InMemory(m, Pending(s.threads[t])) && n == Put(m, Pending(s.threads[t]))
    requires s'.mem == s.mem && s'.owner == s.owner && |s'.threads| == |s.threads| && Pending(s'.threads[t]) == []
    requires forall u :: 0 <= u < |s.threads| && u != t ==> s'.threads[u] == s.threads[u]
    requires forall u :: 0 <= u < |s.threads| && u != t ==> InMemory(n, Pending(s.threads[u]))
    ensures var u := Holder(guard, s', x);
            if 0 <= u < |s'.threads| && InMemory(n, Pending(s'.threads[u]))
            then s'.mem[x] == Put(n, Pending(s'.threads[u]))[x] else s'.mem[x] == n[x]
  {
    var u := Holder(guard, s, x);
    assert Holder(guard, s', x) == u;
    assert InMemory(n, []) && Put(n, []) == n;
    hide Pending, Put, ThreadInv, Outstanding, LockInv, Holder, InMemory;
    if u == t {
      HeldMemory(guard, s, m, t, x);
    } else {
      CommitElsewhere(guard, s, m, t, x);
      if 0 <= u < |s.threads| {
        HeldMemory(guard, s, m, u, x);
        PutLocal(m, n, Pending(s.threads[u]), x);
      }
    }
  }

  lemma LastPhaseDone(guard: seq<Guard>, m: seq<int>, t: nat, th: Thread)
    requires ThreadInv(guard, m, t, th) && th.stage.Phase? && th.stage.ph > 0 && th.h(th.hist) == Finish
    ensures Completes(th.h, m, th.hist) && th.hist == th.full && InMemory(m, Writes(th.h, th.hist))
    ensures Pending(th) == Writes(th.h, th.hist)
  {
    hide Writes, Put, Locks, Replaced, Guarded, Follows;
    assert |th.hist| == |th.full| ==> th.hist == th.full;
    if |th.hist| < |th.full| {
      FollowsPrefix(th.h, m, th.full, |th.hist|);
    }
  }

  /** The commit makes the pending writes part of the serial memory: what the handler observed
      and wrote is a run of it on its own from the serial memory before. */
  lemma CommitKeeps(guard: seq<Guard>, s: State, m: seq<int>, t: nat, level: nat)
    requires Inv(guard, s, m) && Enabled(level, guard, s, t, CommitAll) && level >= 2
    ensures var th := s.threads[t];
            Completes(th.h, m, th.hist) && InMemory(m, Writes(th.h, th.hist)) && th.hist == th.full &&
            Inv(guard, After(level, guard, s, t, CommitAll), Put(m, Writes(th.h, th.hist)))
  {
    var th := s.threads[t];
    var s' := After(level, guard, s, t, CommitAll);
    assert ThreadInv(guard, m, t, th);
    LastPhaseDone(guard, m, t, th);
    var n := Put(m, Pending(th));
    assert Outstanding(s'.threads[t]) == Outstanding(th) && Pending(s'.threads[t]) == [];
    assert LockInv(s');
    assert ThreadInv(guard, n, t, s'.threads[t]);
    hide Pending, Put, ThreadInv, Outstanding, LockInv, Holder, InMemory, Inv, Follows;
    forall u | 0 <= u < |s.threads| && u != t
      ensures ThreadInv(guard, n, u, s.threads[u]) && InMemory(n, Pending(s.threads[u]))
    {
      OthersStable(guard, s, m, n, t, u);
      PendingInMemory(guard, n, u, s.threads[u]);
    }
    forall x | 0 <= x < |m|
      ensures var u := Holder(guard, s', x);
              if 0 <= u < |s'.threads| && InMemory(n, Pending(s'.threads[u]))
              then s'.mem[x] == Put(n, Pending(s'.threads[u]))[x] else s'.mem[x] == n[x]
    {
      CommittedMemory(guard, s, s', m, n, t, x);
    }
    assert Inv(guard, s', n) by { InvFrom(guard, s', n); }
  }

  lemma InvFrom(guard: seq<Guard>, s: State, m: seq<int>)
    requires |guard| == |m| == |s.mem| && LockInv(s) && MemoryInv(guard, s, m)
    requires forall t :: 0 <= t < |s.threads| ==> ThreadInv(guard, m, t, s.threads[t])
    ensures Inv(guard, s, m)
  {
  }

  // ------------------------------------------------------------ whole runs

  lemma ActKeeps(guard: seq<Guard>, s: State, m: seq<int>, t: nat)
    requires Inv(guard, s, m) && t < |s.threads| && s.threads[t].stage.Phase? && CanAct(s, t)
    ensures Inv(guard, AfterAct(s, t), m)
  {
    var a := s.threads[t].h(s.threads[t].hist);
    hide Inv, AfterAct;
    if a.Read? || a.Unlock? {
      PlainActKeeps(guard, s, m, t);
    } else if a.Write? {
      WriteKeeps(guard, s, m, t);
    } else if s.threads[t].stage.ph > 0 {
      ReplayKeeps(guard, s, m, t);
    } else {
      FirstPhaseMutexKeeps(guard, s, m, t);
    }
  }

  /** Steps between the stages of a transaction. */
  lemma StageKeeps(guard: seq<Guard>, s: State, m: seq<int>, t: nat, e: Event, level: nat)
    requires Inv(guard, s, m) && Enabled(level, guard, s, t, e)
    requires e.Begin? || e.EndPhase? || e.NextPhase? || e.Leave?
    ensures Inv(guard, After(level, guard, s, t, e), m)
  {
    hide Pending, ThreadInv, Outstanding, LockInv, MemoryInv, Guarded;
    var th := s.threads[t];
    var s' := After(level, guard, s, t, e);
    assert ThreadInv(guard, m, t, th);
    StageMoves(guard, m, t, th, e, s'.threads[t]);
    ThreadMoves(guard, s, s', m, t, s'.threads[t]);
  }

  lemma StageMoves(guard: seq<Guard>, m: seq<int>, t: nat, th: Thread, e: Event, th': Thread)
    requires ThreadInv(guard, m, t, th) && |m| == |guard|
    requires match e
             case Begin(h) =>
               th.stage.Outside? && Guarded(guard, t, h) && th' == Thread(Phase(0), h, [], [], [], [], 0, [])
             case EndPhase => th.stage.Phase? && th.h(th.hist) == Finish &&
               th' == th.(stage := Rewinding(th.stage.ph, |th.log|), full := th.hist)
             case NextPhase => th.stage.Rewinding? && th.stage.left == 0 &&
               th' == th.(stage := Phase(th.stage.ph + 1), hist := [], log := [], popped := 0,
                          redo := if th.stage.ph == 0 then th.log else th.redo)
             case Leave =>
               th.stage.Releasing? && th.stage.next >= |th.locks| && th' == th.(stage := Outside, locks := [])
             case _ => false
    ensures ThreadInv(guard, m, t, th') && Outstanding(th') == Outstanding(th) && Pending(th') == Pending(th)
  {
    hide Guarded, Put;
    NoHistory(th'.h);
    if e.EndPhase? {
      hide Writes, Locks, Follows, Replaced;
      if th.stage.ph > 0 {
        LastPhaseDone(guard, m, t, th);
      }
      assert Writes(th.h, th.hist)[..|th.log|] == Writes(th.h, th.hist);
    }
  }

  datatype Step = Step(t: nat, e: Event)

  /** A run: any interleaving of the threads' steps. */
  ghost predicate Run(level: nat, guard: seq<Guard>, states: seq<State>, steps: seq<Step>) {
    |states| == |steps| + 1 &&
    forall i :: 0 <= i < |steps| ==>
      Enabled(level, guard, states[i], steps[i].t, steps[i].e) &&
      states[i + 1] == After(level, guard, states[i], steps[i].t, steps[i].e)
  }

  ghost predicate Initial(guard: seq<Guard>, s: State) {
    |s.mem| == |guard| && s.committed == [] && (forall l :: 0 <= l < |s.owner| ==> s.owner[l] == -1) &&
    forall t :: 0 <= t < |s.threads| ==> s.threads[t].stage.Outside?
  }

  /** Memory after running the committed handlers one after another. */
  function SerialMemory(init: seq<int>, commits: seq<Commit>): (m: seq<int>)
    ensures |m| == |init|
  {
    if commits == [] then init
    else
      var m, c := SerialMemory(init, commits[..|commits| - 1]), commits[|commits| - 1];
      if InMemory(m, Writes(c.h, c.hist)) then Put(m, Writes(c.h, c.hist)) else m
  }

  /** Each committed handler, run on its own after those committed before it, observes exactly
      what it observed. */
  ghost predicate SerialOrder(init: seq<int>, commits: seq<Commit>) {
    forall k :: 0 <= k < |commits| ==> Completes(commits[k].h, SerialMemory(init, commits[..k]), commits[k].hist)
  }

  lemma SerialSnoc(init: seq<int>, commits: seq<Commit>, c: Commit)
    requires SerialOrder(init, commits) && Completes(c.h, SerialMemory(init, commits), c.hist)
    requires InMemory(SerialMemory(init, commits), Writes(c.h, c.hist))
    ensures SerialOrder(init, commits + [c])
    ensures SerialMemory(init, commits + [c]) == Put(SerialMemory(init, commits), Writes(c.h, c.hist))
  {
    hide Completes, Put, Writes, InMemory;
    var after := commits + [c];
    assert after[..|commits|] == commits;
    forall k | 0 <= k < |after|
      ensures Completes(after[k].h, SerialMemory(init, after[..k]), after[k].hist)
    {
      assert after[..k] == commits[..k];
      assert k == |commits| ==> commits[..k] == commits;
    }
  }

  lemma StepKeeps(level: nat, guard: seq<Guard>, init: seq<int>, s: State, t: nat, e: Event)
    requires level >= 2 && Enabled(level, guard, s, t, e) && SerialOrder(init, s.committed)
    requires Inv(guard, s, SerialMemory(init, s.committed))
    ensures var s' := After(level, guard, s, t, e);
            SerialOrder(init, s'.committed) && Inv(guard, s', SerialMemory(init, s'.committed))
  {
    var m := SerialMemory(init, s.committed);
    hide Inv, SerialOrder, SerialMemory, Completes, Put, Writes, InMemory, Guarded;
    match e
    case Act => ActKeeps(guard, s, m, t);
    case UndoOne => UndoKeeps(guard, s, m, t, level);
    case LateUnlock => LateUnlockKeeps(guard, s, m, t, level);
    case CommitAll =>
      CommitKeeps(guard, s, m, t, level);
      SerialSnoc(init, s.committed, Commit(s.threads[t].h, s.threads[t].hist));
    case _ => StageKeeps(guard, s, m, t, e, level);
  }

  lemma InitialInv(guard: seq<Guard>, s: State)
    requires Initial(guard, s)
    ensures SerialOrder(s.mem, s.committed) && Inv(guard, s, SerialMemory(s.mem, s.committed))
  {
    assert Put(s.mem, []) == s.mem;
  }

  /** In every run the committed handlers are equivalent to running them one after another in
      commit order, and memory is that serial memory plus what running transactions have
      written to locations they hold. */
  lemma {:induction false} SerializableInCommitOrder(level: nat, guard: seq<Guard>, states: seq<State>,
                                                     steps: seq<Step>, i: nat)
    requires level >= 2 && Run(level, guard, states, steps) && Initial(guard, states[0]) && i <= |steps|
    ensures SerialOrder(states[0].mem, states[i].committed)
    ensures Inv(guard, states[i], SerialMemory(states[0].mem, states[i].committed))
  {
    hide Inv, SerialOrder, SerialMemory, Enabled, After;
    if i == 0 {
      InitialInv(guard, states[0]);
    } else {
      SerializableInCommitOrder(level, guard, states, steps, i - 1);
      StepKeeps(level, guard, states[0].mem, states[i - 1], steps[i - 1].t, steps[i - 1].e);
    }
  }

  /** Between transactions, memory is exactly the serial memory. */
  lemma QuietMemoryIsSerial(level: nat, guard: seq<Guard>, states: seq<State>, steps: seq<Step>, i: nat)
    requires level >= 2 && Run(level, guard, states, steps) && Initial(guard, states[0]) && i <= |steps|
    requires forall t :: 0 <= t < |states[i].threads| ==> states[i].threads[t].stage.Outside?
    ensures states[i].mem == SerialMemory(states[0].mem, states[i].committed)
  {
    hide SerialOrder, SerialMemory, Enabled, After, Holder, LockInv, ThreadInv;
    SerializableInCommitOrder(level, guard, states, steps, i);
    var m := SerialMemory(states[0].mem, states[i].committed);
    assert InMemory(m, []) && Put(m, []) == m;
  }

  /** A mutex taken in the first phase is the thread's until after its commit. */
  lemma MutexesHeldThroughCommit(level: nat, guard: seq<Guard>, states: seq<State>, steps: seq<Step>, i: nat, t: nat,
                                 k: nat)
    requires level >= 2 && Run(level, guard, states, steps) && Initial(guard, states[0]) && i <= |steps|
    requires t < |states[i].threads|
    requires var th := states[i].threads[t];
             (th.stage.Phase? || th.stage.Rewinding?) && k < |th.locks| && th.locks[k].ok
    ensures var l := states[i].threads[t].locks[k].l; l < |states[i].owner| && states[i].owner[l] == t
  {
    hide SerialOrder, SerialMemory, Enabled, After, Holder, MemoryInv, ThreadInv;
    SerializableInCommitOrder(level, guard, states, steps, i);
    var th := states[i].threads[t];
    assert th.locks[k] == Taken(th.locks[k].l, true);
    assert Taken(th.locks[k].l, true) in Outstanding(th);
  }

  /** A later phase observes what the first phase observed, finds the record it needs for every
      mutex operation, and never waits. */
  lemma LaterPhasesRetrace(level: nat, guard: seq<Guard>, states: seq<State>, steps: seq<Step>, i: nat, t: nat)
    requires level >= 2 && Run(level, guard, states, steps) && Initial(guard, states[0]) && i <= |steps|
    requires t < |states[i].threads| && states[i].threads[t].stage.Phase? && states[i].threads[t].stage.ph > 0
    ensures var th := states[i].threads[t]; |th.hist| <= |th.full| && th.hist == th.full[..|th.hist|]
    ensures var th := states[i].threads[t]; th.h(th.hist) == Finish || CanAct(states[i], t)
  {
    hide SerialOrder, SerialMemory, Enabled, After, Writes, Locks, Put, Replaced, Follows;
    SerializableInCommitOrder(level, guard, states, steps, i);
    var th := states[i].threads[t];
    var m := SerialMemory(states[0].mem, states[i].committed);
    assert ThreadInv(guard, m, t, th);
    hide Inv, Guarded;
    if Place(th.h(th.hist)) >= 0 {
      ReadsSerial(guard, states[i], m, t);
      assert |states[i].mem| == |m| by { SameSize(guard, states[i], m); }
    } else if th.h(th.hist).Lock? || th.h(th.hist).TryLock? {
      Replay(m, th);
    }
  }

  lemma SameSize(guard: seq<Guard>, s: State, m: seq<int>)
    requires Inv(guard, s, m)
    ensures |s.mem| == |m|
  {
  }

  /** Where the last phase of a transaction is over, the rewound log of the first phase is what
      the last phase wrote, its own log is about the same locations, and what memory holds
      there are the transaction's own writes. */
  lemma LogsAtCommit(level: nat, guard: seq<Guard>, states: seq<State>, steps: seq<Step>, i: nat, t: nat)
    requires level >= 2 && Run(level, guard, states, steps) && Initial(guard, states[0]) && i <= |steps|
    requires Enabled(level, guard, states[i], t, CommitAll)
    ensures var th, m := states[i].threads[t], SerialMemory(states[0].mem, states[i].committed);
            |m| == |states[i].mem| && th.redo == Writes(th.h, th.hist) && InMemory(m, th.redo) &&
            th.log == Replaced(m, th.redo) &&
            forall k :: 0 <= k < |th.redo| ==> states[i].mem[th.redo[k].x] == Put(m, th.redo)[th.redo[k].x]
  {
    hide SerialOrder, SerialMemory, After, Writes, Locks, Put, Replaced, Follows;
    SerializableInCommitOrder(level, guard, states, steps, i);
    var s, th := states[i], states[i].threads[t];
    var m := SerialMemory(states[0].mem, s.committed);
    assert ThreadInv(guard, m, t, th);
    LastPhaseDone(guard, m, t, th);
    PendingCovered(guard, m, t, th);
    hide Pending, ThreadInv, Outstanding, MemoryInv, Holder, Covered, LockInv;
    forall k | 0 <= k < |th.redo|
      ensures s.mem[th.redo[k].x] == Put(m, th.redo)[th.redo[k].x]
    {
      assert Covered(guard, t, Outstanding(th), Pending(th)[k].x);
      HoldsWhatItCovers(guard, s, t, th.redo[k].x);
      HeldMemory(guard, s, m, t, th.redo[k].x);
    }
  }

  /** A location holds what the last write to it put there. */
  lemma {:induction false} PutLast(m: seq<int>, ws: seq<Stored>, k: nat)
    requires InMemory(m, ws) && k < |ws| && forall j :: k < j < |ws| ==> ws[j].x != ws[k].x
    ensures Put(m, ws)[ws[k].x] == ws[k].value
  {
    if k == |ws| - 1 {
    } else {
      PutLast(m, ws[..|ws| - 1], k);
    }
  }
}
