/** Whole transactions: what the engine's state is while phases that may do anything run on it,
    when such a transaction commits, and with what effect. */
module Transactions {
  import opened Memory
  import opened Words
  import opened UndoLog
  import opened Compare
  import opened AbufModule
  import opened Deferred
  import opened CrcApi
  import opened ObufModule
  import opened HandlerModule
  import opened Engine

  /** What a transaction starts from: memory, the allocator's answers, the messages already
      waiting and the input message. */
  datatype Txn = Txn(start: Ram, supply: Supply, waiting: seq<Bytes>, input: Ibuf)

  /** The actions of each phase so far. */
  type Phases = seq<seq<Action>>

  function Next(phases: Phases, ph: int, a: Action): (r: Phases)
    requires 0 <= ph < |phases|
    ensures |r| == |phases| && r[ph] == phases[ph] + [a]
    ensures forall q :: 0 <= q < |phases| && q != ph ==> r[q] == phases[q]
  {
    phases[ph := phases[ph] + [a]]
  }

  // ------------------------------------------ the state while phases are running

  ghost function Logs(bufs: seq<Abuf>): (logs: seq<seq<Write>>)
    requires AllValid(bufs)
    reads bufs
    ensures |logs| == |bufs| && forall q :: 0 <= q < |bufs| ==> logs[q] == bufs[q].Log()
  {
    seq(|bufs|, q requires 0 <= q < |bufs| reads bufs requires AllValid(bufs) => bufs[q].Log())
  }

  /** Finished phases hold redo logs, the running one an undo log. */
  ghost predicate LogsAt(logs: seq<seq<Write>>, t: Txn, phases: Phases, ph: int)
    requires 0 <= ph < |phases| && forall q :: 0 <= q < |phases| ==> AllFit(t.start, Writes(phases[q]))
  {
    |logs| == |phases| && logs[ph] == OldValues(t.start, Writes(phases[ph])) &&
    (forall q :: 0 <= q < ph ==> logs[q] == Writes(phases[q])) && (forall q :: ph < q < |phases| ==> logs[q] == [])
  }

  ghost predicate CowAt(s: Sei, t: Txn, phases: Phases, ph: int)
    requires s.Linked() && |phases| == s.level && 0 <= ph < s.level
    reads s.cow, s.mem
  {
    AllValid(s.cow) && AllRewound(s.cow) &&
    (forall q :: 0 <= q < s.level ==> AllFit(t.start, Writes(phases[q]))) &&
    s.mem[..] == Apply(t.start, Writes(phases[ph])) && LogsAt(Logs(s.cow), t, phases, ph)
  }

  ghost predicate TallocAt(s: Sei, t: Txn, phases: Phases)
    requires s.Linked() && |phases| == s.level
    reads s.talloc`size, s.talloc`allocations
  {
    |s.talloc.size| == s.level && s.talloc.size[0] <= |s.talloc.allocations| &&
    (forall q :: 0 <= q < s.level ==> s.talloc.size[q] == |Allocs(phases[q], t.supply)|) &&
    s.talloc.allocations[..s.talloc.size[0]] == Allocs(phases[0], t.supply)
  }

  ghost predicate TbinAt(s: Sei, phases: Phases)
    requires s.Linked() && |phases| == s.level
    reads s.tbin`queue
  {
    |s.tbin.queue| == s.level && forall q :: 0 <= q < s.level ==> s.tbin.queue[q] == Frees(phases[q])
  }

  /** Only the first two phases defer calls. */
  ghost predicate WtsAt(s: Sei, phases: Phases)
    requires s.Linked() && |phases| == s.level
    reads s.wts`queue
  {
    |s.wts.queue| == s.level &&
    forall q :: 0 <= q < s.level ==> s.wts.queue[q] == if q < 2 then Calls(phases[q]) else []
  }

  ghost predicate ObufAt(s: Sei, t: Txn, phases: Phases)
    requires s.Linked() && |phases| == s.level
    reads s.obuf`done, s.obuf`part
  {
    |s.obuf.done| == s.level && |s.obuf.part| == s.level &&
    forall q :: 0 <= q < s.level ==>
      s.obuf.done[q] == t.waiting + Messages(phases[q]).done && s.obuf.part[q] == Messages(phases[q]).part
  }

  /** The checksum of the message was last taken at the switch into this phase. */
  ghost predicate InputAt(ibuf: Ibuf, t: Txn, phases: Phases, ph: int)
    requires 0 <= ph < |phases|
  {
    InputFits(t.input, t.start) &&
    if ph == 0 then ibuf == t.input
    else AllFit(t.start, Writes(phases[ph - 1])) &&
         ibuf == InputSwitched(t.input, Apply(t.start, Writes(phases[ph - 1])))
  }

  /** The engine is running phase p and each phase has done what `phases` says.  The phase
      counters of the engine, the allocator and the output buffer are in step. */
  ghost predicate Recorded(s: Sei, t: Txn, phases: Phases)
    reads s, s.cow, s.mem, s.talloc, s.tbin, s.wts, s.obuf
  {
    s.Valid() && |phases| == s.level && 0 <= s.p < s.level && s.talloc.p == s.p && s.obuf.p == s.p &&
    (forall q :: s.p < q < s.level ==> phases[q] == []) &&
    (forall q :: 0 <= q < s.level ==> s.cf[q] == CFC_RESET) &&
    CowAt(s, t, phases, s.p) && TallocAt(s, t, phases) && TbinAt(s, phases) && WtsAt(s, phases) &&
    ObufAt(s, t, phases) && InputAt(s.ibuf, t, phases, s.p)
  }

  // ------------------------------------------------------------ one action

  /** An action can be carried out: there is memory there, or room to record it.  Where there
      is not, an assertion stops the process. */
  ghost predicate Room(s: Sei, t: Txn, acts: seq<Action>, ph: int, a: Action) {
    match a
    case ReadMem(addr, n) => addr + n <= |t.start|
    case WriteMem(w) => Fits(t.start, w)
    case Alloc(_) => |Allocs(acts, t.supply)| + (if ph == 0 then 1 else 0) < MAX_ALLOCS
    case Release(_) => |Frees(acts)| < s.tbin.maxItems
    case Defer(_) => ph >= 2 || |Calls(acts)| + 2 <= s.wts.maxItems
    case Output(_) => |t.waiting| + |Messages(acts).done| < MAX_MSGS
    case OutputDone => |t.waiting| + |Messages(acts).done| < MAX_MSGS && Messages(acts).part != []
    case Finish => false
  }

  /** The first phase made the allocation that phase ph is about to repeat. */
  ghost predicate Replayed(t: Txn, phases: Phases, ph: int)
    requires 0 <= ph < |phases|
  {
    ph > 0 ==> |Allocs(phases[ph], t.supply)| < |Allocs(phases[0], t.supply)|
  }

  method DoWrite(s: Sei, ghost t: Txn, ghost phases: Phases, ghost ph: int, w: Write)
    requires 0 <= ph < |phases| == s.level && s.Linked() && s.p == ph && CowAt(s, t, phases, ph)
    requires Fits(t.start, w) && AccessSize(|w.value|)
    modifies s.cow[s.p], s.mem
    ensures AllValid(s.cow) && CowAt(s, t, Next(phases, ph, WriteMem(w)), ph)
  {
    hide Apply, OldValues, Writes, Store, Views, Load, AllFit, Abuf.Log, Abuf.Valid;
    ghost var ws := Writes(phases[ph]);
    s.WriteThrough(w);
    ActionsSnoc(phases[ph], WriteMem(w), t.supply);
    ApplySnoc(t.start, ws, w);
    OldValuesSnoc(t.start, ws, w);
  }

  /** Reads come straight from memory. */
  method DoRead(s: Sei, ghost t: Txn, ghost phases: Phases, ghost ph: int, addr: nat, size: nat) returns (obs: Obs)
    requires 0 <= ph < |phases| == s.level && s.Linked() && s.p == ph && CowAt(s, t, phases, ph)
    requires addr + size <= |t.start|
    ensures obs == Seen(Load(Apply(t.start, Writes(phases[ph])), addr, size))
  {
    hide Apply, OldValues, Writes, AllValid, AllRewound;
    obs := Seen(s.mem[addr..addr + size]);
  }

  /** Allocation: taken from the allocator in the first phase, replayed later. */
  method DoAlloc(s: Sei, ghost t: Txn, ghost phases: Phases, ghost ph: int, bytes: nat, given: nat)
    returns (ok: bool, obs: Obs)
    requires 0 <= ph < |phases| == s.level && s.Linked() && s.p == ph
    requires s.talloc.Valid() && s.talloc.p == ph && TallocAt(s, t, phases)
    requires given != 0 && (ph == 0 ==> given == t.supply(|Allocs(phases[0], t.supply)|))
    modifies s.talloc`allocations, s.talloc`size
    ensures s.talloc.Valid()
    ensures ok <==> Room(s, t, phases[ph], ph, Alloc(bytes))
    ensures ok ==> TallocAt(s, t, Next(phases, ph, Alloc(bytes)))
    ensures ok && Replayed(t, phases, ph) ==> Answers(phases[ph], t.start, t.supply, Alloc(bytes), obs)
  {
    hide Allocs;
    ghost var n := |Allocs(phases[ph], t.supply)|;
    ghost var live := s.talloc.Live();
    AllocAddresses(phases[0], t.supply);
    ActionsSnoc(phases[ph], Alloc(bytes), t.supply);
    assert n < |live| ==> s.talloc.allocations[n] == live[n];
    var r := s.talloc.Malloc(bytes, given);
    ok, obs := r.Some?, if r.Some? then Got(r.value) else Unit;
    assert ph > 0 ==> s.talloc.Live() == live;
  }

  method DoRelease(s: Sei, ghost t: Txn, ghost phases: Phases, ghost ph: int, ptr: nat) returns (ok: bool)
    requires 0 <= ph < |phases| == s.level && s.Linked() && s.p == ph && s.tbin.Valid() && TbinAt(s, phases)
    modifies s.tbin
    ensures s.tbin.Valid()
    ensures ok <==> Room(s, t, phases[ph], ph, Release(ptr))
    ensures ok ==> TbinAt(s, Next(phases, ph, Release(ptr)))
  {
    hide Frees;
    ok := s.tbin.Add(ptr, s.p);
    ActionsSnoc(phases[ph], Release(ptr), t.supply);
  }

  /** Calls are deferred in phases 0 and 1; a later phase makes them at once. */
  method DoDefer(s: Sei, ghost t: Txn, ghost phases: Phases, ghost ph: int, call: Call)
    returns (ok: bool, made: seq<Call>)
    requires 0 <= ph < |phases| == s.level && s.Linked() && s.p == ph && s.wts.Valid() && WtsAt(s, phases)
    requires call.func != 0
    modifies s.wts
    ensures s.wts.Valid()
    ensures ok <==> Room(s, t, phases[ph], ph, Defer(call))
    ensures ok ==> WtsAt(s, Next(phases, ph, Defer(call)))
    ensures made == if ph < 2 then [] else [call]
  {
    hide Calls;
    ActionsSnoc(phases[ph], Defer(call), t.supply);
    if s.p < 2 {
      made := [];
      ok := s.wts.Add(s.p, call);
    } else {
      ok, made := true, [call];
    }
  }

  method DoOutput(s: Sei, ghost t: Txn, ghost phases: Phases, ghost ph: int, chunk: Bytes) returns (ok: bool)
    requires 0 <= ph < |phases| == s.level && s.Linked() && s.p == ph
    requires s.obuf.Valid() && s.obuf.p == s.p && ObufAt(s, t, phases)
    modifies s.obuf`queue, s.obuf`done, s.obuf`part
    ensures s.obuf.Valid()
    ensures ok <==> Room(s, t, phases[ph], ph, Output(chunk))
    ensures ok ==> ObufAt(s, t, Next(phases, ph, Output(chunk)))
  {
    hide Messages, Holds;
    ok := s.obuf.Push(chunk);
    ActionsSnoc(phases[ph], Output(chunk), t.supply);
  }

  method DoOutputDone(s: Sei, ghost t: Txn, ghost phases: Phases, ghost ph: int) returns (ok: bool)
    requires 0 <= ph < |phases| == s.level && s.Linked() && s.p == ph
    requires s.obuf.Valid() && s.obuf.p == s.p && ObufAt(s, t, phases)
    modifies s.obuf`queue, s.obuf`done, s.obuf`part
    ensures s.obuf.Valid()
    ensures ok <==> Room(s, t, phases[ph], ph, OutputDone)
    ensures ok ==> ObufAt(s, t, Next(phases, ph, OutputDone))
  {
    hide Messages, Holds;
    ghost var sent := Messages(phases[ph]);
    ok := s.obuf.Done();
    ActionsSnoc(phases[ph], OutputDone, t.supply);
    assert t.waiting + (sent.done + [sent.part]) == (t.waiting + sent.done) + [sent.part];
  }

  /** An action that writes nothing leaves the writes of all phases as they were. */
  lemma WritesQuiet(t: Txn, phases: Phases, ph: int, a: Action, q: int)
    requires 0 <= ph < |phases| && 0 <= q < |phases| && !a.WriteMem?
    ensures Writes(Next(phases, ph, a)[q]) == Writes(phases[q])
  {
    hide Writes;
    ActionsSnoc(phases[ph], a, t.supply);
  }

  lemma CowQuiet(s: Sei, t: Txn, phases: Phases, ph: int, a: Action)
    requires 0 <= ph < |phases| == s.level && s.Linked() && s.p == ph
    requires CowAt(s, t, phases, ph) && !a.WriteMem?
    ensures CowAt(s, t, Next(phases, ph, a), ph)
  {
    hide Apply, OldValues, Writes, Next, AllFit, Logs, AllValid, AllRewound;
    forall q | 0 <= q < |phases|
      ensures Writes(Next(phases, ph, a)[q]) == Writes(phases[q])
    {
      WritesQuiet(t, phases, ph, a, q);
    }
  }

  lemma TallocQuiet(s: Sei, t: Txn, phases: Phases, ph: int, a: Action)
    requires 0 <= ph < |phases| == s.level && s.Linked() && s.p == ph && TallocAt(s, t, phases) && !a.Alloc?
    ensures TallocAt(s, t, Next(phases, ph, a))
  {
    hide Allocs;
    ActionsSnoc(phases[ph], a, t.supply);
  }

  lemma TbinQuiet(s: Sei, t: Txn, phases: Phases, ph: int, a: Action)
    requires 0 <= ph < |phases| == s.level && s.Linked() && s.p == ph && TbinAt(s, phases) && !a.Release?
    ensures TbinAt(s, Next(phases, ph, a))
  {
    hide Frees;
    ActionsSnoc(phases[ph], a, t.supply);
  }

  lemma WtsQuiet(s: Sei, t: Txn, phases: Phases, ph: int, a: Action)
    requires 0 <= ph < |phases| == s.level && s.Linked() && s.p == ph && WtsAt(s, phases) && !a.Defer?
    ensures WtsAt(s, Next(phases, ph, a))
  {
    hide Calls;
    ActionsSnoc(phases[ph], a, t.supply);
  }

  lemma ObufQuiet(s: Sei, t: Txn, phases: Phases, ph: int, a: Action)
    requires 0 <= ph < |phases| == s.level && s.Linked() && s.p == ph
    requires ObufAt(s, t, phases) && !a.Output? && !a.OutputDone?
    ensures ObufAt(s, t, Next(phases, ph, a))
  {
    hide Messages;
    ActionsSnoc(phases[ph], a, t.supply);
  }

  /** Each part of the engine moves on by itself when the action does not concern it. */
  lemma Quiet(s: Sei, t: Txn, phases: Phases, ph: int, a: Action)
    requires 0 <= ph < |phases| == s.level && s.Linked() && s.p == ph
    ensures var after := Next(phases, ph, a);
      (CowAt(s, t, phases, ph) && !a.WriteMem? ==> CowAt(s, t, after, ph)) &&
      (TallocAt(s, t, phases) && !a.Alloc? ==> TallocAt(s, t, after)) &&
      (TbinAt(s, phases) && !a.Release? ==> TbinAt(s, after)) &&
      (WtsAt(s, phases) && !a.Defer? ==> WtsAt(s, after)) &&
      (ObufAt(s, t, phases) && !a.Output? && !a.OutputDone? ==> ObufAt(s, t, after)) &&
      (InputAt(s.ibuf, t, phases, ph) ==> InputAt(s.ibuf, t, after, ph))
  {
    hide CowAt, TallocAt, TbinAt, WtsAt, ObufAt;
    if CowAt(s, t, phases, ph) && !a.WriteMem? { CowQuiet(s, t, phases, ph, a); }
    if TallocAt(s, t, phases) && !a.Alloc? { TallocQuiet(s, t, phases, ph, a); }
    if TbinAt(s, phases) && !a.Release? { TbinQuiet(s, t, phases, ph, a); }
    if WtsAt(s, phases) && !a.Defer? { WtsQuiet(s, t, phases, ph, a); }
    if ObufAt(s, t, phases) && !a.Output? && !a.OutputDone? { ObufQuiet(s, t, phases, ph, a); }
  }

  method PerformMemory(s: Sei, ghost t: Txn, ghost phases: Phases, ghost ph: int, a: Action)
    returns (ok: bool, obs: Obs)
    requires 0 <= ph < |phases| && s.p == ph && Recorded(s, t, phases) && Possible(a) && (a.ReadMem? || a.WriteMem?)
    modifies s.cow, s.mem
    ensures ok <==> Room(s, t, phases[ph], ph, a)
    ensures ok ==> Recorded(s, t, Next(phases, ph, a)) && Answers(phases[ph], t.start, t.supply, a, obs)
  {
    hide Apply, OldValues, Writes, Load, CowAt, TallocAt, TbinAt, WtsAt, ObufAt, InputAt, Next;
    MemorySize(s, t, phases, ph);
    ok, obs := true, Unit;
    if a.ReadMem? {
      if a.addr + a.size > s.mem.Length {
        return false, Unit;
      }
      obs := DoRead(s, t, phases, ph, a.addr, a.size);
    } else {
      if a.w.addr + |a.w.value| > s.mem.Length {
        return false, Unit;
      }
      DoWrite(s, t, phases, ph, a.w);
    }
    Quiet(s, t, phases, ph, a);
  }

  lemma MemorySize(s: Sei, t: Txn, phases: Phases, ph: int)
    requires 0 <= ph < |phases| == s.level && s.Linked() && s.p == ph && CowAt(s, t, phases, ph)
    ensures s.mem.Length == |t.start| && AllFit(t.start, Writes(phases[ph]))
  {
  }

  lemma AllocsKnown(s: Sei, t: Txn, phases: Phases)
    requires s.Linked() && |phases| == s.level && TallocAt(s, t, phases)
    ensures |s.talloc.size| > 0 && s.talloc.size[0] == |Allocs(phases[0], t.supply)|
  {
  }

  method PerformDeferred(s: Sei, t: Txn, ghost phases: Phases, ghost ph: int, a: Action)
    returns (ok: bool, obs: Obs, made: seq<Call>)
    requires 0 <= ph < |phases| && Possible(a) && (a.Alloc? || a.Release? || a.Defer?)
    requires s.p == ph && Recorded(s, t, phases)
    modifies s.talloc`allocations, s.talloc`size, s.tbin, s.wts
    ensures ok <==> Room(s, t, phases[ph], ph, a)
    ensures ok ==> Recorded(s, t, Next(phases, ph, a))
    ensures ok && (a.Alloc? ==> Replayed(t, phases, ph)) ==>
      Answers(phases[ph], t.start, t.supply, a, obs)
    ensures made == if a.Defer? && ph >= 2 then [a.call] else []
  {
    hide Allocs, Frees, Calls, CowAt, TallocAt, TbinAt, WtsAt, ObufAt, InputAt, Next;
    ok, obs, made := true, Unit, [];
    if a.Alloc? {
      AllocsKnown(s, t, phases);
      ok, obs := DoAlloc(s, t, phases, ph, a.bytes, t.supply(s.talloc.size[0]));
    } else if a.Release? {
      ok := DoRelease(s, t, phases, ph, a.ptr);
    } else {
      ok, made := DoDefer(s, t, phases, ph, a.call);
    }
    Quiet(s, t, phases, ph, a);
  }

  method PerformOutput(s: Sei, ghost t: Txn, ghost phases: Phases, ghost ph: int, a: Action) returns (ok: bool)
    requires 0 <= ph < |phases| && s.p == ph && Recorded(s, t, phases) && (a.Output? || a.OutputDone?)
    modifies s.obuf`queue, s.obuf`done, s.obuf`part
    ensures ok <==> Room(s, t, phases[ph], ph, a)
    ensures ok ==> Recorded(s, t, Next(phases, ph, a))
  {
    hide Messages, CowAt, TallocAt, TbinAt, WtsAt, ObufAt, InputAt, Next;
    if a.Output? {
      ok := DoOutput(s, t, phases, ph, a.chunk);
    } else {
      ok := DoOutputDone(s, t, phases, ph);
    }
    Quiet(s, t, phases, ph, a);
  }

  /** One action in the current phase, whatever it is. */
  method Perform(s: Sei, t: Txn, ghost phases: Phases, ghost ph: int, a: Action)
    returns (ok: bool, obs: Obs, made: seq<Call>)
    requires 0 <= ph < |phases| && Possible(a)
    requires s.p == ph && Recorded(s, t, phases)
    modifies s.cow, s.mem, s.talloc`allocations, s.talloc`size, s.tbin, s.wts, s.obuf`queue, s.obuf`done, s.obuf`part
    ensures ok <==> Room(s, t, phases[ph], ph, a)
    ensures ok ==> Recorded(s, t, Next(phases, ph, a))
    ensures ok && (a.Alloc? ==> Replayed(t, phases, ph)) ==>
      Answers(phases[ph], t.start, t.supply, a, obs)
    ensures made == if a.Defer? && ph >= 2 then [a.call] else []
  {
    hide Recorded, Room;
    made := [];
    if a.ReadMem? || a.WriteMem? {
      ok, obs := PerformMemory(s, t, phases, ph, a);
    } else if a.Output? || a.OutputDone? {
      obs := Unit;
      ok := PerformOutput(s, t, phases, ph, a);
    } else {
      ok, obs, made := PerformDeferred(s, t, phases, ph, a);
    }
  }

  // ---------------------------------------------------- from phase to phase

  ghost predicate Unstarted(s: Sei, phases: Phases) {
    |phases| == s.level && forall q :: 0 <= q < s.level ==> phases[q] == []
  }

  /** A transaction that has just begun has recorded nothing. */
  lemma Start(s: Sei, t: Txn, phases: Phases)
    requires s.Begun(t.waiting) && s.mem[..] == t.start && s.ibuf == t.input && InputFits(t.input, t.start)
    requires Unstarted(s, phases)
    ensures Recorded(s, t, phases)
  {
    hide Writes, Allocs, Frees, Calls, Messages, Apply, OldValues, Holds;
    NoActions(t.supply);
    NoWrites(t.start);
    assert t.waiting + [] == t.waiting;
    assert s.talloc.Live() == [];
  }

  lemma NoWrites(m: Ram)
    ensures Apply(m, []) == m && OldValues(m, []) == []
  {
  }

  lemma LogBefore(s: Sei, t: Txn, phases: Phases, ph: int)
    requires 0 <= ph < |phases| == s.level && s.Linked() && CowAt(s, t, phases, ph)
    ensures forall q :: 0 <= q < |phases| ==> AllFit(t.start, Writes(phases[q]))
    ensures AllValid(s.cow) && AllRewound(s.cow) && AllFit(s.mem[..], s.cow[ph].Log())
    ensures LogsAt(Logs(s.cow), t, phases, ph)
    ensures s.mem[..] == Apply(t.start, Writes(phases[ph]))
    ensures Swap(s.mem[..], s.cow[ph].Log()) == (t.start, Writes(phases[ph]))
  {
    hide Writes, Apply, OldValues, Swap, AllValid, AllRewound;
    SwapRestores(t.start, Writes(phases[ph]));
    OldValuesFit(t.start, Writes(phases[ph]));
  }

  /** The logs of a phase that is over, as the switch leaves them. */
  lemma CowSwitched(s: Sei, t: Txn, phases: Phases, ph: int, before: seq<seq<Write>>)
    requires 0 <= ph < |phases| - 1 && |phases| == s.level && s.Linked() && phases[ph + 1] == []
    requires forall q :: 0 <= q < |phases| ==> AllFit(t.start, Writes(phases[q]))
    requires LogsAt(before, t, phases, ph) && AllValid(s.cow) && AllRewound(s.cow) && s.mem[..] == t.start
    requires Logs(s.cow) == before[ph := Writes(phases[ph])]
    ensures CowAt(s, t, phases, ph + 1)
  {
    hide Writes, Apply, OldValues, AllFit, Logs;
    NoActions(t.supply);
    NoWrites(t.start);
  }

  lemma SmallModulo(a: nat, n: nat)
    requires a < n
    ensures a % n == a
  {
  }

  lemma NextUnallocated(s: Sei, t: Txn, phases: Phases, ph: int)
    requires 0 <= ph < |phases| - 1 && |phases| == s.level && s.Linked()
    requires phases[ph + 1] == [] && TallocAt(s, t, phases)
    ensures s.talloc.size[ph + 1] == 0
  {
  }

  lemma InputNext(ibuf: Ibuf, t: Txn, phases: Phases, ph: int)
    requires 0 <= ph < |phases| - 1 && AllFit(t.start, Writes(phases[ph])) && InputAt(ibuf, t, phases, ph)
    ensures var m := Apply(t.start, Writes(phases[ph]));
            InputFits(ibuf, m) && InputAt(InputSwitched(ibuf, m), t, phases, ph + 1)
  {
    hide Writes, Apply;
    if ph > 0 {
      InputAfterSwitches(t.input, Apply(t.start, Writes(phases[ph - 1])), Apply(t.start, Writes(phases[ph])));
    }
  }

  /** A phase that is over is rewound: the next one starts from the same memory. */
  method NextPhase(s: Sei, ghost t: Txn, ghost phases: Phases, ghost ph: int)
    requires 0 <= ph < |phases| - 1 && s.p == ph && Recorded(s, t, phases)
    modifies s`p, s`ibuf, s.talloc`p, s.obuf`p, s.cow, s.mem
    ensures s.p == ph + 1 && Recorded(s, t, phases)
  {
    hide Writes, Apply, OldValues, Swap, CowAt, TallocAt, TbinAt, WtsAt, ObufAt, InputAt, InputFits, InputSwitched,
         Abuf.Log, Abuf.Valid, Talloc.Valid, Tbin.Valid, Wts.Valid, Obuf.Valid, AllFit, LogsAt, Recorded;
    Parts(s, t, phases);
    SwitchLogs(s, t, phases, ph);
    assert TallocAt(s, t, phases) && TbinAt(s, phases) && WtsAt(s, phases) && ObufAt(s, t, phases);
    Together(s, t, phases);
  }

  /** The switch itself, with what it does to logs, memory and input. */
  method SwitchLogs(s: Sei, ghost t: Txn, ghost phases: Phases, ghost ph: int)
    requires 0 <= ph < |phases| - 1 && |phases| == s.level && s.p == ph
    requires s.Valid() && s.talloc.p == ph && s.obuf.p == ph
    requires phases[ph + 1] == [] && CowAt(s, t, phases, ph) && TallocAt(s, t, phases) && InputAt(s.ibuf, t, phases, ph)
    modifies s`p, s`ibuf, s.talloc`p, s.obuf`p, s.cow, s.mem
    ensures s.Valid() && s.p == ph + 1 && s.talloc.p == s.p && s.obuf.p == s.p
    ensures CowAt(s, t, phases, ph + 1) && InputAt(s.ibuf, t, phases, ph + 1)
  {
    hide Writes, Apply, OldValues, Swap, CowAt, TallocAt, InputAt, InputFits, InputSwitched, Abuf.Log, Abuf.Valid,
         Talloc.Valid, Tbin.Valid, Wts.Valid, Obuf.Valid, AllFit, LogsAt, Logs;
    ghost var before := Logs(s.cow);
    LogBefore(s, t, phases, ph);
    NextUnallocated(s, t, phases, ph);
    InputNext(s.ibuf, t, phases, ph);
    SmallModulo(ph + 1, s.level);
    var ok := s.Switch();
    assert Logs(s.cow) == before[ph := Writes(phases[ph])];
    CowSwitched(s, t, phases, ph, before);
  }

  lemma Parts(s: Sei, t: Txn, phases: Phases)
    requires Recorded(s, t, phases)
    ensures s.Valid() && s.Linked() && |phases| == s.level && 0 <= s.p < s.level && s.talloc.p == s.p && s.obuf.p == s.p
    ensures forall q :: s.p < q < s.level ==> phases[q] == []
    ensures forall q :: 0 <= q < s.level ==> s.cf[q] == CFC_RESET
    ensures CowAt(s, t, phases, s.p) && TallocAt(s, t, phases) && TbinAt(s, phases) && WtsAt(s, phases)
    ensures ObufAt(s, t, phases) && InputAt(s.ibuf, t, phases, s.p)
  {
  }

  lemma Together(s: Sei, t: Txn, phases: Phases)
    requires s.Valid() && |phases| == s.level && 0 <= s.p < s.level && s.talloc.p == s.p && s.obuf.p == s.p
    requires forall q :: s.p < q < s.level ==> phases[q] == []
    requires forall q :: 0 <= q < s.level ==> s.cf[q] == CFC_RESET
    requires CowAt(s, t, phases, s.p) && TallocAt(s, t, phases) && TbinAt(s, phases) && WtsAt(s, phases)
    requires ObufAt(s, t, phases) && InputAt(s.ibuf, t, phases, s.p)
    ensures Recorded(s, t, phases)
  {
  }

  // ------------------------------------------------------------- the commit

  /** Phases made the same number of writes, at the same places. */
  ghost predicate SamePlaces(phases: Phases)
    requires phases != []
  {
    forall q :: 0 <= q < |phases| ==> SameShape(Writes(phases[0]), Writes(phases[q]))
  }

  /** Phases asked for the same calls; with more than two phases there may be none at all. */
  ghost predicate SameCalls(phases: Phases)
    requires |phases| >= 2
  {
    Calls(phases[1]) == Calls(phases[0]) && (|phases| == 2 || Calls(phases[0]) == [])
  }

  /** Phases asked for the same frees, none of them of NULL. */
  ghost predicate SameFrees(phases: Phases)
    requires phases != []
  {
    (forall q :: 0 <= q < |phases| ==> Frees(phases[q]) == Frees(phases[0])) && 0 !in Frees(phases[0])
  }

  ghost predicate SameRequests(phases: Phases)
    requires |phases| >= 2
  {
    SameCalls(phases) && SameFrees(phases)
  }

  /** What each phase asked to free. */
  function FreeLists(phases: Phases): (lists: seq<seq<nat>>)
    ensures |lists| == |phases| && forall q :: 0 <= q < |phases| ==> lists[q] == Frees(phases[q])
  {
    seq(|phases|, q requires 0 <= q < |phases| => Frees(phases[q]))
  }

  ghost predicate SameAllocations(phases: Phases, supply: Supply)
    requires phases != []
  {
    forall q :: 0 <= q < |phases| ==> |Allocs(phases[q], supply)| == |Allocs(phases[0], supply)|
  }

  ghost predicate AllPhasesFit(t: Txn, phases: Phases) {
    InputFits(t.input, t.start) && forall q :: 0 <= q < |phases| ==> AllFit(t.start, Writes(phases[q]))
  }

  /** The comparison of logs and memory accepts phases that did this. */
  ghost predicate Compared(t: Txn, phases: Phases, rule: Rule)
    requires |phases| >= 2 && AllPhasesFit(t, phases)
  {
    SamePlaces(phases) &&
    Accepts(rule, MAX_CONFLICTS, Writes(phases[0]), Apply(t.start, Writes(phases[|phases| - 1])))
  }

  /** The input message is as it should be after the last phase. */
  ghost predicate InputStands(t: Txn, phases: Phases)
    requires |phases| >= 2 && AllPhasesFit(t, phases)
  {
    InputCorrect(InputSwitched(t.input, Apply(t.start, Writes(phases[|phases| - 2]))),
                 Apply(t.start, Writes(phases[|phases| - 1])))
  }

  /** When phases that did this pass the checks before the commit. */
  ghost predicate Checked(t: Txn, phases: Phases, rule: Rule)
    requires |phases| >= 2 && AllPhasesFit(t, phases)
  {
    Compared(t, phases, rule) && SameRequests(phases) && InputStands(t, phases)
  }

  /** The commit itself goes through if they also allocated equally often. */
  ghost predicate Verified(t: Txn, phases: Phases, rule: Rule)
    requires |phases| >= 2 && AllPhasesFit(t, phases)
  {
    Checked(t, phases, rule) && SameAllocations(phases, t.supply)
  }

  /** The commit gets as far as making calls.  The build that can retry has checked frees and
      input by then, the other one has not. */
  ghost predicate Flushes(t: Txn, phases: Phases, rule: Rule, isolated: bool)
    requires |phases| >= 2 && AllPhasesFit(t, phases)
  {
    Compared(t, phases, rule) && SameCalls(phases) && (isolated ==> SameFrees(phases) && InputStands(t, phases))
  }

  /** How a commit ends, and the calls and frees done by then. */
  ghost function CommitEnding(t: Txn, phases: Phases, rule: Rule, isolated: bool): (e: Ending)
    requires |phases| >= 2 && AllPhasesFit(t, phases)
  {
    if Verified(t, phases, rule) then Committed(Calls(phases[0]), Frees(phases[0]))
    else if Flushes(t, phases, rule, isolated) then Stopped(Calls(phases[0]), FreesDone(FreeLists(phases)))
    else NOTHING_DONE
  }

  /** A transaction that does not commit has had effects exactly if its phases pass the comparison
      and agree on the calls, there was something to do, and then allocation counts differ or, in
      the build that cannot retry, the frees or the input are wrong. */
  lemma StopsWithEffectsExactly(t: Txn, phases: Phases, rule: Rule, isolated: bool)
    requires |phases| >= 2 && AllPhasesFit(t, phases)
    ensures var e := CommitEnding(t, phases, rule, isolated);
            e.Stopped? && (e.calls != [] || e.frees != []) <==>
            Compared(t, phases, rule) && SameCalls(phases) &&
            (Calls(phases[0]) != [] || FreesDone(FreeLists(phases)) != []) &&
            (if isolated then SameFrees(phases) && InputStands(t, phases) && !SameAllocations(phases, t.supply)
             else !(SameFrees(phases) && InputStands(t, phases) && SameAllocations(phases, t.supply)))
  {
    hide Compared, SameCalls, SameFrees, InputStands, SameAllocations, Calls, FreesDone, FreeLists;
  }

  lemma LogsAtEnd(s: Sei, t: Txn, phases: Phases)
    requires s.Linked() && |phases| == s.level && CowAt(s, t, phases, s.level - 1)
    ensures PhasesAlike(s.cow) <==> SamePlaces(phases)
    ensures s.cow[0].Log() == Writes(phases[0])
    ensures s.mem[..] == Apply(t.start, Writes(phases[s.level - 1])) && AllFit(s.mem[..], s.cow[0].Log())
  {
    hide Writes, Apply, OldValues, Abuf.Log, Abuf.Valid;
    OldValuesShape(t.start, Writes(phases[s.level - 1]));
    forall q | 0 <= q < s.level
      ensures SameShape(s.cow[0].Log(), s.cow[q].Log()) <==> SameShape(Writes(phases[0]), Writes(phases[q]))
    {
    }
  }

  lemma CallsAtEnd(s: Sei, phases: Phases)
    requires |phases| == s.level && s.Linked() && WtsAt(s, phases)
    ensures s.wts.queue[0] == Calls(phases[0])
    ensures Agree(s.wts.queue) <==> SameCalls(phases)
  {
    hide Calls;
    assert s.wts.queue[0] == Calls(phases[0]) && s.wts.queue[1] == Calls(phases[1]);
    assert s.level > 2 ==> s.wts.queue[2] == [];
  }

  lemma FreesAtEnd(s: Sei, phases: Phases)
    requires |phases| == s.level && s.Linked() && TbinAt(s, phases)
    ensures s.tbin.queue == FreeLists(phases)
    ensures Agree(s.tbin.queue) && 0 !in s.tbin.queue[0] <==> SameFrees(phases)
  {
    hide Frees;
  }

  lemma RecordingsAtEnd(s: Sei, t: Txn, phases: Phases)
    requires |phases| == s.level && s.Valid() && TallocAt(s, t, phases) && TbinAt(s, phases) && WtsAt(s, phases)
    ensures s.RecordingsAgree() <==> SameRequests(phases)
    ensures Agree(s.wts.queue) <==> SameCalls(phases)
    ensures (forall q :: 0 <= q < s.level ==> s.talloc.size[q] == s.talloc.size[0]) <==>
            SameAllocations(phases, t.supply)
    ensures s.wts.queue[0] == Calls(phases[0]) && s.tbin.queue == FreeLists(phases)
  {
    hide Allocs, Frees, Calls, WtsAt, TbinAt, Agree, AllValid, Tbin.Valid, Wts.Valid, Obuf.Valid, Talloc.Valid,
         SameCalls, SameFrees;
    CallsAtEnd(s, phases);
    FreesAtEnd(s, phases);
  }

  lemma RecordedBounds(s: Sei, t: Txn, phases: Phases)
    requires Recorded(s, t, phases)
    ensures s.level >= 2 && |phases| == s.level && 0 <= s.p < s.level && AllPhasesFit(t, phases)
    ensures s.mem.Length == |t.start| && InputFits(s.ibuf, s.mem[..])
  {
  }

  /** Memory after these actions on m. */
  ghost predicate ResultOf(m: Ram, acts: seq<Action>, r: Ram) {
    AllFit(m, Writes(acts)) && r == Apply(m, Writes(acts))
  }

  /** The calls and frees all phases asked for were made, as the first phase asked for them,
      and no transaction is under way any more. */
  ghost predicate CommittedAs(s: Sei, work: Phases, e: Ending)
    requires |work| == s.level
    reads s, s.cow, s.talloc, s.tbin, s.wts, s.obuf
  {
    s.Valid() && s.p == -1 && s.Emptied() && s.obuf.p == 0 && SameRequests(work) &&
    e == Committed(Calls(work[0]), Frees(work[0]))
  }

  /** Committed, with the messages and the memory of the last phase. */
  ghost predicate CommittedWith(s: Sei, t: Txn, work: Phases, e: Ending)
    reads s, s.cow, s.mem, s.talloc, s.tbin, s.wts, s.obuf
  {
    |work| == s.level && s.Linked() && CommittedAs(s, work, e) && ObufAt(s, t, work) &&
    ResultOf(t.start, work[|work| - 1], s.mem[..])
  }

  lemma CommitParts(s: Sei, t: Txn, phases: Phases, rule: Rule)
    requires |phases| >= 2 && AllPhasesFit(t, phases) && s.p == s.level - 1 && Recorded(s, t, phases)
    ensures |phases| == s.level && s.Valid() && AllRewound(s.cow)
    ensures s.talloc.p == s.level - 1 && s.obuf.p == s.level - 1
    ensures AllFit(s.mem[..], s.cow[0].Log()) && InputFits(s.ibuf, s.mem[..])
    ensures PhasesAlike(s.cow) && Accepts(rule, MAX_CONFLICTS, s.cow[0].Log(), s.mem[..]) <==> Compared(t, phases, rule)
    ensures InputCorrect(s.ibuf, s.mem[..]) <==> InputStands(t, phases)
    ensures s.RecordingsAgree() <==> SameRequests(phases)
    ensures Agree(s.wts.queue) <==> SameCalls(phases)
    ensures (forall q :: 0 <= q < s.level ==> s.talloc.size[q] == s.talloc.size[0]) <==>
            SameAllocations(phases, t.supply)
    ensures s.wts.queue[0] == Calls(phases[0]) && s.tbin.queue == FreeLists(phases)
    ensures forall q :: 0 <= q < s.level ==> AmogOpen(s.cf[q])
    ensures s.Linked() && ObufAt(s, t, phases) && ResultOf(t.start, phases[|phases| - 1], s.mem[..])
  {
    hide Writes, Apply, OldValues, Allocs, Frees, Calls, Messages, InputSwitched, Sei.RecordingsAgree, PhasesAlike,
         TallocAt, TbinAt, WtsAt, ObufAt, Abuf.Log, Abuf.Valid, Talloc.Valid, Tbin.Valid, Wts.Valid, Obuf.Valid,
         AllFit, SamePlaces, SameCalls, SameFrees, SameAllocations, LogsAt, Accepts, InputCorrect, Compared;
    LogsAtEnd(s, t, phases);
    ComparedIs(s.cow[0].Log(), s.mem[..], PhasesAlike(s.cow), t, phases, rule);
    RecordingsAtEnd(s, t, phases);
  }

  /** What the commit finds. */
  lemma AtCommit(s: Sei, t: Txn, phases: Phases, isolated: bool)
    requires |phases| >= 2 && AllPhasesFit(t, phases) && s.p == s.level - 1 && Recorded(s, t, phases)
    ensures |phases| == s.level && s.Valid() && AllRewound(s.cow) && s.obuf.p == s.level - 1
    ensures AllFit(s.mem[..], s.cow[0].Log()) && InputFits(s.ibuf, s.mem[..])
    ensures s.CommitPasses(isolated) <==> Verified(t, phases, s.Rule(isolated))
    ensures s.CommitFlushes(isolated) <==> Flushes(t, phases, s.Rule(isolated), isolated)
    ensures s.wts.queue[0] == Calls(phases[0]) && s.tbin.queue == FreeLists(phases)
    ensures s.Linked() && ObufAt(s, t, phases) && ResultOf(t.start, phases[|phases| - 1], s.mem[..])
  {
    hide Recorded, AllPhasesFit, PhasesAlike, Accepts, Abuf.Log, Sei.Valid, AllFit, InputFits, InputCorrect, Compared,
         InputStands, Sei.RecordingsAgree, Agree, SameCalls, SameFrees, SameAllocations, Calls, FreeLists, ObufAt,
         ResultOf;
    CommitParts(s, t, phases, s.Rule(isolated));
  }

  lemma ComparedIs(log: seq<Write>, m: Ram, alike: bool, t: Txn, phases: Phases, rule: Rule)
    requires |phases| >= 2 && AllPhasesFit(t, phases) && (alike <==> SamePlaces(phases))
    requires log == Writes(phases[0]) && m == Apply(t.start, Writes(phases[|phases| - 1]))
    ensures AllFit(m, log) && (alike && Accepts(rule, MAX_CONFLICTS, log, m) <==> Compared(t, phases, rule))
  {
  }

  lemma Sealed(s: Sei, t: Txn, phases: Phases, e: Ending)
    requires |phases| == s.level && s.Valid() && s.p == -1 && s.Emptied() && s.obuf.p == 0 && SameRequests(phases)
    requires e == Committed(Calls(phases[0]), Frees(phases[0])) && ObufAt(s, t, phases)
    requires ResultOf(t.start, phases[|phases| - 1], s.mem[..])
    ensures CommittedWith(s, t, phases, e)
  {
  }

  /** The last phase is over: the commit's verdict and effect in terms of what phases did. */
  method Conclude(s: Sei, isolated: bool, ghost t: Txn, ghost phases: Phases) returns (r: Ending)
    requires |phases| >= 2 && AllPhasesFit(t, phases)
    requires s.p == s.level - 1 && Recorded(s, t, phases)
    modifies s`p, s`cf, s.cow, s.wts, s.tbin, s.talloc`p, s.talloc`size, s.obuf`p
    ensures r == CommitEnding(t, phases, s.Rule(isolated), isolated)
    ensures r.Committed? ==> CommittedWith(s, t, phases, r)
  {
    hide Apply, Writes, Frees, Calls, FreesDone, FreeLists, Verified, Flushes, Sei.CommitPasses, Sei.CommitFlushes,
         Sei.Emptied, ObufAt, Abuf.Log, AllFit, Recorded, Sei.Valid, AllPhasesFit, InputFits, ResultOf, CommittedWith,
         SameRequests, CommitEnding, PhasesAlike;
    RecordedBounds(s, t, phases);
    AtCommit(s, t, phases, isolated);
    FullCircle(s.level);
    r := s.Commit(isolated);
    EndingIs(t, phases, s.Rule(isolated), isolated, r);
    if r.Committed? {
      VerifiedRequests(t, phases, s.Rule(isolated));
      Sealed(s, t, phases, r);
    }
  }

  lemma VerifiedRequests(t: Txn, phases: Phases, rule: Rule)
    requires |phases| >= 2 && AllPhasesFit(t, phases) && Verified(t, phases, rule)
    ensures SameRequests(phases)
  {
  }

  lemma EndingIs(t: Txn, phases: Phases, rule: Rule, isolated: bool, e: Ending)
    requires |phases| >= 2 && AllPhasesFit(t, phases) && (e.Committed? <==> Verified(t, phases, rule))
    requires e.calls == if Flushes(t, phases, rule, isolated) then Calls(phases[0]) else []
    requires e.frees == if Flushes(t, phases, rule, isolated) then FreesDone(FreeLists(phases)) else []
    requires e.Committed? ==> e.frees == Frees(phases[0])
    ensures e == CommitEnding(t, phases, rule, isolated)
    ensures e.Committed? ==> e == Committed(Calls(phases[0]), Frees(phases[0]))
  {
    hide Compared, SameCalls, SameFrees, InputStands, SameAllocations, Calls, Frees, FreesDone, FreeLists;
  }

  lemma FullCircle(n: nat)
    requires n > 0
    ensures (n - 1 + 1) % n == 0
  {
  }
}
