/** Event handlers and what they do.

    A phase is the sequence of actions performed in it; what it wrote, allocated, freed,
    deferred and sent out are functions of that sequence.  A faulty phase may perform any
    actions.  A fault-free one performs those of its handler: a deterministic program whose
    next action depends only on what it has observed so far. */
module HandlerModule {
  import opened Memory
  import opened Words
  import opened Deferred
  import opened CrcApi

  datatype Action =
    | ReadMem(addr: nat, size: nat)
    | WriteMem(w: Write)
    | Alloc(bytes: nat)
    | Release(ptr: nat)
    | Defer(call: Call)
    | Output(chunk: Bytes)
    | OutputDone
    | Finish

  /** What code can ask for before it finishes: instrumented stores have machine sizes,
      deferred calls a function to call. */
  predicate Possible(a: Action) {
    !a.Finish? && (a.WriteMem? ==> AccessSize(|a.w.value|)) && (a.Defer? ==> a.call.func != 0)
  }

  predicate AllPossible(acts: seq<Action>) {
    forall i :: 0 <= i < |acts| ==> Possible(acts[i])
  }

  /** Allocator answers: the k-th allocation gets supply(k), never NULL. */
  type Supply = f: nat -> nat | forall k :: f(k) != 0 witness (k => 1)

  function Writes(acts: seq<Action>): (ws: seq<Write>) {
    if acts == [] then []
    else
      var past, a := acts[..|acts| - 1], acts[|acts| - 1];
      if a.WriteMem? then Writes(past) + [a.w] else Writes(past)
  }

  function Allocs(acts: seq<Action>, supply: Supply): (allocs: seq<Allocation>) {
    if acts == [] then []
    else
      var past, a := acts[..|acts| - 1], acts[|acts| - 1];
      var allocs := Allocs(past, supply);
      if a.Alloc? then allocs + [Allocation(supply(|allocs|), a.bytes)] else allocs
  }

  function Frees(acts: seq<Action>): (ptrs: seq<nat>) {
    if acts == [] then []
    else
      var past, a := acts[..|acts| - 1], acts[|acts| - 1];
      if a.Release? then Frees(past) + [a.ptr] else Frees(past)
  }

  function Calls(acts: seq<Action>): (calls: seq<Call>) {
    if acts == [] then []
    else
      var past, a := acts[..|acts| - 1], acts[|acts| - 1];
      if a.Defer? then Calls(past) + [a.call] else Calls(past)
  }

  /** Messages finished, and the one being written. */
  datatype Sent = Sent(done: seq<Bytes>, part: Bytes)

  function Messages(acts: seq<Action>): (s: Sent) {
    if acts == [] then Sent([], [])
    else
      var s := Messages(acts[..|acts| - 1]);
      match acts[|acts| - 1]
      case Output(chunk) => s.(part := s.part + chunk)
      case OutputDone => Sent(s.done + [s.part], [])
      case _ => s
  }

  lemma NoActions(supply: Supply)
    ensures Writes([]) == [] && Allocs([], supply) == [] && Frees([]) == [] && Calls([]) == []
    ensures Messages([]) == Sent([], [])
  {
  }

  lemma ActionsSnoc(acts: seq<Action>, a: Action, supply: Supply)
    ensures Writes(acts + [a]) == Writes(acts) + (if a.WriteMem? then [a.w] else [])
    ensures Frees(acts + [a]) == Frees(acts) + (if a.Release? then [a.ptr] else [])
    ensures Calls(acts + [a]) == Calls(acts) + (if a.Defer? then [a.call] else [])
    ensures Allocs(acts + [a], supply) == Allocs(acts, supply) +
            (if a.Alloc? then [Allocation(supply(|Allocs(acts, supply)|), a.bytes)] else [])
    ensures Messages(acts + [a]) ==
            match a
            case Output(chunk) => Messages(acts).(part := Messages(acts).part + chunk)
            case OutputDone => Sent(Messages(acts).done + [Messages(acts).part], [])
            case _ => Messages(acts)
  {
    assert (acts + [a])[..|acts|] == acts;
  }

  /** The n-th allocation got the allocator's n-th answer. */
  lemma {:induction false} AllocAddresses(acts: seq<Action>, supply: Supply)
    ensures forall n :: 0 <= n < |Allocs(acts, supply)| ==> Allocs(acts, supply)[n].addr == supply(n)
  {
    if acts == [] {
    } else {
      AllocAddresses(acts[..|acts| - 1], supply);
    }
  }

  lemma {:induction false} AllocCounts(acts: seq<Action>, supply: Supply, k: nat)
    requires k < |acts| && acts[k].Alloc?
    ensures |Allocs(acts[..k], supply)| < |Allocs(acts, supply)|
  {
    var past := acts[..|acts| - 1];
    if k < |past| {
      AllocCounts(past, supply, k);
      assert past[..k] == acts[..k];
    } else {
      assert past == acts[..k];
    }
  }

  // ----------------------------------------------------- fault-free handlers

  datatype Obs = Seen(bytes: seq<Byte>) | Got(ptr: nat) | Unit

  type Handler = seq<Obs> -> Action

  /** The actions behind a history of observations. */
  function Actions(h: Handler, hist: seq<Obs>): (acts: seq<Action>)
    ensures |acts| == |hist|
  {
    seq(|hist|, i requires 0 <= i < |hist| => h(hist[..i]))
  }

  /** Is this what action a observes, after `acts` from memory m and with nothing else going on? */
  ghost predicate Answers(acts: seq<Action>, m: Ram, supply: Supply, a: Action, obs: Obs) {
    match a
    case ReadMem(addr, n) =>
      addr + n <= |m| && AllFit(m, Writes(acts)) && obs == Seen(Load(Apply(m, Writes(acts)), addr, n))
    case WriteMem(w) => Fits(m, w) && obs == Unit
    case Alloc(_) => obs == Got(supply(|Allocs(acts, supply)|))
    case Finish => false
    case _ => obs == Unit
  }

  /** The handler, run on its own from memory m, observes exactly this. */
  ghost predicate Run(h: Handler, m: Ram, supply: Supply, hist: seq<Obs>) {
    hist == [] ||
    var past, obs := hist[..|hist| - 1], hist[|hist| - 1];
    Run(h, m, supply, past) && Possible(h(past)) && Answers(Actions(h, past), m, supply, h(past), obs)
  }

  ghost predicate CompleteRun(h: Handler, m: Ram, supply: Supply, hist: seq<Obs>) {
    Run(h, m, supply, hist) && h(hist) == Finish
  }

  lemma HistorySnoc(h: Handler, hist: seq<Obs>, obs: Obs)
    ensures Actions(h, hist + [obs]) == Actions(h, hist) + [h(hist)]
  {
    assert forall i :: 0 <= i <= |hist| ==> (hist + [obs])[..i] == hist[..i];
    assert hist[..|hist|] == hist;
  }

  lemma RunSnoc(h: Handler, m: Ram, supply: Supply, hist: seq<Obs>, obs: Obs)
    requires Run(h, m, supply, hist) && Possible(h(hist)) && Answers(Actions(h, hist), m, supply, h(hist), obs)
    ensures Run(h, m, supply, hist + [obs])
  {
    hide Possible, Answers, Actions;
    assert (hist + [obs])[..|hist|] == hist;
  }

  lemma RunNothing(h: Handler, m: Ram, supply: Supply)
    ensures Run(h, m, supply, []) && Actions(h, []) == []
  {
  }

  lemma HistoryPrefix(h: Handler, hist: seq<Obs>, k: nat)
    requires k <= |hist|
    ensures Actions(h, hist[..k]) == Actions(h, hist)[..k]
  {
    assert forall i :: 0 <= i <= k ==> hist[..k][..i] == hist[..i];
  }

  lemma {:induction false} RunFits(h: Handler, m: Ram, supply: Supply, hist: seq<Obs>)
    requires Run(h, m, supply, hist)
    ensures AllFit(m, Writes(Actions(h, hist)))
  {
    hide Writes, Actions;
    if hist == [] {
      NoActions(supply);
      assert Actions(h, []) == [];
    } else {
      var past, obs := hist[..|hist| - 1], hist[|hist| - 1];
      RunFits(h, m, supply, past);
      HistorySnoc(h, past, obs);
      assert past + [obs] == hist;
      ActionsSnoc(Actions(h, past), h(past), supply);
    }
  }

  lemma {:induction false} RunPrefix(h: Handler, m: Ram, supply: Supply, hist: seq<Obs>, k: nat)
    requires Run(h, m, supply, hist) && k <= |hist|
    ensures Run(h, m, supply, hist[..k])
    ensures k < |hist| ==>
      Possible(h(hist[..k])) && Answers(Actions(h, hist[..k]), m, supply, h(hist[..k]), hist[k])
  {
    hide Answers, Actions, Possible;
    if k < |hist| {
      var past := hist[..|hist| - 1];
      RunPrefix(h, m, supply, past, k);
      assert past[..k] == hist[..k];
    } else {
      assert hist[..k] == hist;
    }
  }

  lemma OneAnswer(acts: seq<Action>, m: Ram, supply: Supply, a: Action, x: Obs, y: Obs)
    requires Answers(acts, m, supply, a, x) && Answers(acts, m, supply, a, y)
    ensures x == y
  {
    hide Writes, Allocs, Apply;
  }

  /** Handlers are deterministic: one run is a prefix of the other. */
  lemma {:induction false} RunsAgree(h: Handler, m: Ram, supply: Supply, a: seq<Obs>, b: seq<Obs>)
    requires Run(h, m, supply, a) && Run(h, m, supply, b) && |a| <= |b|
    ensures a == b[..|a|]
  {
    hide Actions, Answers, Possible;
    if a == [] {
    } else {
      var past := a[..|a| - 1];
      RunsAgree(h, m, supply, past, b);
      RunPrefix(h, m, supply, b, |a| - 1);
      OneAnswer(Actions(h, past), m, supply, h(past), a[|a| - 1], b[|a| - 1]);
      assert b[..|a|] == b[..|a| - 1] + [b[|a| - 1]];
    }
  }

  /** So there is at most one complete run. */
  lemma CompleteRunsAreEqual(h: Handler, m: Ram, supply: Supply, a: seq<Obs>, b: seq<Obs>)
    requires CompleteRun(h, m, supply, a) && CompleteRun(h, m, supply, b)
    ensures a == b
  {
    hide Run;
    if |a| <= |b| {
      RunsAgree(h, m, supply, a, b);
      if |a| < |b| {
        RunPrefix(h, m, supply, b, |a|);
      }
    } else {
      RunsAgree(h, m, supply, b, a);
      RunPrefix(h, m, supply, a, |b|);
    }
  }
}
