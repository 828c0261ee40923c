/** A server on top of the engine (examples/simple/main.c:123-153): receive a message, check it,
    run its handler as a transaction, send the answers with their checksums, and again. */
module Server {
  import opened Memory
  import opened AbufModule
  import opened Deferred
  import opened CrcApi
  import opened ObufModule
  import opened HandlerModule
  import opened Engine
  import opened Transactions
  import opened Runs

  /** The bytes received, where they are stored, the message in them, its handler, and what the
      allocator answers to it. */
  datatype Event = Event(received: Write, input: Ibuf, h: Handler, supply: Supply)

  /** What a process has done so far: memory, calls and frees made, checksums sent. */
  datatype Effects = Effects(mem: Ram, calls: seq<Call>, frees: seq<nat>, crcs: seq<bv32>)

  function Checksums(messages: seq<Bytes>): (crcs: seq<bv32>)
    ensures |crcs| == |messages| && forall j :: 0 <= j < |messages| ==> crcs[j] == Compute(messages[j])
  {
    seq(|messages|, j requires 0 <= j < |messages| => Compute(messages[j]))
  }

  // ------------------------------------------------- without the engine

  ghost predicate Receivable(m: Ram, e: Event) {
    Fits(m, e.received) && InputFits(e.input, m)
  }

  ghost function Start(w: Effects, e: Event): Txn
    requires Receivable(w.mem, e)
  {
    Txn(Store(w.mem, e.received), e.supply, [], e.input)
  }

  ghost predicate Accepted(w: Effects, e: Event) {
    Receivable(w.mem, e) && CorrectOnEntry(e.input, Store(w.mem, e.received))
  }

  /** What the handler does to an event that is accepted; one that is not is dropped. */
  ghost function Plain(w: Effects, e: Event, full: seq<Obs>): Effects {
    var acts := Actions(e.h, full);
    if !Receivable(w.mem, e) then w
    else if !Accepted(w, e) || !AllFit(Start(w, e).start, Writes(acts)) then w.(mem := Start(w, e).start)
    else Effects(Apply(Start(w, e).start, Writes(acts)), w.calls + Calls(acts), w.frees + Frees(acts),
                 w.crcs + Checksums(Messages(acts).done))
  }

  /** The first k events, one after another. */
  ghost function PlainAll(w: Effects, events: seq<Event>, fulls: seq<seq<Obs>>, k: nat): Effects
    requires k <= |events| == |fulls|
  {
    if k == 0 then w else Plain(PlainAll(w, events, fulls, k - 1), events[k - 1], fulls[k - 1])
  }

  // ---------------------------------------------------- with the engine

  /** The handler of an accepted event has a run on its own, finishes the messages it begins,
      and does no more than the engine can record. */
  ghost predicate Servable(s: Sei, w: Effects, e: Event, full: seq<Obs>) {
    Receivable(w.mem, e) &&
    (Accepted(w, e) ==>
      var t := Start(w, e);
      CompleteRun(e.h, t.start, t.supply, full) && AllRoom(s, t, Actions(e.h, full), 0, |full|) &&
      Messages(Actions(e.h, full)).part == [])
  }

  ghost predicate Commits(s: Sei, w: Effects, e: Event, full: seq<Obs>, isolated: bool) {
    Accepted(w, e) ==>
      var t := Start(w, e);
      AllFit(t.start, Writes(Actions(e.h, full))) && Passes(t, Actions(e.h, full), s.level, s.Rule(isolated))
  }

  /** What had been done for an event when its transaction stopped the process: calls that a third
      or later phase made at once, and calls and frees of a commit that got that far. */
  ghost function DoneAtStop(s: Sei, w: Effects, e: Event, full: seq<Obs>, isolated: bool): (r: Ending) {
    var acts := Actions(e.h, full);
    if !Accepted(w, e) || !AllFit(Start(w, e).start, Writes(acts)) then NOTHING_DONE
    else
      var end := PlainEnding(Start(w, e), acts, s.level, s.Rule(isolated), isolated);
      Stopped(LateCalls(Repeated(acts, s.level), s.level) + end.calls, end.frees)
  }

  lemma DoneWhenAccepted(s: Sei, w: Effects, e: Event, full: seq<Obs>, isolated: bool)
    requires Accepted(w, e) && AllFit(Start(w, e).start, Writes(Actions(e.h, full)))
    ensures var acts := Actions(e.h, full);
            var end := PlainEnding(Start(w, e), acts, s.level, s.Rule(isolated), isolated);
            DoneAtStop(s, w, e, full, isolated) ==
            Stopped(LateCalls(Repeated(acts, s.level), s.level) + end.calls, end.frees)
  {
  }

  /** Takes the checksums of all waiting messages. */
  method SendAll(s: Sei, ghost messages: seq<Bytes>) returns (crcs: seq<bv32>)
    requires s.Idle(messages)
    modifies s.obuf`queue, s.obuf`done
    ensures s.Idle([]) && crcs == Checksums(messages)
  {
    hide Compute, Sei.Emptied, AllValid, Talloc.Valid, Tbin.Valid, Wts.Valid, Obuf.Valid;
    crcs := PopAll(s.obuf, messages);
    assert |s.obuf.done| == s.level by { QueuesOf(s.obuf); }
  }

  lemma QueuesOf(o: Obuf)
    requires o.Valid()
    ensures |o.done| == o.level
  {
  }

  /** After a commit the engine can begin again exactly if the handler finished its messages. */
  lemma IdleExactlyWhenFinished(s: Sei, t: Txn, acts: seq<Action>)
    requires s.Valid() && s.p == -1 && s.Emptied() && s.obuf.p == 0 && ObufAt(s, t, Repeated(acts, s.level))
    ensures s.Idle(t.waiting + Messages(acts).done) <==> Messages(acts).part == []
  {
    hide Messages, Sei.Emptied;
    var phases := Repeated(acts, s.level);
    assert phases[0] == acts && s.obuf.part[0] == Messages(phases[0]).part;
  }

  lemma OfServable(s: Sei, w: Effects, e: Event, full: seq<Obs>)
    requires Servable(s, w, e, full) && Accepted(w, e)
    ensures var t := Start(w, e);
            CompleteRun(e.h, t.start, t.supply, full) && AllRoom(s, t, Actions(e.h, full), 0, |full|) &&
            Messages(Actions(e.h, full)).part == [] && AllFit(t.start, Writes(Actions(e.h, full)))
  {
    hide CompleteRun, AllRoom, Messages, Actions, Writes;
    RunOf(e.h, Start(w, e), full);
  }

  lemma PlainWhenAccepted(w: Effects, e: Event, full: seq<Obs>)
    requires Accepted(w, e) && AllFit(Start(w, e).start, Writes(Actions(e.h, full)))
    ensures var acts := Actions(e.h, full);
            Plain(w, e, full) == Effects(Apply(Start(w, e).start, Writes(acts)), w.calls + Calls(acts),
                                         w.frees + Frees(acts), w.crcs + Checksums(Messages(acts).done))
  {
  }

  /** Stores the bytes received and checks the message. */
  method Receive(s: Sei, e: Event) returns (accepted: bool)
    requires s.Idle([]) && Receivable(s.mem[..], e)
    modifies s.mem, s`ibuf
    ensures s.Idle([]) && s.mem[..] == Store(old(s.mem[..]), e.received) && s.ibuf == e.input
    ensures accepted <==> CorrectOnEntry(e.input, s.mem[..])
  {
    hide Sei.Idle, Checksum;
    StoreBytes(s.mem, e.received);
    accepted := s.Prepare(e.input, []);
  }

  /** One event.  Unless its transaction stops the process, it has the effects of one run of the
      handler on its own, and the engine is ready for the next one. */
  method Serve(s: Sei, e: Event, isolated: bool, ghost w: Effects, ghost full: seq<Obs>)
    returns (ok: bool, calls: seq<Call>, frees: seq<nat>, crcs: seq<bv32>)
    requires s.Idle([]) && s.mem[..] == w.mem && Servable(s, w, e, full)
    modifies s, s.cow, s.mem, s.talloc, s.tbin, s.wts, s.obuf
    ensures ok <==> Commits(s, w, e, full, isolated)
    ensures ok ==> s.Idle([])
    ensures ok ==> Plain(w, e, full) == Effects(s.mem[..], w.calls + calls, w.frees + frees, w.crcs + crcs)
    ensures !ok ==> Stopped(calls, frees) == DoneAtStop(s, w, e, full, isolated) && crcs == []
  {
    hide Sei.Idle, Sei.Valid, Sei.Emptied, CompleteRun, AllRoom, Passes, Actions, Writes, Apply, Calls, Frees,
         Messages, ObufAt, Repeated, Checksum, Checksums, Servable, DoneAtStop, LateCalls, Proceeds, UptoNull, Plain;
    calls, frees, crcs := [], [], [];
    assert Receivable(w.mem, e) by { CanReceive(s, w, e, full); }
    var accepted := Receive(s, e);
    if !accepted {
      PlainWhenRefused(w, e, full);
      return true, [], [], [];
    }
    OfServable(s, w, e, full);
    PlainWhenAccepted(w, e, full);
    DoneWhenAccepted(s, w, e, full, isolated);
    ghost var acts, t := Actions(e.h, full), Start(w, e);
    var r, made := Execute(s, Txn(s.mem[..], e.supply, [], e.input), e.h, isolated, full);
    ok, calls, frees := r.Committed?, made + r.calls, r.frees;
    if ok {
      IdleExactlyWhenFinished(s, t, acts);
      assert [] + Messages(acts).done == Messages(acts).done && [] + r.calls == r.calls;
      crcs := SendAll(s, Messages(acts).done);
    }
  }

  lemma PlainWhenRefused(w: Effects, e: Event, full: seq<Obs>)
    requires Receivable(w.mem, e) && !Accepted(w, e)
    ensures Plain(w, e, full) == Effects(Start(w, e).start, w.calls + [], w.frees + [], w.crcs + [])
  {
    assert w.calls + [] == w.calls && w.frees + [] == w.frees && w.crcs + [] == w.crcs;
  }

  lemma CanReceive(s: Sei, w: Effects, e: Event, full: seq<Obs>)
    requires Servable(s, w, e, full)
    ensures Receivable(w.mem, e)
  {
  }

  ghost predicate AllServable(s: Sei, w: Effects, events: seq<Event>, fulls: seq<seq<Obs>>)
    requires |events| == |fulls|
  {
    forall i :: 0 <= i < |events| ==> Servable(s, PlainAll(w, events, fulls, i), events[i], fulls[i])
  }

  /** The first k transactions commit. */
  ghost predicate FirstCommit(s: Sei, w: Effects, events: seq<Event>, fulls: seq<seq<Obs>>, k: nat, isolated: bool)
    requires k <= |events| == |fulls|
  {
    forall i :: 0 <= i < k ==> Commits(s, PlainAll(w, events, fulls, i), events[i], fulls[i], isolated)
  }

  ghost predicate CommitsAt(s: Sei, w: Effects, events: seq<Event>, fulls: seq<seq<Obs>>, k: nat, isolated: bool)
    requires k < |events| == |fulls|
  {
    Commits(s, PlainAll(w, events, fulls, k), events[k], fulls[k], isolated)
  }

  /** All that was done when the server has gone through its events, or stopped at event k. */
  ghost function AllDone(s: Sei, w: Effects, events: seq<Event>, fulls: seq<seq<Obs>>, k: nat, isolated: bool): Effects
    requires k <= |events| == |fulls|
  {
    var all := PlainAll(w, events, fulls, k);
    if k == |events| then all
    else
      var last := DoneAtStop(s, all, events[k], fulls[k], isolated);
      all.(calls := all.calls + last.calls, frees := all.frees + last.frees)
  }

  lemma NoneYet(s: Sei, w: Effects, events: seq<Event>, fulls: seq<seq<Obs>>, isolated: bool)
    requires |events| == |fulls|
    ensures PlainAll(w, events, fulls, 0) == w && FirstCommit(s, w, events, fulls, 0, isolated)
  {
  }

  lemma OneMore(s: Sei, w: Effects, events: seq<Event>, fulls: seq<seq<Obs>>, k: nat, isolated: bool)
    requires k < |events| == |fulls| && AllServable(s, w, events, fulls)
    ensures Servable(s, PlainAll(w, events, fulls, k), events[k], fulls[k])
    ensures PlainAll(w, events, fulls, k + 1) == Plain(PlainAll(w, events, fulls, k), events[k], fulls[k])
    ensures CommitsAt(s, w, events, fulls, k, isolated) <==>
            Commits(s, PlainAll(w, events, fulls, k), events[k], fulls[k], isolated)
    ensures FirstCommit(s, w, events, fulls, k, isolated) && CommitsAt(s, w, events, fulls, k, isolated) ==>
            FirstCommit(s, w, events, fulls, k + 1, isolated)
    ensures var all := PlainAll(w, events, fulls, k);
            var last := DoneAtStop(s, all, events[k], fulls[k], isolated);
            AllDone(s, w, events, fulls, k, isolated) ==
            all.(calls := all.calls + last.calls, frees := all.frees + last.frees)
  {
    hide Servable, Commits, Plain, DoneAtStop;
  }

  lemma NoneLeft(s: Sei, w: Effects, events: seq<Event>, fulls: seq<seq<Obs>>, isolated: bool)
    requires |events| == |fulls|
    ensures AllDone(s, w, events, fulls, |events|, isolated) == PlainAll(w, events, fulls, |events|)
  {
  }

  /** The server loop.  All events before the first whose transaction does not commit have the
      effects of their handlers run on their own, one after another and once each; for that one
      `DoneAtStop` says what is added. */
  method ServeAll(s: Sei, events: seq<Event>, isolated: bool, ghost fulls: seq<seq<Obs>>)
    returns (k: nat, calls: seq<Call>, frees: seq<nat>, crcs: seq<bv32>)
    requires s.Idle([]) && |fulls| == |events| && AllServable(s, Effects(s.mem[..], [], [], []), events, fulls)
    modifies s, s.cow, s.mem, s.talloc, s.tbin, s.wts, s.obuf
    ensures k <= |events|
    ensures var w := Effects(old(s.mem[..]), [], [], []);
            FirstCommit(s, w, events, fulls, k, isolated) &&
            (k < |events| ==> !CommitsAt(s, w, events, fulls, k, isolated)) &&
            var done := AllDone(s, w, events, fulls, k, isolated);
            calls == done.calls && frees == done.frees && crcs == done.crcs &&
            (k == |events| ==> s.Idle([]) && s.mem[..] == done.mem)
  {
    hide Sei.Idle, Servable, Commits, PlainAll, Plain, DoneAtStop, AllServable, FirstCommit, CommitsAt, AllDone;
    ghost var w := Effects(s.mem[..], [], [], []);
    calls, frees, crcs := [], [], [];
    NoneYet(s, w, events, fulls, isolated);
    for i := 0 to |events|
      invariant s.Idle([]) && FirstCommit(s, w, events, fulls, i, isolated)
      invariant PlainAll(w, events, fulls, i) == Effects(s.mem[..], calls, frees, crcs)
    {
      OneMore(s, w, events, fulls, i, isolated);
      var ok, c, f, x := Serve(s, events[i], isolated, PlainAll(w, events, fulls, i), fulls[i]);
      calls, frees, crcs := calls + c, frees + f, crcs + x;
      if !ok {
        return i, calls, frees, crcs;
      }
    }
    NoneLeft(s, w, events, fulls, isolated);
    k := |events|;
  }
}
