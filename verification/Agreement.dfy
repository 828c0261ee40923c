/** What a commit says about the phases behind it: exactly when it means that all of them computed
    the same memory, and what follows if one of them was free of faults. */
module Agreement {
  import opened Memory
  import opened Words
  import opened UndoLog
  import opened Compare
  import opened AbufModule
  import opened Deferred
  import opened CrcApi
  import opened ObufModule
  import opened HandlerModule
  import opened Engine
  import opened Transactions
  import opened Runs

  // --------------------------------------- phases that do nothing but write

  function WriteActions(ws: seq<Write>): (acts: seq<Action>)
    ensures |acts| == |ws| && forall i :: 0 <= i < |ws| ==> acts[i] == WriteMem(ws[i])
  {
    seq(|ws|, i requires 0 <= i < |ws| => WriteMem(ws[i]))
  }

  lemma {:induction false} OnlyWrites(ws: seq<Write>, supply: Supply)
    ensures var acts := WriteActions(ws);
            Writes(acts) == ws && Calls(acts) == [] && Frees(acts) == [] && Allocs(acts, supply) == []
  {
    hide Writes, Calls, Frees, Allocs, Messages;
    if ws == [] {
      NoActions(supply);
      assert WriteActions(ws) == [];
    } else {
      var past, w := ws[..|ws| - 1], ws[|ws| - 1];
      OnlyWrites(past, supply);
      assert WriteActions(ws) == WriteActions(past) + [WriteMem(w)];
      ActionsSnoc(WriteActions(past), WriteMem(w), supply);
      assert past + [w] == ws;
    }
  }

  /** Phase q writes ws[q]. */
  function WritePhases(ws: seq<seq<Write>>): (phases: Phases)
    ensures |phases| == |ws| && forall q :: 0 <= q < |ws| ==> phases[q] == WriteActions(ws[q])
  {
    seq(|ws|, q requires 0 <= q < |ws| => WriteActions(ws[q]))
  }

  function Plainly(m: Ram): Txn {
    Txn(m, k => 1, [], NoInput)
  }

  /** Such phases commit if the comparison accepts them. */
  lemma WritePhasesVerified(m: Ram, ws: seq<seq<Write>>, rule: Rule)
    requires |ws| >= 2 && (forall q :: 0 <= q < |ws| ==> AllFit(m, ws[q]) && SameShape(ws[0], ws[q]))
    requires var final := Apply(m, ws[|ws| - 1]);
             AllFit(final, ws[0]) && Accepts(rule, MAX_CONFLICTS, ws[0], final)
    ensures AllPhasesFit(Plainly(m), WritePhases(ws)) && Verified(Plainly(m), WritePhases(ws), rule)
    ensures forall q :: 0 <= q < |ws| ==> Writes(WritePhases(ws)[q]) == ws[q]
  {
    hide Writes, Calls, Frees, Allocs, AllFit, SameShape, Accepts, Apply, WriteActions;
    var t, phases := Plainly(m), WritePhases(ws);
    forall q | 0 <= q < |ws|
      ensures Writes(phases[q]) == ws[q] && Calls(phases[q]) == [] && Frees(phases[q]) == []
      ensures Allocs(phases[q], t.supply) == []
    {
      OnlyWrites(ws[q], t.supply);
    }
    ComparedIs(ws[0], Apply(m, ws[|ws| - 1]), true, t, phases, rule);
  }

  // --------------------------------------------------- all phases agree

  ghost predicate AllAgree(t: Txn, phases: Phases)
    requires phases != [] && AllPhasesFit(t, phases)
  {
    forall q :: 0 <= q < |phases| ==> Apply(t.start, Writes(phases[q])) == Apply(t.start, Writes(phases[0]))
  }

  /** Phases of this shape: places and sizes are fixed, values are not. */
  ghost predicate Shaped(t: Txn, phases: Phases, level: nat, n: nat, shape: seq<Write>) {
    |t.start| == n && |phases| == level && AllPhasesFit(t, phases) && AllPhasesPossible(phases) &&
    forall q :: 0 <= q < level ==> SameShape(Writes(phases[q]), shape)
  }

  ghost predicate CommitMeansAgreement(t: Txn, phases: Phases, rule: Rule)
    requires |phases| >= 2 && AllPhasesFit(t, phases)
  {
    Verified(t, phases, rule) ==> AllAgree(t, phases)
  }

  /** Whatever the values, a commit means that all phases computed the same memory. */
  ghost predicate AgreementFor(rule: Rule, level: nat, n: nat, shape: seq<Write>)
    requires level >= 2
  {
    forall t: Txn, phases: Phases :: Shaped(t, phases, level, n, shape) ==> CommitMeansAgreement(t, phases, rule)
  }

  predicate NothingWritten(n: nat, shape: seq<Write>) {
    forall b :: 0 <= b < n ==> LastWriter(shape, b) < 0
  }

  predicate AccessSizes(shape: seq<Write>) {
    forall i :: 0 <= i < |shape| ==> AccessSize(|shape[i].value|)
  }

  lemma TwoPhasesAgree(t: Txn, phases: Phases, rule: Rule, n: nat, shape: seq<Write>)
    requires Shaped(t, phases, 2, n, shape) && LastWritersChecked(rule, shape)
    ensures CommitMeansAgreement(t, phases, rule)
  {
    hide Apply, Writes, LastWritersChecked, AllPhasesPossible, AllPhasesFit, Verified;
    if Verified(t, phases, rule) {
      SameChecked(rule, Writes(phases[0]), shape);
      CommitIsSound(t, phases, rule);
    }
  }

  lemma SameChecked(rule: Rule, ws: seq<Write>, shape: seq<Write>)
    requires SameShape(ws, shape) && LastWritersChecked(rule, shape)
    ensures LastWritersChecked(rule, ws)
  {
    hide LastWriter, Excused;
    forall b: nat | LastWriter(ws, b) >= 0
      ensures !Excused(rule, ws, LastWriter(ws, b))
    {
      SameLastWriter(ws, shape, b);
      SameExcuse(rule, ws, shape, LastWriter(ws, b));
    }
  }

  lemma NothingWrittenAgrees(t: Txn, phases: Phases, rule: Rule, level: nat, n: nat, shape: seq<Write>)
    requires level >= 2 && Shaped(t, phases, level, n, shape) && NothingWritten(n, shape)
    ensures CommitMeansAgreement(t, phases, rule)
  {
    hide Apply, Writes, Verified, AllPhasesPossible, LastWriter;
    forall q | 0 <= q < level
      ensures Apply(t.start, Writes(phases[q])) == t.start
    {
      var ws := Writes(phases[q]);
      forall b | 0 <= b < n
        ensures Apply(t.start, ws)[b] == t.start[b]
      {
        SameLastWriter(ws, shape, b);
        ApplyAt(t.start, ws, b);
      }
    }
  }

  lemma WritePhasesShaped(n: nat, ws: seq<seq<Write>>, shape: seq<Write>, m: Ram)
    requires |m| == n && AccessSizes(shape) && AllPhasesFit(Plainly(m), WritePhases(ws))
    requires forall q :: 0 <= q < |ws| ==> Writes(WritePhases(ws)[q]) == ws[q] && SameShape(ws[q], shape)
    ensures Shaped(Plainly(m), WritePhases(ws), |ws|, n, shape)
  {
    hide Writes, AllPhasesFit;
  }

  lemma SameTwice(a: seq<Write>, b: seq<Write>, shape: seq<Write>)
    requires SameShape(a, shape) && SameShape(b, shape)
    ensures SameShape(a, b)
  {
  }

  lemma StillFit(m: Ram, m': Ram, ws: seq<Write>)
    requires AllFit(m, ws) && |m| == |m'|
    ensures AllFit(m', ws)
  {
  }

  /** A forgiven last writer: the first phase differs from all others. */
  lemma ForgivenDisagree(rule: Rule, level: nat, n: nat, shape: seq<Write>, b: nat)
    requires level >= 2 && AllFit(Zeros(n), shape) && AccessSizes(shape) && b < n
    requires LastWriter(shape, b) >= 0 && Excused(rule, shape, LastWriter(shape, b))
    ensures !AgreementFor(rule, level, n, shape)
  {
    hide Apply, LastWriter, Excused, Marked, Accepts, Zeros, SameShape, AllFit, AccessSizes, Writes, AllPhasesFit,
         Verified;
    var us, vs := Marked(shape, b, LastWriter(shape, b)), Marked(shape, b, -1);
    ForgivenByteUnsound(rule, MAX_CONFLICTS, n, shape, b);
    var m, ws := Zeros(n), seq(level, q => if q == 0 then us else vs);
    assert |m| == n by { ZerosSize(n); }
    SameTwice(us, us, shape);
    SameTwice(us, vs, shape);
    StillFit(m, Apply(m, vs), us);
    WritePhasesVerified(m, ws, rule);
    WritePhasesShaped(n, ws, shape, m);
    var t, phases := Plainly(m), WritePhases(ws);
    assert Writes(phases[0]) == us && Writes(phases[1]) == vs;
    assert !CommitMeansAgreement(t, phases, rule);
  }

  lemma ZerosSize(n: nat)
    ensures |Zeros(n)| == n
  {
  }

  lemma ZerosStay(n: nat, shape: seq<Write>, rule: Rule, cap: nat)
    requires AllFit(Zeros(n), shape)
    ensures var us := Fill(shape, 0);
            AllFit(Zeros(n), us) && Apply(Zeros(n), us) == Zeros(n) && Accepts(rule, cap, us, Zeros(n))
  {
    hide Apply, LastWriter;
    var us := Fill(shape, 0);
    forall b | 0 <= b < n
      ensures Apply(Zeros(n), us)[b] == 0
    {
      ApplyAt(Zeros(n), us, b);
    }
    assert Apply(Zeros(n), us) == Zeros(n);
    forall i | 0 <= i < |us|
      ensures !Conflicting(us, Zeros(n), i)
    {
      assert Load(Zeros(n), us[i].addr, |us[i].value|) == us[i].value;
    }
    assert Conflicts(us, Zeros(n)) == {};
  }

  lemma OnesDiffer(n: nat, shape: seq<Write>, b: nat)
    requires AllFit(Zeros(n), shape) && b < n && LastWriter(shape, b) >= 0
    ensures AllFit(Zeros(n), Fill(shape, 1)) && Apply(Zeros(n), Fill(shape, 1)) != Zeros(n)
  {
    hide Apply, LastWriter;
    var vs := Fill(shape, 1);
    ApplyAt(Zeros(n), vs, b);
    SameLastWriter(vs, shape, b);
    assert Apply(Zeros(n), vs)[b] == 1;
  }

  /** With three or more phases: all write zeros over zeros, but the second writes ones. */
  lemma MiddleDisagrees(rule: Rule, level: nat, n: nat, shape: seq<Write>, b: nat)
    requires level >= 3 && AllFit(Zeros(n), shape) && AccessSizes(shape) && b < n && LastWriter(shape, b) >= 0
    ensures !AgreementFor(rule, level, n, shape)
  {
    hide Apply, LastWriter, Fill, Accepts, Zeros, SameShape, AllFit, AccessSizes, Writes, AllPhasesFit, Verified;
    var us, vs := Fill(shape, 0), Fill(shape, 1);
    ZerosStay(n, shape, rule, MAX_CONFLICTS);
    OnesDiffer(n, shape, b);
    var m, ws := Zeros(n), seq(level, q => if q == 1 then vs else us);
    assert |m| == n by { ZerosSize(n); }
    SameTwice(us, us, shape);
    SameTwice(us, vs, shape);
    WritePhasesVerified(m, ws, rule);
    WritePhasesShaped(n, ws, shape, m);
    var t, phases := Plainly(m), WritePhases(ws);
    assert Writes(phases[0]) == us && Writes(phases[1]) == vs;
    assert !CommitMeansAgreement(t, phases, rule);
  }

  /** For all values of a shape a commit means that all phases computed the same memory exactly
      when every last writer is checked and there are two phases or nothing is written. */
  lemma AgreementExactly(rule: Rule, level: nat, n: nat, shape: seq<Write>)
    requires level >= 2 && AllFit(Zeros(n), shape) && AccessSizes(shape)
    ensures AgreementFor(rule, level, n, shape) <==>
            LastWritersChecked(rule, shape) && (level == 2 || NothingWritten(n, shape))
  {
    hide LastWriter, Excused, Shaped, CommitMeansAgreement, AccessSizes;
    if LastWritersChecked(rule, shape) && (level == 2 || NothingWritten(n, shape)) {
      forall t: Txn, phases: Phases | Shaped(t, phases, level, n, shape)
        ensures |phases| >= 2 && AllPhasesFit(t, phases) && CommitMeansAgreement(t, phases, rule)
      {
        ShapedSize(t, phases, level, n, shape);
        if level == 2 {
          TwoPhasesAgree(t, phases, rule, n, shape);
        } else {
          NothingWrittenAgrees(t, phases, rule, level, n, shape);
        }
      }
    } else if !LastWritersChecked(rule, shape) {
      var b: nat :| LastWriter(shape, b) >= 0 && Excused(rule, shape, LastWriter(shape, b));
      assert Fits(Zeros(n), shape[LastWriter(shape, b)]);
      ForgivenDisagree(rule, level, n, shape, b);
    } else {
      var b :| 0 <= b < n && LastWriter(shape, b) >= 0;
      MiddleDisagrees(rule, level, n, shape, b);
    }
  }

  lemma ShapedSize(t: Txn, phases: Phases, level: nat, n: nat, shape: seq<Write>)
    requires Shaped(t, phases, level, n, shape)
    ensures |phases| == level && AllPhasesFit(t, phases)
  {
  }

  // ------------------------------------------------ one phase without faults

  /** If the first or the last phase is the handler's own run and last writers are checked, a
      commit leaves the memory of one plain run and frees what it frees; it makes the calls of
      that run, if the phase is one that defers them. */
  lemma CommitIsPlainRun(t: Txn, phases: Phases, rule: Rule, isolated: bool, h: Handler, full: seq<Obs>, q: nat)
    requires |phases| >= 2 && AllPhasesFit(t, phases) && Verified(t, phases, rule)
    requires LastWritersChecked(rule, Writes(phases[0]))
    requires CompleteRun(h, t.start, t.supply, full) && (q == 0 || q == |phases| - 1) && phases[q] == Actions(h, full)
    ensures var acts, e := Actions(h, full), CommitEnding(t, phases, rule, isolated);
            AllFit(t.start, Writes(acts)) && ResultOf(t.start, phases[|phases| - 1], Apply(t.start, Writes(acts))) &&
            e.Committed? && e.frees == Frees(acts) && (q < 2 ==> e.calls == Calls(acts))
  {
    hide Apply, Writes, Calls, Frees, Actions, CompleteRun, LastWritersChecked, Compared, InputStands, SameAllocations,
         AllFit;
    CommitIsSound(t, phases, rule);
    RunOf(h, t, full);
  }

  /** Every phase has a message, and the oldest ones have the same size and checksum. */
  ghost predicate OldestAgree(done: seq<seq<Bytes>>) {
    (forall q :: 0 <= q < |done| ==> done[q] != []) &&
    forall q :: 0 <= q < |done| ==> |done[q][0]| == |done[0][0]| && Compute(done[q][0]) == Compute(done[0][0])
  }

  /** Takes up to n checksums, as long as there are any on which all phases agree.  Each is that
      of the message in its place of every phase: one phase without faults vouches for all. */
  method PopAgreed(o: Obuf, n: nat) returns (crcs: seq<bv32>)
    requires o.Valid()
    modifies o`queue, o`done
    ensures o.Valid() && |crcs| <= n && (|crcs| < n ==> !OldestAgree(o.done))
    ensures forall q, j :: 0 <= q < o.level && 0 <= j < |crcs| ==>
      j < |old(o.done)[q]| && crcs[j] == Compute(old(o.done)[q][j])
    ensures forall q :: 0 <= q < o.level ==> |crcs| <= |old(o.done)[q]| && o.done[q] == old(o.done)[q][|crcs|..]
  {
    hide Holds, Compute;
    crcs := [];
    while |crcs| < n
      invariant o.Valid() && |crcs| <= n
      invariant forall q :: 0 <= q < o.level ==> |crcs| <= |old(o.done)[q]| && o.done[q] == old(o.done)[q][|crcs|..]
      invariant forall q, j :: 0 <= q < o.level && 0 <= j < |crcs| ==> crcs[j] == Compute(old(o.done)[q][j])
    {
      var r := o.Pop();
      if r.None? {
        return;
      }
      crcs := crcs + [r.value];
    }
  }

  /** After a commit, if phase q is the handler's own run, every checksum taken is that of the
      message a plain run would have sent. */
  method SendAgreed(s: Sei, ghost t: Txn, ghost phases: Phases, n: nat, ghost q: nat, ghost acts: seq<Action>)
    returns (crcs: seq<bv32>)
    requires s.Valid() && |phases| == s.level && ObufAt(s, t, phases) && q < s.level && phases[q] == acts
    modifies s.obuf`queue, s.obuf`done
    ensures var messages := t.waiting + Messages(acts).done;
            forall j :: 0 <= j < |crcs| ==> j < |messages| && crcs[j] == Compute(messages[j])
  {
    hide Compute, Messages, AllValid, Talloc.Valid, Tbin.Valid, Wts.Valid, Obuf.Valid;
    crcs := PopAgreed(s.obuf, n);
    assert old(s.obuf.done)[q] == t.waiting + Messages(acts).done;
  }
}
