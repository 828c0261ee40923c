/** Verification of one phase's redo log against the memory another phase left.

    An entry conflicts when memory does not hold its value.  A conflict is forgiven when
    the log holds another entry for the same start address: a later one for the two-phase
    comparison that aborts, any other one for the remaining comparators.  The theorems
    give the exact log shapes for which a rule is sound, and the exact shapes for which a
    fault-free run is never rejected. */
module Compare {
  import opened FiniteSets
  import opened Memory
  import opened UndoLog

  datatype Rule = LaterEntry | AnyEntry

  predicate Excused(rule: Rule, log: seq<Write>, i: nat)
    requires i < |log|
  {
    match rule
    case LaterEntry => exists j :: i < j < |log| && log[j].addr == log[i].addr
    case AnyEntry => exists j :: 0 <= j < |log| && j != i && log[j].addr == log[i].addr
  }

  predicate Conflicting(log: seq<Write>, m: Ram, i: nat)
    requires AllFit(m, log) && i < |log|
  {
    Load(m, log[i].addr, |log[i].value|) != log[i].value
  }

  function ConflictsBelow(log: seq<Write>, m: Ram, n: nat): (s: set<int>)
    requires AllFit(m, log) && n <= |log|
  {
    set i | 0 <= i < n && Conflicting(log, m, i)
  }

  function Conflicts(log: seq<Write>, m: Ram): (s: set<int>)
    requires AllFit(m, log)
  {
    ConflictsBelow(log, m, |log|)
  }

  /** The verdict on the values: few enough conflicts, every one forgiven. */
  predicate Accepts(rule: Rule, cap: nat, log: seq<Write>, m: Ram)
    requires AllFit(m, log)
  {
    |Conflicts(log, m)| <= cap &&
    forall i :: 0 <= i < |log| && Conflicting(log, m, i) ==> Excused(rule, log, i)
  }

  /** The conflicts among the first k entries, in log order. */
  function ConflictList(log: seq<Write>, m: Ram, k: nat): (cs: seq<nat>)
    requires AllFit(m, log) && k <= |log|
    ensures forall x :: 0 <= x < |cs| ==> cs[x] < k
  {
    if k == 0 then []
    else ConflictList(log, m, k - 1) + (if Conflicting(log, m, k - 1) then [k - 1] else [])
  }

  lemma {:induction false} ConflictListMembers(log: seq<Write>, m: Ram, k: nat, i: nat)
    requires AllFit(m, log) && k <= |log|
    ensures i in ConflictList(log, m, k) <==> i < k && Conflicting(log, m, i)
  {
    hide Conflicting;
    if k == 0 {
    } else {
      ConflictListMembers(log, m, k - 1, i);
    }
  }

  lemma {:induction false} ConflictListSize(log: seq<Write>, m: Ram, k: nat)
    requires AllFit(m, log) && k <= |log|
    ensures |ConflictList(log, m, k)| == |ConflictsBelow(log, m, k)|
  {
    hide Conflicting;
    if k == 0 {
    } else {
      ConflictListSize(log, m, k - 1);
      assert ConflictsBelow(log, m, k) ==
             ConflictsBelow(log, m, k - 1) + (if Conflicting(log, m, k - 1) then {k - 1} else {});
    }
  }

  /** The verdict read off the list a scan collects. */
  lemma AcceptsByList(rule: Rule, cap: nat, log: seq<Write>, m: Ram)
    requires AllFit(m, log)
    ensures var cs := ConflictList(log, m, |log|);
            Accepts(rule, cap, log, m) <==>
            |cs| <= cap && forall x :: 0 <= x < |cs| ==> Excused(rule, log, cs[x])
  {
    hide Conflicting, Excused, ConflictList;
    ConflictListSize(log, m, |log|);
    var cs := ConflictList(log, m, |log|);
    forall i: nat | i < |log|
      ensures Conflicting(log, m, i) <==> exists x :: 0 <= x < |cs| && cs[x] == i
    {
      ConflictListMembers(log, m, |log|, i);
    }
  }

  lemma {:induction false} ConflictListGrows(log: seq<Write>, m: Ram, k: nat, n: nat)
    requires AllFit(m, log) && k <= n <= |log|
    ensures |ConflictList(log, m, k)| <= |ConflictList(log, m, n)|
  {
    if k == n {
    } else {
      ConflictListGrows(log, m, k, n - 1);
    }
  }

  lemma TooManyConflicts(rule: Rule, cap: nat, log: seq<Write>, m: Ram, k: nat)
    requires AllFit(m, log) && k <= |log| && |ConflictList(log, m, k)| > cap
    ensures !Accepts(rule, cap, log, m)
  {
    hide ConflictList, Accepts;
    ConflictListGrows(log, m, k, |log|);
    AcceptsByList(rule, cap, log, m);
  }

  /** The first k entries agree in address and size and hold one conflict more than `cap`:
      a scan that stores before it checks has run past a table of `cap` conflicts. */
  predicate OverrunAt(cap: nat, us: seq<Write>, vs: seq<Write>, m: Ram, k: int)
    requires AllFit(m, us)
  {
    0 <= k <= |us| == |vs| && SameShape(us[..k], vs[..k]) && |ConflictList(us, m, k)| == cap + 1
  }

  lemma NoOverrun(cap: nat, us: seq<Write>, vs: seq<Write>, m: Ram, n: nat)
    requires AllFit(m, us) && n <= |us| == |vs|
    requires |ConflictList(us, m, n)| <= cap
    requires n < |us| ==> us[n].addr != vs[n].addr || |us[n].value| != |vs[n].value|
    ensures forall k :: !OverrunAt(cap, us, vs, m, k)
  {
    hide ConflictList;
    forall k
      ensures !OverrunAt(cap, us, vs, m, k)
    {
      if 0 <= k <= n {
        ConflictListGrows(us, m, k, n);
      } else if n < k <= |us| {
        assert us[..k][n] == us[n] && vs[..k][n] == vs[n];
      }
    }
  }

  lemma SameExcuse(rule: Rule, us: seq<Write>, vs: seq<Write>, i: nat)
    requires SameShape(us, vs) && i < |us|
    ensures Excused(rule, us, i) == Excused(rule, vs, i)
  {
  }

  // ---------------------------------------------------------------- soundness

  /** No byte's last writer may be forgiven. */
  ghost predicate LastWritersChecked(rule: Rule, shape: seq<Write>) {
    forall b: nat :: LastWriter(shape, b) >= 0 ==> !Excused(rule, shape, LastWriter(shape, b))
  }

  /** Two executions from one memory; the first one's log is checked against what the
      second one left. */
  predicate AcceptedRunsAgree(rule: Rule, cap: nat, m: Ram, us: seq<Write>, vs: seq<Write>)
    requires AllFit(m, us) && AllFit(m, vs)
  {
    Accepts(rule, cap, us, Apply(m, vs)) ==> Apply(m, us) == Apply(m, vs)
  }

  ghost predicate SoundFor(rule: Rule, cap: nat, n: nat, shape: seq<Write>) {
    forall m: Ram, us: seq<Write>, vs: seq<Write> ::
      |m| == n && AllFit(m, us) && AllFit(m, vs) && SameShape(us, shape) && SameShape(vs, shape) ==>
      AcceptedRunsAgree(rule, cap, m, us, vs)
  }

  /** A byte whose last writer is checked against memory is the same in both runs. */
  lemma CheckedByteAgrees(rule: Rule, cap: nat, m: Ram, us: seq<Write>, vs: seq<Write>, b: nat)
    requires AllFit(m, us) && AllFit(m, vs) && SameShape(us, vs) && b < |m|
    requires Accepts(rule, cap, us, Apply(m, vs))
    requires var k := LastWriter(us, b); k >= 0 ==> !Excused(rule, us, k)
    ensures Apply(m, us)[b] == Apply(m, vs)[b]
  {
    hide Apply, LastWriter, Conflicts, Excused;
    ApplyAt(m, us, b);
    ApplyAt(m, vs, b);
    SameLastWriter(us, vs, b);
    var k := LastWriter(us, b);
    if k >= 0 {
      assert !Conflicting(us, Apply(m, vs), k);
      assert Load(Apply(m, vs), us[k].addr, |us[k].value|)[b - us[k].addr] == us[k].value[b - us[k].addr];
    }
  }

  lemma CheckedRunsAgree(rule: Rule, cap: nat, m: Ram, us: seq<Write>, vs: seq<Write>)
    requires AllFit(m, us) && AllFit(m, vs) && SameShape(us, vs)
    requires LastWritersChecked(rule, us)
    ensures AcceptedRunsAgree(rule, cap, m, us, vs)
  {
    hide Apply, LastWriter, Excused, Accepts;
    if Accepts(rule, cap, us, Apply(m, vs)) {
      forall b | 0 <= b < |m|
        ensures Apply(m, us)[b] == Apply(m, vs)[b]
      {
        CheckedByteAgrees(rule, cap, m, us, vs, b);
      }
    }
  }

  /** Zero writes of the given shape, except that byte b is set to one by every entry but
      number `except`. */
  function Marked(shape: seq<Write>, b: int, except: int): (ws: seq<Write>)
    ensures SameShape(ws, shape)
  {
    seq(|shape|, k requires 0 <= k < |shape| =>
      Write(shape[k].addr,
            seq(|shape[k].value|, c => if shape[k].addr + c == b && k != except then 1 else 0)))
  }

  /** Memory after writing `Marked`, over zeros, when i is the last writer of b. */
  lemma MarkedMemory(n: nat, shape: seq<Write>, b: nat, except: int, c: nat)
    requires AllFit(Zeros(n), shape) && b < n && c < n
    requires LastWriter(shape, b) >= 0
    ensures var ws := Marked(shape, b, except);
            AllFit(Zeros(n), ws) &&
            Apply(Zeros(n), ws)[c] == if c == b && LastWriter(shape, b) != except then 1 else 0
  {
    hide Apply, LastWriter;
    var ws := Marked(shape, b, except);
    ApplyAt(Zeros(n), ws, c);
    SameLastWriter(ws, shape, c);
  }

  lemma MarkedConflict(n: nat, shape: seq<Write>, b: nat, k: nat)
    requires AllFit(Zeros(n), shape) && b < n && k < |shape|
    requires LastWriter(shape, b) >= 0
    ensures var us, vs := Marked(shape, b, LastWriter(shape, b)), Marked(shape, b, -1);
            AllFit(Zeros(n), us) && AllFit(Zeros(n), vs) &&
            (Conflicting(us, Apply(Zeros(n), vs), k) <==> k == LastWriter(shape, b))
  {
    hide Apply, LastWriter;
    var i := LastWriter(shape, b);
    var us, vs := Marked(shape, b, i), Marked(shape, b, -1);
    var final := Apply(Zeros(n), vs);
    forall c | 0 <= c < n
      ensures final[c] == if c == b then 1 else 0
    {
      MarkedMemory(n, shape, b, -1, c);
    }
    var seen := Load(final, us[k].addr, |us[k].value|);
    if k == i {
      assert seen[b - us[k].addr] == 1 && us[k].value[b - us[k].addr] == 0;
    } else {
      assert seen == us[k].value;
    }
  }

  /** If a forgiven entry decides some byte, two runs that differ there are accepted. */
  lemma ForgivenByteUnsound(rule: Rule, cap: nat, n: nat, shape: seq<Write>, b: nat)
    requires AllFit(Zeros(n), shape) && b < n && cap >= 1
    requires LastWriter(shape, b) >= 0 && Excused(rule, shape, LastWriter(shape, b))
    ensures var us, vs := Marked(shape, b, LastWriter(shape, b)), Marked(shape, b, -1);
            AllFit(Zeros(n), us) && AllFit(Zeros(n), vs) &&
            !AcceptedRunsAgree(rule, cap, Zeros(n), us, vs)
  {
    hide Apply, LastWriter, Excused, Conflicting, Marked;
    var i := LastWriter(shape, b);
    var us, vs := Marked(shape, b, i), Marked(shape, b, -1);
    MarkedMemory(n, shape, b, i, b);
    MarkedMemory(n, shape, b, -1, b);
    var final := Apply(Zeros(n), vs);
    forall k | 0 <= k < |us|
      ensures Conflicting(us, final, k) <==> k == i
    {
      MarkedConflict(n, shape, b, k);
    }
    assert Conflicts(us, final) == {i};
    SameExcuse(rule, us, shape, i);
  }

  /** A rule is sound for all values of a shape exactly when the last writer of every byte is
      checked. */
  lemma SoundExactlyWhenLastWritersChecked(rule: Rule, cap: nat, n: nat, shape: seq<Write>)
    requires AllFit(Zeros(n), shape) && cap >= 1
    ensures SoundFor(rule, cap, n, shape) <==> LastWritersChecked(rule, shape)
  {
    hide Apply, LastWriter, Excused, AcceptedRunsAgree, Marked, Zeros;
    if LastWritersChecked(rule, shape) {
      forall m: Ram, us: seq<Write>, vs: seq<Write> |
        |m| == n && AllFit(m, us) && AllFit(m, vs) && SameShape(us, shape) && SameShape(vs, shape)
        ensures AcceptedRunsAgree(rule, cap, m, us, vs)
      {
        forall b: nat | LastWriter(us, b) >= 0
          ensures !Excused(rule, us, LastWriter(us, b))
        {
          SameLastWriter(us, shape, b);
          SameExcuse(rule, us, shape, LastWriter(us, b));
        }
        CheckedRunsAgree(rule, cap, m, us, vs);
      }
    } else {
      var b: nat :| LastWriter(shape, b) >= 0 && Excused(rule, shape, LastWriter(shape, b));
      assert Fits(Zeros(n), shape[LastWriter(shape, b)]);
      ForgivenByteUnsound(rule, cap, n, shape, b);
    }
  }

  /** Every byte entry i writes is written again by a later entry. */
  ghost predicate CoveredLater(shape: seq<Write>, i: nat)
    requires i < |shape|
  {
    forall b :: Covers(shape[i], b) ==> exists k :: i < k < |shape| && Covers(shape[k], b)
  }

  lemma CheckedExactlyWhenCovered(rule: Rule, shape: seq<Write>)
    ensures LastWritersChecked(rule, shape) <==>
            forall i :: 0 <= i < |shape| && Excused(rule, shape, i) ==> CoveredLater(shape, i)
  {
    hide LastWriter, Excused;
    if LastWritersChecked(rule, shape) {
      forall i, b | 0 <= i < |shape| && Excused(rule, shape, i) && Covers(shape[i], b)
        ensures exists k :: i < k < |shape| && Covers(shape[k], b)
      {
        assert i <= LastWriter(shape, b);
      }
    } else {
      var b: nat :| LastWriter(shape, b) >= 0 && Excused(rule, shape, LastWriter(shape, b));
      assert !CoveredLater(shape, LastWriter(shape, b));
    }
  }

  /** The abort rule is sound exactly when an entry whose start address comes again is later
      rewritten byte by byte; sizes play no part in which entries are forgiven. */
  lemma LaterEntrySoundExactly(cap: nat, n: nat, shape: seq<Write>)
    requires AllFit(Zeros(n), shape) && cap >= 1
    ensures SoundFor(LaterEntry, cap, n, shape) <==>
            forall i, j :: 0 <= i < j < |shape| && shape[j].addr == shape[i].addr ==> CoveredLater(shape, i)
  {
    hide SoundFor, LastWritersChecked, Zeros, CoveredLater;
    SoundExactlyWhenLastWritersChecked(LaterEntry, cap, n, shape);
    CheckedExactlyWhenCovered(LaterEntry, shape);
  }

  /** The other rule: also entries whose start address came before. */
  lemma AnyEntrySoundExactly(cap: nat, n: nat, shape: seq<Write>)
    requires AllFit(Zeros(n), shape) && cap >= 1
    ensures SoundFor(AnyEntry, cap, n, shape) <==>
            forall i, j :: 0 <= i < |shape| && 0 <= j < |shape| && i != j && shape[j].addr == shape[i].addr ==>
              CoveredLater(shape, i)
  {
    hide SoundFor, LastWritersChecked, Zeros, CoveredLater;
    SoundExactlyWhenLastWritersChecked(AnyEntry, cap, n, shape);
    CheckedExactlyWhenCovered(AnyEntry, shape);
  }

  // ------------------------------------------------------------ false alarms

  /** A later entry shares a byte with entry i. */
  predicate Disturbed(shape: seq<Write>, i: nat)
    requires i < |shape|
  {
    exists j :: i < j < |shape| && Overlap(shape[i], shape[j])
  }

  function DisturbedEntries(shape: seq<Write>): (s: set<int>) {
    set i | 0 <= i < |shape| && Disturbed(shape, i)
  }

  ghost predicate AlarmFree(rule: Rule, cap: nat, n: nat, shape: seq<Write>) {
    forall m: Ram, ws: seq<Write> ::
      |m| == n && AllFit(m, ws) && SameShape(ws, shape) ==> SelfAccepted(rule, cap, m, ws)
  }

  /** Two fault-free phases make the same writes: the log is checked against its own result. */
  predicate SelfAccepted(rule: Rule, cap: nat, m: Ram, ws: seq<Write>)
    requires AllFit(m, ws)
  {
    Accepts(rule, cap, ws, Apply(m, ws))
  }

  /** An entry that no later write disturbs is found in memory. */
  lemma UndisturbedMatches(m: Ram, ws: seq<Write>, i: nat)
    requires AllFit(m, ws) && i < |ws| && !Disturbed(ws, i)
    ensures !Conflicting(ws, Apply(m, ws), i)
  {
    hide Apply, LastWriter;
    var seen := Load(Apply(m, ws), ws[i].addr, |ws[i].value|);
    forall c | 0 <= c < |seen|
      ensures seen[c] == ws[i].value[c]
    {
      var b := ws[i].addr + c;
      ApplyAt(m, ws, b);
      var k := LastWriter(ws, b);
      assert Covers(ws[i], b);
      assert k > i ==> Overlap(ws[i], ws[k]);
    }
    assert seen == ws[i].value;
  }

  lemma ConflictsAreDisturbed(m: Ram, ws: seq<Write>, shape: seq<Write>)
    requires AllFit(m, ws) && SameShape(ws, shape)
    ensures Conflicts(ws, Apply(m, ws)) <= DisturbedEntries(shape)
    ensures |Conflicts(ws, Apply(m, ws))| <= |DisturbedEntries(shape)|
  {
    hide Apply, Conflicting;
    forall i | i in Conflicts(ws, Apply(m, ws))
      ensures i in DisturbedEntries(shape)
    {
      if !Disturbed(shape, i) {
        assert !Disturbed(ws, i);
        UndisturbedMatches(m, ws, i);
      }
    }
    SubsetSize(Conflicts(ws, Apply(m, ws)), DisturbedEntries(shape));
  }

  /** Each entry writes zero on the bytes it decides and one on the others. */
  function Superseding(shape: seq<Write>): (ws: seq<Write>)
    ensures SameShape(ws, shape)
  {
    seq(|shape|, k requires 0 <= k < |shape| =>
      Write(shape[k].addr,
            seq(|shape[k].value|, c => if LastWriter(shape, shape[k].addr + c) == k then 0 else 1)))
  }

  lemma SupersedingMemory(n: nat, shape: seq<Write>)
    requires AllFit(Zeros(n), shape)
    ensures AllFit(Zeros(n), Superseding(shape))
    ensures Apply(Zeros(n), Superseding(shape)) == Zeros(n)
  {
    hide Apply, LastWriter;
    var ws := Superseding(shape);
    forall b | 0 <= b < n
      ensures Apply(Zeros(n), ws)[b] == 0
    {
      ApplyAt(Zeros(n), ws, b);
      SameLastWriter(ws, shape, b);
    }
    assert Apply(Zeros(n), ws) == Zeros(n);
  }

  lemma SupersedingByte(shape: seq<Write>, k: nat, c: nat)
    requires k < |shape| && c < |shape[k].value|
    ensures Superseding(shape)[k].addr == shape[k].addr && |Superseding(shape)[k].value| == |shape[k].value|
    ensures Superseding(shape)[k].value[c] == if LastWriter(shape, shape[k].addr + c) == k then 0 else 1
  {
    hide LastWriter;
  }

  lemma ByteConflicts(log: seq<Write>, m: Ram, i: nat, c: nat)
    requires AllFit(m, log) && i < |log| && c < |log[i].value| && m[log[i].addr + c] != log[i].value[c]
    ensures Conflicting(log, m, i)
  {
    assert Load(m, log[i].addr, |log[i].value|)[c] == m[log[i].addr + c];
  }

  /** Values for which every disturbed entry conflicts at once. */
  lemma DisturbedCanConflict(n: nat, shape: seq<Write>, i: nat)
    requires AllFit(Zeros(n), shape) && i < |shape| && Disturbed(shape, i)
    ensures AllFit(Zeros(n), Superseding(shape))
    ensures Conflicting(Superseding(shape), Zeros(n), i)
  {
    hide LastWriter, Superseding, Load, Conflicting;
    var j :| i < j < |shape| && Overlap(shape[i], shape[j]);
    var b := if shape[i].addr < shape[j].addr then shape[j].addr else shape[i].addr;
    assert Covers(shape[j], b);
    SupersedingByte(shape, i, b - shape[i].addr);
    ByteConflicts(Superseding(shape), Zeros(n), i, b - shape[i].addr);
  }

  lemma WorstCaseConflicts(n: nat, shape: seq<Write>)
    requires AllFit(Zeros(n), shape)
    ensures var ws := Superseding(shape);
            AllFit(Zeros(n), ws) && Conflicts(ws, Apply(Zeros(n), ws)) == DisturbedEntries(shape)
  {
    hide Apply, LastWriter, Conflicting, Disturbed, Superseding;
    var ws := Superseding(shape);
    SupersedingMemory(n, shape);
    ConflictsAreDisturbed(Zeros(n), ws, shape);
    forall i | i in DisturbedEntries(shape)
      ensures i in Conflicts(ws, Apply(Zeros(n), ws))
    {
      DisturbedCanConflict(n, shape, i);
    }
  }

  lemma UndisturbedRunsPass(rule: Rule, cap: nat, m: Ram, ws: seq<Write>)
    requires AllFit(m, ws)
    requires forall i :: 0 <= i < |ws| && Disturbed(ws, i) ==> Excused(rule, ws, i)
    requires |DisturbedEntries(ws)| <= cap
    ensures SelfAccepted(rule, cap, m, ws)
  {
    hide Apply, Excused, Conflicting, Disturbed;
    ConflictsAreDisturbed(m, ws, ws);
    forall i | 0 <= i < |ws| && Conflicting(ws, Apply(m, ws), i)
      ensures Excused(rule, ws, i)
    {
      if !Disturbed(ws, i) {
        UndisturbedMatches(m, ws, i);
      }
    }
  }

  /** Fault-free runs pass for all values exactly when every disturbed entry is forgiven and
      the disturbed entries fit the conflict cap. */
  lemma AlarmFreeExactlyWhenForgiven(rule: Rule, cap: nat, n: nat, shape: seq<Write>)
    requires AllFit(Zeros(n), shape)
    ensures AlarmFree(rule, cap, n, shape) <==>
            (forall i :: 0 <= i < |shape| && Disturbed(shape, i) ==> Excused(rule, shape, i)) &&
            |DisturbedEntries(shape)| <= cap
  {
    hide Apply, Excused, Conflicting, Superseding, Zeros;
    if (forall i :: 0 <= i < |shape| && Disturbed(shape, i) ==> Excused(rule, shape, i)) &&
       |DisturbedEntries(shape)| <= cap {
      forall m: Ram, ws: seq<Write> | |m| == n && AllFit(m, ws) && SameShape(ws, shape)
        ensures SelfAccepted(rule, cap, m, ws)
      {
        SameDisturbance(ws, shape);
        forall i | 0 <= i < |ws| && Disturbed(ws, i)
          ensures Excused(rule, ws, i)
        {
          SameExcuse(rule, ws, shape, i);
        }
        UndisturbedRunsPass(rule, cap, m, ws);
      }
    } else {
      var ws := Superseding(shape);
      WorstCaseConflicts(n, shape);
      if AlarmFree(rule, cap, n, shape) {
        assert SelfAccepted(rule, cap, Zeros(n), ws);
        forall i | 0 <= i < |shape| && Disturbed(shape, i)
          ensures Excused(rule, shape, i)
        {
          assert i in Conflicts(ws, Apply(Zeros(n), ws));
          SameExcuse(rule, ws, shape, i);
        }
      }
    }
  }

  /** Fault-free runs always pass the abort rule exactly when every entry that a later one
      overlaps has a later one with its start address, and there are not too many of them. */
  lemma LaterEntryAlarmFreeExactly(cap: nat, n: nat, shape: seq<Write>)
    requires AllFit(Zeros(n), shape)
    ensures AlarmFree(LaterEntry, cap, n, shape) <==>
            (forall i :: 0 <= i < |shape| && Disturbed(shape, i) ==>
               exists j :: i < j < |shape| && shape[j].addr == shape[i].addr) &&
            |DisturbedEntries(shape)| <= cap
  {
    hide AlarmFree, Disturbed, Zeros;
    AlarmFreeExactlyWhenForgiven(LaterEntry, cap, n, shape);
  }

  /** The other rule takes any other entry with that start address. */
  lemma AnyEntryAlarmFreeExactly(cap: nat, n: nat, shape: seq<Write>)
    requires AllFit(Zeros(n), shape)
    ensures AlarmFree(AnyEntry, cap, n, shape) <==>
            (forall i :: 0 <= i < |shape| && Disturbed(shape, i) ==>
               exists j :: 0 <= j < |shape| && j != i && shape[j].addr == shape[i].addr) &&
            |DisturbedEntries(shape)| <= cap
  {
    hide AlarmFree, Disturbed, Zeros;
    AlarmFreeExactlyWhenForgiven(AnyEntry, cap, n, shape);
  }

  /** A long store and then a short one to the same address pass, whatever the values. */
  lemma ShorterStorePasses(rule: Rule, m: Ram, long: Write, short: Write)
    requires Fits(m, long) && short.addr == long.addr && |short.value| <= |long.value|
    ensures AllFit(m, [long, short]) && SelfAccepted(rule, 1, m, [long, short])
  {
    hide Apply, Conflicting;
    var ws := [long, short];
    assert AllFit(m, ws);
    assert !Disturbed(ws, 1);
    assert DisturbedEntries(ws) <= {0};
    SubsetSize(DisturbedEntries(ws), {0});
    assert ws[1].addr == ws[0].addr;
    UndisturbedRunsPass(rule, 1, m, ws);
  }

  // ------------------------------------------------- the table of conflicts

  /** Where the list of conflicts has grown to a given size. */
  lemma {:induction false} ConflictListReaches(log: seq<Write>, m: Ram, n: nat, size: nat) returns (k: nat)
    requires AllFit(m, log) && n <= |log| && size <= |ConflictList(log, m, n)|
    ensures k <= n && |ConflictList(log, m, k)| == size
  {
    hide Conflicting;
    if |ConflictList(log, m, n)| == size {
      k := n;
    } else {
      k := ConflictListReaches(log, m, n - 1, size);
    }
  }

  /** Two fault-free phases, which make the same writes, run past the table of conflicts. */
  ghost predicate SelfOverrun(cap: nat, m: Ram, ws: seq<Write>)
    requires AllFit(m, ws)
  {
    exists k :: OverrunAt(cap, ws, ws, Apply(m, ws), k)
  }

  lemma SelfOverrunExactly(cap: nat, m: Ram, ws: seq<Write>)
    requires AllFit(m, ws)
    ensures SelfOverrun(cap, m, ws) <==> |Conflicts(ws, Apply(m, ws))| > cap
  {
    hide Apply, ConflictList, Conflicting;
    var final := Apply(m, ws);
    ConflictListSize(ws, final, |ws|);
    if k: int :| OverrunAt(cap, ws, ws, final, k) {
      ConflictListGrows(ws, final, k, |ws|);
    }
    if |Conflicts(ws, final)| > cap {
      var k := ConflictListReaches(ws, final, |ws|, cap + 1);
      assert OverrunAt(cap, ws, ws, final, k);
    }
  }

  ghost predicate CanOverrun(cap: nat, n: nat, shape: seq<Write>) {
    exists m: Ram, ws: seq<Write> ::
      |m| == n && AllFit(m, ws) && SameShape(ws, shape) && SelfOverrun(cap, m, ws)
  }

  /** Fault-free phases can run past the table exactly when more entries are disturbed than it
      has room for. */
  lemma OverrunExactlyWhenDisturbed(cap: nat, n: nat, shape: seq<Write>)
    requires AllFit(Zeros(n), shape)
    ensures CanOverrun(cap, n, shape) <==> |DisturbedEntries(shape)| > cap
  {
    hide Apply, SelfOverrun, Conflicting, Superseding, Zeros, Conflicts, DisturbedEntries;
    if m: Ram, ws: seq<Write> :| |m| == n && AllFit(m, ws) && SameShape(ws, shape) && SelfOverrun(cap, m, ws) {
      SelfOverrunExactly(cap, m, ws);
      ConflictsAreDisturbed(m, ws, shape);
    }
    if |DisturbedEntries(shape)| > cap {
      WorstCaseConflicts(n, shape);
      SelfOverrunExactly(cap, Zeros(n), Superseding(shape));
    }
  }

  /** One byte written n times. */
  function Rewritten(n: nat): (ws: seq<Write>) {
    seq(n, _ => Write(0, [0]))
  }

  lemma RewrittenDisturbed(n: nat)
    ensures |DisturbedEntries(Rewritten(n + 1))| == n
  {
    var shape := Rewritten(n + 1);
    forall i | 0 <= i < n
      ensures Disturbed(shape, i)
    {
      assert Overlap(shape[i], shape[n]);
    }
    hide Rewritten, Overlap;
    IntervalSize(DisturbedEntries(shape), n);
  }

  /** All but the last of the writes are disturbed: it takes cap + 2 of them to run past the table. */
  lemma RewrittenOverruns(cap: nat, n: nat)
    ensures CanOverrun(cap, 1, Rewritten(n)) <==> n >= cap + 2
  {
    var shape := Rewritten(n);
    assert AllFit(Zeros(1), shape);
    assert n == 0 ==> DisturbedEntries(shape) == {};
    hide CanOverrun, Rewritten, DisturbedEntries, AllFit;
    if n > 0 {
      RewrittenDisturbed(n - 1);
    }
    OverrunExactlyWhenDisturbed(cap, 1, shape);
  }

  lemma SameDisturbance(us: seq<Write>, vs: seq<Write>)
    requires SameShape(us, vs)
    ensures forall i :: 0 <= i < |us| ==> Disturbed(us, i) == Disturbed(vs, i)
    ensures DisturbedEntries(us) == DisturbedEntries(vs)
  {
    forall i | 0 <= i < |us|
      ensures Disturbed(us, i) == Disturbed(vs, i)
    {
      assert forall j :: i < j < |us| ==> Overlap(us[i], us[j]) == Overlap(vs[i], vs[j]);
    }
  }

  // -------------------------------------- the shapes handlers are expected to make

  predicate NonEmptyValues(ws: seq<Write>) {
    forall i :: 0 <= i < |ws| ==> ws[i].value != []
  }

  predicate NoAddressRepeats(ws: seq<Write>) {
    forall i, j :: 0 <= i < j < |ws| ==> ws[i].addr != ws[j].addr
  }

  /** Accesses that are disjoint or identical: the abort-on-mismatch rule checks every last
      writer and forgives exactly the superseded entries. */
  lemma DisjointOrIdenticalIsChecked(ws: seq<Write>)
    requires DisjointOrIdentical(ws) && NonEmptyValues(ws)
    ensures LastWritersChecked(LaterEntry, ws)
    ensures forall i :: 0 <= i < |ws| ==> (Disturbed(ws, i) <==> Excused(LaterEntry, ws, i))
  {
    hide LastWriter;
    forall i | 0 <= i < |ws|
      ensures Disturbed(ws, i) <==> Excused(LaterEntry, ws, i)
    {
      if Excused(LaterEntry, ws, i) {
        var j :| i < j < |ws| && ws[j].addr == ws[i].addr;
        assert Overlap(ws[i], ws[j]);
      }
    }
    forall b: nat | LastWriter(ws, b) >= 0
      ensures !Excused(LaterEntry, ws, LastWriter(ws, b))
    {
      var k := LastWriter(ws, b);
      assert forall j :: k < j < |ws| && ws[j].addr == ws[k].addr ==> Overlap(ws[k], ws[j]) && Covers(ws[j], b);
    }
  }

  /** For the other rule the same accesses pass too, but are checked only if no address
      repeats. */
  lemma AnyEntryChecksExactlyWithoutRepeats(ws: seq<Write>)
    requires DisjointOrIdentical(ws) && NonEmptyValues(ws)
    ensures forall i :: 0 <= i < |ws| && Disturbed(ws, i) ==> Excused(AnyEntry, ws, i)
    ensures LastWritersChecked(AnyEntry, ws) <==> NoAddressRepeats(ws)
  {
    hide LastWriter;
    if !NoAddressRepeats(ws) {
      var i, j :| 0 <= i < j < |ws| && ws[i].addr == ws[j].addr;
      var b := ws[j].addr;
      assert Covers(ws[j], b);
      var k := LastWriter(ws, b);
      assert k >= j;
      assert k > j ==> Overlap(ws[j], ws[k]);
      assert ws[k].addr == ws[i].addr;
      assert Excused(AnyEntry, ws, k);
    }
  }

  /** Without repeated addresses the two rules give one verdict. */
  lemma RulesAgreeWithoutRepeats(cap: nat, log: seq<Write>, m: Ram)
    requires AllFit(m, log) && NoAddressRepeats(log)
    ensures Accepts(LaterEntry, cap, log, m) <==> Accepts(AnyEntry, cap, log, m)
  {
    hide Conflicting;
    assert forall i :: 0 <= i < |log| ==> !Excused(AnyEntry, log, i) && !Excused(LaterEntry, log, i);
  }
}
