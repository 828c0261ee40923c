/** Verification in the two-phase-locking build: with other threads writing elsewhere, the log of
    the first phase still passes the comparison with memory (src/abuf.c:284-376). */
module TwoPhaseCommit {
  import opened FiniteSets
  import opened Memory
  import opened Words
  import opened UndoLog
  import opened Compare
  import Threads = TwoPhase

  /** How words are laid out as bytes; any layout will do. */
  type Layout = int -> Word

  /** The bytes of a memory of words. */
  function Image(enc: Layout, m: seq<int>): (r: Ram)
    ensures |r| == 8 * |m|
    ensures forall b :: 0 <= b < |r| ==> r[b] == enc(m[b / 8])[b % 8]
  {
    seq(8 * |m|, b requires 0 <= b < 8 * |m| => enc(m[b / 8])[b % 8])
  }

  /** A log of words as a log of bytes. */
  function LogImage(enc: Layout, ws: seq<Threads.Stored>): (log: seq<Write>)
    ensures |log| == |ws|
    ensures forall i :: 0 <= i < |ws| ==> log[i] == Write(8 * ws[i].x, enc(ws[i].value))
  {
    seq(|ws|, i requires 0 <= i < |ws| => Write(8 * ws[i].x, enc(ws[i].value)))
  }

  lemma WordImage(enc: Layout, m: seq<int>, x: nat)
    requires x < |m|
    ensures 8 * x + 8 <= |Image(enc, m)| && Load(Image(enc, m), 8 * x, 8) == enc(m[x])
  {
    var w := Load(Image(enc, m), 8 * x, 8);
    forall c | 0 <= c < 8
      ensures w[c] == enc(m[x])[c]
    {
      assert (8 * x + c) / 8 == x && (8 * x + c) % 8 == c;
    }
  }

  lemma ImageFits(enc: Layout, m: seq<int>, ws: seq<Threads.Stored>)
    requires Threads.InMemory(m, ws)
    ensures AllFit(Image(enc, m), LogImage(enc, ws))
  {
  }

  /** Words overlap only if they are the same word. */
  lemma WordsOverlap(enc: Layout, ws: seq<Threads.Stored>, i: nat, j: nat)
    requires i < |ws| && j < |ws|
    ensures Overlap(LogImage(enc, ws)[i], LogImage(enc, ws)[j]) <==> ws[i].x == ws[j].x
  {
  }

  /** An entry that is not superseded matches memory; one that is, is forgiven. */
  lemma EntryPasses(enc: Layout, rule: Rule, m: seq<int>, mem: seq<int>, ws: seq<Threads.Stored>, i: nat)
    requires Threads.InMemory(m, ws) && |mem| == |m| && i < |ws|
    requires mem[ws[i].x] == Threads.Put(m, ws)[ws[i].x]
    ensures AllFit(Image(enc, mem), LogImage(enc, ws))
    ensures Conflicting(LogImage(enc, ws), Image(enc, mem), i) ==>
            Disturbed(LogImage(enc, ws), i) && Excused(rule, LogImage(enc, ws), i)
  {
    var log := LogImage(enc, ws);
    ImageFits(enc, mem, ws);
    if j: nat :| i < j < |ws| && ws[j].x == ws[i].x {
      WordsOverlap(enc, ws, i, j);
      assert log[j].addr == log[i].addr;
    } else {
      Threads.PutLast(m, ws, i);
      WordImage(enc, mem, ws[i].x);
    }
  }

  /** Comparing the log of the first phase with memory accepts, under either rule, if no more
      entries are superseded than the conflict table holds. */
  lemma OwnWritesPass(enc: Layout, rule: Rule, cap: nat, m: seq<int>, mem: seq<int>, ws: seq<Threads.Stored>)
    requires Threads.InMemory(m, ws) && |mem| == |m|
    requires forall k :: 0 <= k < |ws| ==> mem[ws[k].x] == Threads.Put(m, ws)[ws[k].x]
    requires |DisturbedEntries(LogImage(enc, ws))| <= cap
    ensures AllFit(Image(enc, mem), LogImage(enc, ws))
    ensures Accepts(rule, cap, LogImage(enc, ws), Image(enc, mem))
  {
    hide Conflicting, Disturbed, Excused, LogImage, Image;
    var log, ram := LogImage(enc, ws), Image(enc, mem);
    ImageFits(enc, mem, ws);
    forall i | 0 <= i < |ws| && Conflicting(log, ram, i)
      ensures Disturbed(log, i) && Excused(rule, log, i)
    {
      EntryPasses(enc, rule, m, mem, ws, i);
    }
    assert Conflicts(log, ram) <= DisturbedEntries(log);
    SubsetSize(Conflicts(log, ram), DisturbedEntries(log));
  }

  /** Whatever the other threads are doing, a transaction that has run all its phases passes
      verification: its logs agree in their places, and the first one matches memory. */
  lemma VerificationPasses(level: nat, guard: seq<Threads.Guard>, states: seq<Threads.State>, steps: seq<Threads.Step>,
                           i: nat, t: nat, enc: Layout, rule: Rule, cap: nat)
    requires level >= 2 && Threads.Run(level, guard, states, steps) && Threads.Initial(guard, states[0]) && i <= |steps|
    requires Threads.Enabled(level, guard, states[i], t, Threads.CommitAll)
    requires |DisturbedEntries(LogImage(enc, states[i].threads[t].redo))| <= cap
    ensures var th := states[i].threads[t];
            SameShape(LogImage(enc, th.redo), LogImage(enc, th.log)) &&
            AllFit(Image(enc, states[i].mem), LogImage(enc, th.redo)) &&
            Accepts(rule, cap, LogImage(enc, th.redo), Image(enc, states[i].mem))
  {
    hide Accepts, DisturbedEntries, Threads.SerialMemory, Threads.Put, Threads.Writes, Threads.Replaced,
         Threads.Initial, Threads.After;
    Threads.LogsAtCommit(level, guard, states, steps, i, t);
    var th := states[i].threads[t];
    OwnWritesPass(enc, rule, cap, Threads.SerialMemory(states[0].mem, states[i].committed), states[i].mem, th.redo);
  }
}
