/** The output buffer of src/obuf.c: per phase, a ring of message checksums. */
module ObufModule {
  import opened CrcApi
  import opened Options

  const MAX_MSGS := 100

  datatype Entry = Entry(size: nat, crc: bv32, done: bool)

  datatype Queue = Queue(entries: seq<Entry>, head: nat, tail: nat)

  const FRESH := Entry(0, INIT, false)

  const EMPTY_QUEUE := Queue(seq(MAX_MSGS, _ => FRESH), 0, 0)

  function OpenEntry(m: Bytes): Entry { Entry(|m|, Append(INIT, m), false) }

  function ClosedEntry(m: Bytes): Entry { Entry(|m|, Compute(m), true) }

  /** The slot i places after a counter value. */
  function Slot(base: nat, i: nat): (k: nat)
    ensures k < MAX_MSGS
  {
    (base + i) % MAX_MSGS
  }

  function At(q: Queue, i: nat): Entry
    requires |q.entries| == MAX_MSGS
  {
    q.entries[Slot(q.head, i)]
  }

  /** The ring holds these finished messages, oldest first, and this unfinished one; the
      slots behind are clean. */
  ghost predicate Holds(q: Queue, done: seq<Bytes>, part: Bytes) {
    |q.entries| == MAX_MSGS && q.tail == q.head + |done| && |done| <= MAX_MSGS &&
    (|done| == MAX_MSGS ==> part == []) &&
    forall i :: 0 <= i < MAX_MSGS ==>
      At(q, i) == if i < |done| then ClosedEntry(done[i]) else if i == |done| then OpenEntry(part) else FRESH
  }

  lemma SlotsDiffer(base: nat, i: nat, j: nat)
    requires i < MAX_MSGS && j < MAX_MSGS && i != j
    ensures Slot(base, i) != Slot(base, j)
  {
  }

  /** Replacing the entry at distance n leaves the other distances alone. */
  lemma AtUpdate(q: Queue, n: nat, e: Entry)
    requires |q.entries| == MAX_MSGS && n < MAX_MSGS
    ensures var q' := q.(entries := q.entries[Slot(q.head, n) := e]);
            forall i :: 0 <= i < MAX_MSGS ==> At(q', i) == if i == n then e else At(q, i)
  {
    hide Slot;
    var q' := q.(entries := q.entries[Slot(q.head, n) := e]);
    forall i | 0 <= i < MAX_MSGS
      ensures At(q', i) == if i == n then e else At(q, i)
    {
      if i != n {
        SlotsDiffer(q.head, i, n);
      }
    }
  }

  /** The slot the tail counter names. */
  lemma TailSlot(q: Queue, done: seq<Bytes>, part: Bytes)
    requires Holds(q, done, part)
    ensures q.tail % MAX_MSGS == Slot(q.head, |done| % MAX_MSGS)
    ensures q.entries[q.tail % MAX_MSGS].done <==> |done| == MAX_MSGS
    ensures |done| < MAX_MSGS ==> q.entries[q.tail % MAX_MSGS] == OpenEntry(part)
  {
    var n := |done| % MAX_MSGS;
    assert q.tail % MAX_MSGS == Slot(q.head, n);
    assert q.entries[q.tail % MAX_MSGS] == At(q, n);
  }

  lemma PushHolds(q: Queue, done: seq<Bytes>, part: Bytes, chunk: Bytes)
    requires Holds(q, done, part) && |done| < MAX_MSGS
    ensures var e := OpenEntry(part);
            Holds(q.(entries := q.entries[Slot(q.head, |done|) :=
                       Entry(e.size + |chunk|, Append(e.crc, chunk), false)]), done, part + chunk)
  {
    hide Slot, At, Append;
    var e := OpenEntry(part);
    AtUpdate(q, |done|, Entry(e.size + |chunk|, Append(e.crc, chunk), false));
    AppendChunk(INIT, part, chunk);
  }

  lemma DoneHolds(q: Queue, done: seq<Bytes>, part: Bytes)
    requires Holds(q, done, part) && |done| < MAX_MSGS
    ensures Holds(q.(entries := q.entries[Slot(q.head, |done|) := ClosedEntry(part)], tail := q.tail + 1),
                  done + [part], [])
  {
    hide Slot, Append, Compute, ClosedEntry, OpenEntry;
    var q' := q.(entries := q.entries[Slot(q.head, |done|) := ClosedEntry(part)]);
    AtUpdate(q, |done|, ClosedEntry(part));
    EmptyMessage();
    var r := q'.(tail := q.tail + 1);
    forall i | 0 <= i < MAX_MSGS
      ensures At(r, i) == if i < |done| + 1 then ClosedEntry((done + [part])[i])
                          else if i == |done| + 1 then OpenEntry([]) else FRESH
    {
      assert At(r, i) == At(q', i);
    }
    assert r.tail == r.head + |done + [part]|;
  }

  lemma EmptyMessage()
    ensures OpenEntry([]) == FRESH
  {
  }

  lemma PopHolds(q: Queue, done: seq<Bytes>, part: Bytes)
    requires Holds(q, done, part) && done != []
    ensures At(q, 0) == ClosedEntry(done[0])
    ensures Holds(q.(entries := q.entries[Slot(q.head, 0) := FRESH], head := q.head + 1), done[1..], part)
  {
    hide Slot, Append, Compute, ClosedEntry, OpenEntry;
    var r := q.(entries := q.entries[Slot(q.head, 0) := FRESH]);
    AtUpdate(q, 0, FRESH);
    EmptyMessage();
    var q' := r.(head := q.head + 1);
    forall i | 0 <= i < MAX_MSGS
      ensures At(q', i) == if i < |done| - 1 then ClosedEntry(done[1..][i])
                           else if i == |done| - 1 then OpenEntry(part) else FRESH
    {
      SlotsShift(q.head, i);
      assert At(q', i) == if i == MAX_MSGS - 1 then At(r, 0) else At(r, i + 1);
    }
  }

  lemma SlotsShift(head: nat, i: nat)
    requires i < MAX_MSGS
    ensures Slot(head + 1, i) == if i == MAX_MSGS - 1 then Slot(head, 0) else Slot(head, i + 1)
  {
  }

  lemma EmptyHolds()
    ensures Holds(EMPTY_QUEUE, [], [])
  {
    EmptyMessage();
  }

  class Obuf {
    const level: nat
    var queue: seq<Queue>
    var p: nat
    ghost var done: seq<seq<Bytes>>
    ghost var part: seq<Bytes>

    ghost predicate Valid()
      reads this
    {
      level >= 2 && p < level && |queue| == level && |done| == level && |part| == level &&
      forall q :: 0 <= q < level ==> Holds(queue[q], done[q], part[q]) && queue[q].head == queue[0].head
    }

    constructor (level: nat)
      requires level >= 2
      ensures Valid() && this.level == level && p == 0
      ensures done == seq(level, _ => []) && part == seq(level, _ => [])
    {
      hide Holds;
      EmptyHolds();
      this.level := level;
      queue := seq(level, _ => EMPTY_QUEUE);
      p := 0;
      done := seq(level, _ => []);
      part := seq(level, _ => []);
    }

    /** Next phase, round and round. */
    method Close()
      requires Valid()
      modifies this`p
      ensures Valid() && p == (old(p) + 1) % level
    {
      hide Holds;
      p := (p + 1) % level;
    }

    /** Extends the unfinished message of the current phase, unless the ring is full. */
    method Push(chunk: Bytes) returns (ok: bool)
      requires Valid()
      modifies this`queue, this`part
      ensures Valid()
      ensures ok <==> |done[p]| < 100
      ensures part == if ok then old(part)[p := old(part)[p] + chunk] else old(part)
    {
      hide Slot, Append, At;
      var q := queue[p];
      TailSlot(q, done[p], part[p]);
      var e := q.entries[q.tail % MAX_MSGS];
      if e.done {
        return false;
      }
      PushHolds(q, done[p], part[p], chunk);
      hide Holds;
      queue := queue[p := q.(entries := q.entries[q.tail % MAX_MSGS :=
                        Entry(e.size + |chunk|, Append(e.crc, chunk), false)])];
      part := part[p := part[p] + chunk];
      ok := true;
    }

    /** Finishes the message of the current phase: it must have content and a slot. */
    method Done() returns (ok: bool)
      requires Valid()
      modifies this`queue, this`part, this`done
      ensures Valid()
      ensures ok <==> |old(done)[p]| < 100 && old(part)[p] != []
      ensures ok ==> done == old(done)[p := old(done)[p] + [old(part)[p]]] && part == old(part)[p := []]
      ensures !ok ==> done == old(done) && part == old(part)
    {
      hide Slot, Append, At;
      var q := queue[p];
      TailSlot(q, done[p], part[p]);
      var e := q.entries[q.tail % MAX_MSGS];
      if e.done || e.size == 0 {
        return false;
      }
      DoneHolds(q, done[p], part[p]);
      hide Holds;
      queue := queue[p := q.(entries := q.entries[q.tail % MAX_MSGS := Entry(e.size, CrcApi.Close(e.crc), true)],
                            tail := q.tail + 1)];
      done, part := done[p := done[p] + [part[p]]], part[p := []];
      ok := true;
    }

    /** Number of finished messages, if the phases agree on it. */
    method Size() returns (r: Option<nat>)
      requires Valid()
      ensures r == if forall q :: 0 <= q < level ==> |done[q]| == |done[0]| then Some(|done[0]|) else None
    {
      assert forall q :: 0 <= q < level ==> queue[q].tail == queue[0].head + |done[q]|;
      hide Holds;
      for q := 1 to level
        invariant forall r :: 0 <= r < q ==> |done[r]| == |done[0]|
      {
        if queue[0].head != queue[q].head || queue[0].tail != queue[q].tail {
          return None;
        }
      }
      return Some(queue[0].tail - queue[0].head);
    }

    /** Does some phase have no finished message? */
    method AnyEmpty() returns (b: bool)
      requires Valid()
      ensures b <==> exists q :: 0 <= q < level && done[q] == []
    {
      for q := 0 to level
        invariant forall r :: 0 <= r < q ==> done[r] != []
      {
        if queue[q].head >= queue[q].tail {
          assert done[q] == [];
          return true;
        }
        assert done[q] != [];
      }
      return false;
    }

    /** Takes the oldest message of every phase: its checksum, if all phases agree on its
        size and checksum. */
    method Pop() returns (r: Option<bv32>)
      requires Valid()
      modifies this`queue, this`done
      ensures Valid()
      ensures r.Some? <==>
        (forall q :: 0 <= q < level ==> old(done)[q] != []) &&
        (forall q :: 0 <= q < level ==>
          |old(done)[q][0]| == |old(done)[0][0]| && Compute(old(done)[q][0]) == Compute(old(done)[0][0]))
      ensures r.Some? ==> r.value == Compute(old(done)[0][0])
      ensures r.Some? ==> forall q :: 0 <= q < level ==> done[q] == old(done)[q][1..]
      ensures r.None? ==> done == old(done)
    {
      hide Slot, At, Compute, Append;
      var empty := AnyEmpty();
      if empty {
        return None;
      }
      ghost var was := done;
      for q := 0 to level
        invariant Valid() && done == was
        invariant forall s :: 0 <= s < q ==>
          |was[s][0]| == |was[0][0]| && Compute(was[s][0]) == Compute(was[0][0])
      {
        PopHolds(queue[0], done[0], part[0]);
        PopHolds(queue[q], done[q], part[q]);
        var e0, e := At(queue[0], 0), At(queue[q], 0);
        if e0.size != e.size || e0.done != e.done || e0.crc != e.crc {
          return None;
        }
      }
      PopHolds(queue[0], done[0], part[0]);
      r := Some(At(queue[0], 0).crc);
      ghost var head := queue[0].head;
      for q := 0 to level
        invariant |queue| == |done| == level
        invariant forall s :: 0 <= s < level ==>
          Holds(queue[s], done[s], part[s]) && queue[s].head == head + (if s < q then 1 else 0) &&
          done[s] == if s < q then was[s][1..] else was[s]
      {
        var k := queue[q];
        PopHolds(k, done[q], part[q]);
        queue := queue[q := k.(entries := k.entries[Slot(k.head, 0) := FRESH], head := k.head + 1)];
        done := done[q := done[q][1..]];
      }
    }

    /** Forgets every message of every phase. */
    method Reset()
      requires Valid()
      modifies this
      ensures Valid() && p == 0
      ensures done == seq(level, _ => []) && part == seq(level, _ => [])
    {
      hide Holds;
      EmptyHolds();
      queue := seq(level, _ => EMPTY_QUEUE);
      p := 0;
      done := seq(level, _ => []);
      part := seq(level, _ => []);
    }
  }

  /** When every phase finished the same messages, however they were cut into chunks, popping
      them all gives their checksums in order. */
  method PopAll(o: Obuf, ghost messages: seq<Bytes>) returns (crcs: seq<bv32>)
    requires o.Valid()
    requires forall q :: 0 <= q < o.level ==> o.done[q] == messages
    modifies o`queue, o`done
    ensures o.Valid() && forall q :: 0 <= q < o.level ==> o.done[q] == []
    ensures |crcs| == |messages|
    ensures forall j :: 0 <= j < |messages| ==> crcs[j] == Compute(messages[j])
  {
    hide Holds, Compute;
    crcs := [];
    var size := o.Size();
    while |crcs| < size.value
      invariant o.Valid() && 0 <= |crcs| <= size.value == |messages|
      invariant forall q :: 0 <= q < o.level ==> o.done[q] == messages[|crcs|..]
      invariant forall j :: 0 <= j < |crcs| ==> crcs[j] == Compute(messages[j])
    {
      var r := o.Pop();
      crcs := crcs + [r.value];
    }
  }
}
