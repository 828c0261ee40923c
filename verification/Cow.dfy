/** The copy-on-write buffer of src/cow.c: a table of buckets of eight-byte words, for accesses
    of 1, 2, 4 or 8 bytes.  In the write-back build the buffer holds new words until they are
    applied; in the write-through build it holds old ones until they are swapped. */
module CowModule {
  import opened Options
  import opened Memory
  import opened Words
  import opened AbufModule

  const COW_MAX := 128

  datatype Slot = Slot(wkey: nat, wvalue: Word)

  type Table = seq<seq<Slot>>

  function Hash(key: nat): (b: nat)
    ensures b < COW_MAX
  {
    key % COW_MAX
  }

  /** Index of the first slot for the key, or -1. */
  function Find(slots: seq<Slot>, key: nat): (f: int)
    ensures -1 <= f < |slots|
    ensures f >= 0 ==> slots[f].wkey == key
    ensures forall i :: 0 <= i < (if f >= 0 then f else |slots|) ==> slots[i].wkey != key
  {
    if slots == [] then -1
    else
      var f := Find(slots[..|slots| - 1], key);
      if f >= 0 then f else if slots[|slots| - 1].wkey == key then |slots| - 1 else -1
  }

  lemma FindIs(slots: seq<Slot>, key: nat, f: int)
    requires -1 <= f < |slots| && (f >= 0 ==> slots[f].wkey == key)
    requires forall i :: 0 <= i < (if f >= 0 then f else |slots|) ==> slots[i].wkey != key
    ensures Find(slots, key) == f
  {
  }

  /** Every slot is in the bucket of its key, no key is there twice. */
  predicate WellFormed(table: Table) {
    |table| == COW_MAX &&
    forall b :: 0 <= b < COW_MAX ==> BucketWellFormed(table[b], b)
  }

  predicate BucketWellFormed(slots: seq<Slot>, b: nat) {
    (forall i :: 0 <= i < |slots| ==> Hash(slots[i].wkey) == b) &&
    forall i, j :: 0 <= i < j < |slots| ==> slots[i].wkey != slots[j].wkey
  }

  predicate Whole(m: Ram) {
    |m| % 8 == 0
  }

  function Lookup(table: Table, key: nat): Option<Word>
    requires |table| == COW_MAX
  {
    var f := Find(table[Hash(key)], key);
    if f >= 0 then Some(table[Hash(key)][f].wvalue) else None
  }

  /** Memory with the buffered words in place. */
  function Overlay(table: Table, m: Ram): (r: Ram)
    requires |table| == COW_MAX
    ensures |r| == |m|
    ensures forall b :: 0 <= b < |m| ==>
      r[b] == match Lookup(table, b / 8) case Some(w) => w[b % 8] case None => m[b]
  {
    seq(|m|, b requires 0 <= b < |m| => match Lookup(table, b / 8) case Some(w) => w[b % 8] case None => m[b])
  }

  predicate WordAccess(w: Memory.Write) {
    AccessSize(|w.value|) && Aligned(w.addr, |w.value|)
  }

  /** Aligned accesses stay within one word. */
  lemma WithinWord(addr: nat, size: nat, b: nat)
    requires AccessSize(size) && Aligned(addr, size)
    ensures addr <= b < addr + size <==> b / 8 == addr / 8 && Offset(addr, size) <= b % 8 < Offset(addr, size) + size
    ensures addr <= b < addr + size ==> b - addr == b % 8 - Offset(addr, size)
  {
    hide Offset;
    var r, o := addr % 8, Offset(addr, size);
    assert o == r && o + size <= 8;
    SameWord(addr / 8, b);
  }

  lemma WordFits(m: Ram, b: nat)
    requires Whole(m) && b < |m|
    ensures b / 8 * 8 + 8 <= |m|
  {
  }

  /** What the word of an access holds. */
  function WordAt(table: Table, m: Ram, key: nat): (w: Word)
    requires |table| == COW_MAX && key * 8 + 8 <= |m|
  {
    match Lookup(table, key)
    case Some(w) => w
    case None => Load(m, key * 8, 8)
  }

  lemma OverlayWord(table: Table, m: Ram, b: nat)
    requires |table| == COW_MAX && b < |m| && b / 8 * 8 + 8 <= |m|
    ensures Overlay(table, m)[b] == WordAt(table, m, b / 8)[b % 8]
  {
  }

  /** An aligned read of the view is a pick from its word. */
  lemma OverlayPick(table: Table, m: Ram, addr: nat, size: nat)
    requires |table| == COW_MAX && Whole(m) && AccessSize(size) && Aligned(addr, size) && addr + size <= |m|
    ensures addr / 8 * 8 + 8 <= |m|
    ensures Load(Overlay(table, m), addr, size) == Pick(WordAt(table, m, addr / 8), addr, size)
  {
    hide Lookup, WordAt, Overlay, Offset;
    WordFits(m, addr);
    var got, want := Load(Overlay(table, m), addr, size), Pick(WordAt(table, m, addr / 8), addr, size);
    forall c | 0 <= c < size
      ensures got[c] == want[c]
    {
      WithinWord(addr, size, addr + c);
      OverlayWord(table, m, addr + c);
    }
  }

  /** The table with this word under this key. */
  function Updated(table: Table, key: nat, w: Word): (r: Table)
    requires |table| == COW_MAX
    ensures |r| == COW_MAX
  {
    var h := Hash(key);
    var f := Find(table[h], key);
    table[h := if f >= 0 then table[h][f := Slot(key, w)] else table[h] + [Slot(key, w)]]
  }

  lemma UpdatedLookup(table: Table, key: nat, w: Word, k: nat)
    requires |table| == COW_MAX
    ensures Lookup(Updated(table, key, w), k) == if k == key then Some(w) else Lookup(table, k)
  {
    hide Hash;
    var slots, after := table[Hash(key)], Updated(table, key, w)[Hash(key)];
    var f, g := Find(slots, key), Find(slots, k);
    if Hash(k) == Hash(key) {
      FindIs(after, k, if k == key && f < 0 then |slots| else g);
    }
  }

  lemma UpdatedWellFormed(table: Table, key: nat, w: Word)
    requires WellFormed(table)
    ensures WellFormed(Updated(table, key, w))
  {
    hide Hash;
    var after := Updated(table, key, w);
    assert BucketWellFormed(table[Hash(key)], Hash(key));
    assert BucketWellFormed(after[Hash(key)], Hash(key));
  }

  /** Putting an aligned value into its word is storing it in the view. */
  lemma OverlayStore(table: Table, m: Ram, addr: nat, v: seq<Byte>)
    requires |table| == COW_MAX && Whole(m) && AccessSize(|v|) && Aligned(addr, |v|) && addr + |v| <= |m|
    ensures addr / 8 * 8 + 8 <= |m|
    ensures Overlay(Updated(table, addr / 8, Put(WordAt(table, m, addr / 8), addr, v)), m) ==
            Store(Overlay(table, m), Write(addr, v))
  {
    hide Lookup, Updated, Offset, WordAt;
    WordFits(m, addr);
    var w := WordAt(table, m, addr / 8);
    var after := Updated(table, addr / 8, Put(w, addr, v));
    forall b | 0 <= b < |m|
      ensures Overlay(after, m)[b] == Store(Overlay(table, m), Write(addr, v))[b]
    {
      UpdatedLookup(table, addr / 8, Put(w, addr, v), b / 8);
      WithinWord(addr, |v|, b);
      if b / 8 == addr / 8 {
        OverlayWord(table, m, b);
      }
    }
  }

  // ------------------------------------------------------ applying a bucket

  function WordWrite(slot: Slot): (w: Write)
    ensures w.addr == slot.wkey * 8 && |w.value| == 8
  {
    Write(slot.wkey * 8, slot.wvalue)
  }

  /** All buffered words lie in memory. */
  predicate InMemory(table: Table, m: Ram) {
    forall b, i :: 0 <= b < |table| && 0 <= i < |table[b]| ==> table[b][i].wkey * 8 + 8 <= |m|
  }

  /** Slot j of bucket i comes before this point of a walk through the table. */
  predicate Passed(table: Table, key: nat, i: int, j: int)
    requires |table| == COW_MAX
  {
    var f := Find(table[Hash(key)], key);
    f >= 0 && (Hash(key) < i || (Hash(key) == i && f < j))
  }

  /** Memory with the words before this point exchanged for those of the table. */
  ghost predicate AppliedUpto(table: Table, m: Ram, r: Ram, i: int, j: int)
    requires |table| == COW_MAX
  {
    |r| == |m| &&
    forall b :: 0 <= b < |m| ==> r[b] == if Passed(table, b / 8, i, j) then Overlay(table, m)[b] else m[b]
  }

  lemma AppliedStart(table: Table, m: Ram)
    requires |table| == COW_MAX
    ensures AppliedUpto(table, m, m, 0, 0)
  {
  }

  lemma AppliedBucket(table: Table, m: Ram, r: Ram, i: nat)
    requires |table| == COW_MAX && i < COW_MAX && AppliedUpto(table, m, r, i, |table[i]|)
    ensures AppliedUpto(table, m, r, i + 1, 0)
  {
    hide Overlay, Hash;
    forall b | 0 <= b < |m|
      ensures Passed(table, b / 8, i, |table[i]|) == Passed(table, b / 8, i + 1, 0)
    {
    }
  }

  lemma AppliedAll(table: Table, m: Ram, r: Ram)
    requires |table| == COW_MAX && AppliedUpto(table, m, r, COW_MAX, 0)
    ensures r == Overlay(table, m)
  {
    hide Hash, Find;
    forall b | 0 <= b < |m|
      ensures r[b] == Overlay(table, m)[b]
    {
      assert Passed(table, b / 8, COW_MAX, 0) <==> Lookup(table, b / 8).Some?;
    }
  }

  /** A slot is found under its own key. */
  lemma FoundWhereItIs(table: Table, i: nat, j: nat)
    requires WellFormed(table) && i < COW_MAX && j < |table[i]|
    ensures Hash(table[i][j].wkey) == i && Find(table[i], table[i][j].wkey) == j
  {
    assert BucketWellFormed(table[i], i);
    hide Hash;
    FindIs(table[i], table[i][j].wkey, j);
  }

  lemma AppliedStep(table: Table, m: Ram, r: Ram, i: nat, j: nat)
    requires WellFormed(table) && InMemory(table, m) && i < COW_MAX && j < |table[i]| && AppliedUpto(table, m, r, i, j)
    ensures table[i][j].wkey * 8 + 8 <= |m| == |r|
    ensures AppliedUpto(table, m, Store(r, WordWrite(table[i][j])), i, j + 1)
  {
    var slot := table[i][j];
    FoundWhereItIs(table, i, j);
    hide Hash, Overlay, Lookup;
    assert Lookup(table, slot.wkey) == Some(slot.wvalue) by { LookupIs(table, i, j); }
    var r' := Store(r, WordWrite(slot));
    forall b | 0 <= b < |m|
      ensures r'[b] == if Passed(table, b / 8, i, j + 1) then Overlay(table, m)[b] else m[b]
    {
      SameWord(slot.wkey, b);
      if b / 8 != slot.wkey {
        assert Passed(table, b / 8, i, j + 1) == Passed(table, b / 8, i, j) by { OtherSlot(table, i, j, b / 8); }
      }
    }
  }

  /** The word of a slot that is still to come is as it was. */
  lemma NotYetApplied(table: Table, m: Ram, r: Ram, i: nat, j: nat)
    requires WellFormed(table) && InMemory(table, m) && i < COW_MAX && j < |table[i]| && AppliedUpto(table, m, r, i, j)
    ensures Load(r, table[i][j].wkey * 8, 8) == Load(m, table[i][j].wkey * 8, 8)
  {
    var key := table[i][j].wkey;
    FoundWhereItIs(table, i, j);
    hide Hash, Overlay, Lookup;
    forall b | key * 8 <= b < key * 8 + 8
      ensures r[b] == m[b]
    {
      SameWord(key, b);
    }
  }

  lemma LookupIs(table: Table, i: nat, j: nat)
    requires WellFormed(table) && i < COW_MAX && j < |table[i]|
    ensures Lookup(table, table[i][j].wkey) == Some(table[i][j].wvalue)
  {
    FoundWhereItIs(table, i, j);
  }

  lemma OtherSlot(table: Table, i: nat, j: nat, key: nat)
    requires |table| == COW_MAX && i < COW_MAX && j < |table[i]| && table[i][j].wkey != key
    ensures Passed(table, key, i, j + 1) == Passed(table, key, i, j)
  {
  }

  lemma SameWord(key: nat, b: nat)
    ensures key * 8 <= b < key * 8 + 8 <==> b / 8 == key
    ensures b / 8 == key ==> b - key * 8 == b % 8
  {
  }

  // ---------------------------------------------------------------- the buffer

  const EMPTY_TABLE: Table := seq(COW_MAX, _ => [])

  class Cow {
    var table: Table

    ghost predicate Valid()
      reads this
    {
      WellFormed(table)
    }

    constructor ()
      ensures Valid() && table == EMPTY_TABLE
    {
      table := EMPTY_TABLE;
    }

    method FindSlot(key: nat) returns (f: int)
      requires Valid()
      ensures f == Find(table[Hash(key)], key)
    {
      hide Find;
      var slots := table[Hash(key)];
      for i := 0 to |slots|
        invariant forall j :: 0 <= j < i ==> slots[j].wkey != key
      {
        if slots[i].wkey == key {
          FindIs(slots, key, i);
          return i;
        }
      }
      FindIs(slots, key, -1);
      return -1;
    }

    // --------------------------------------------------- write-back build

    /** Reads through the buffer.  An unaligned access to a buffered word stops the process; to
        any other word it is a plain read. */
    method Read(mem: array<Byte>, addr: nat, size: nat) returns (r: Option<seq<Byte>>)
      requires Valid() && Whole(mem[..]) && AccessSize(size) && addr + size <= mem.Length
      ensures Aligned(addr, size) ==> r == Some(Load(Overlay(table, mem[..]), addr, size))
      ensures !Aligned(addr, size) ==>
        r == if Lookup(table, addr / 8).None? then Some(Load(mem[..], addr, size)) else None
    {
      hide Find, Overlay, PickIndex, Hash;
      if Aligned(addr, size) {
        OverlayPick(table, mem[..], addr, size);
        PlainPick(mem[..], addr, size);
      }
      var f := FindSlot(addr / 8);
      if f < 0 {
        return Some(mem[addr..addr + size]);
      }
      if !Aligned(addr, size) {
        return None;
      }
      return Some(Pick(table[Hash(addr / 8)][f].wvalue, addr, size));
    }

    /** Writes to the buffer; a word's first write fetches it from memory. */
    method Write(mem: array<Byte>, addr: nat, v: seq<Byte>) returns (ok: bool)
      requires Valid() && InMemory(table, mem[..]) && Whole(mem[..]) && AccessSize(|v|) && addr + |v| <= mem.Length
      modifies this
      ensures Valid() && InMemory(table, mem[..])
      ensures ok <==> Aligned(addr, |v|)
      ensures ok ==> Overlay(table, mem[..]) == Store(old(Overlay(table, mem[..])), Memory.Write(addr, v))
      ensures !ok ==> table == old(table)
    {
      hide Find, Overlay, PickIndex, Store, Hash, BucketWellFormed, Offset;
      ok := Aligned(addr, |v|);
      if !ok {
        return;
      }
      var key := addr / 8;
      OverlayStore(table, mem[..], addr, v);
      UpdatedWellFormed(table, key, Put(WordAt(table, mem[..], key), addr, v));
      UpdatedInMemory(table, mem[..], key, Put(WordAt(table, mem[..], key), addr, v));
      var h := Hash(key);
      var f := FindSlot(key);
      if f < 0 {
        var w: Word := mem[key * 8..key * 8 + 8];
        table := table[h := table[h] + [Slot(key, Put(w, addr, v))]];
      } else {
        table := table[h := table[h][f := Slot(key, Put(table[h][f].wvalue, addr, v))]];
      }
    }

    /** Any sequence of aligned writes: the view is what plain memory would be. */
    method WriteAll(mem: array<Byte>, ws: seq<Memory.Write>) returns (ok: bool)
      requires Valid() && InMemory(table, mem[..]) && Whole(mem[..]) && AllFit(mem[..], ws)
      requires forall i :: 0 <= i < |ws| ==> AccessSize(|ws[i].value|)
      modifies this
      ensures Valid() && InMemory(table, mem[..])
      ensures ok <==> forall i :: 0 <= i < |ws| ==> WordAccess(ws[i])
      ensures ok ==> Overlay(table, mem[..]) == Memory.Apply(old(Overlay(table, mem[..])), ws)
    {
      hide Overlay, BucketWellFormed, Store;
      ghost var start := Overlay(table, mem[..]);
      for n := 0 to |ws|
        invariant Valid() && InMemory(table, mem[..])
        invariant forall i :: 0 <= i < n ==> WordAccess(ws[i])
        invariant Overlay(table, mem[..]) == Memory.Apply(start, ws[..n])
      {
        assert ws[..n + 1] == ws[..n] + [ws[n]];
        ApplySnoc(start, ws[..n], ws[n]);
        ok := Write(mem, ws[n].addr, ws[n].value);
        if !ok {
          return;
        }
      }
      assert ws[..|ws|] == ws;
      ok := true;
    }

    /** Writes one bucket to memory and empties it. */
    method ApplyBucket(mem: array<Byte>, i: nat, ghost was: Table, ghost m: Ram)
      requires i < COW_MAX && |table| == COW_MAX && WellFormed(was) && table[i] == was[i]
      requires InMemory(was, m) && AppliedUpto(was, m, mem[..], i, 0)
      modifies this, mem
      ensures table == old(table)[i := []] && AppliedUpto(was, m, mem[..], i + 1, 0)
    {
      hide Find, Overlay, AppliedUpto, BucketWellFormed, InMemory, Store;
      var slots := table[i];
      for j := 0 to |slots|
        invariant table == old(table) && AppliedUpto(was, m, mem[..], i, j)
      {
        AppliedStep(was, m, mem[..], i, j);
        StoreBytes(mem, WordWrite(slots[j]));
      }
      AppliedBucket(was, m, mem[..], i);
      table := table[i := []];
    }

    /** Applying the buffer makes memory what the view was, and empties it. */
    method Apply(mem: array<Byte>)
      requires Valid() && InMemory(table, mem[..])
      modifies this, mem
      ensures Valid() && table == EMPTY_TABLE
      ensures mem[..] == old(Overlay(table, mem[..]))
    {
      hide Find, Overlay, AppliedUpto, InMemory;
      ghost var was, m := table, mem[..];
      AppliedStart(was, m);
      for i := 0 to COW_MAX
        invariant |table| == COW_MAX && AppliedUpto(was, m, mem[..], i, 0)
        invariant forall b :: 0 <= b < i ==> table[b] == []
        invariant forall b :: i <= b < COW_MAX ==> table[b] == was[b]
      {
        ApplyBucket(mem, i, was, m);
      }
      AppliedAll(was, m, mem[..]);
    }

    /** Commits two buffers that agree entry for entry, in the same order; stops the process at
        the first difference. */
    method ApplyCmp(other: Cow, mem: array<Byte>) returns (ok: bool)
      requires Valid() && other.Valid() && other != this && InMemory(table, mem[..])
      modifies this, other, mem
      ensures ok <==> old(table) == old(other.table)
      ensures ok ==> mem[..] == old(Overlay(table, mem[..])) && table == EMPTY_TABLE && other.table == EMPTY_TABLE
    {
      hide Find, Overlay, AppliedUpto, InMemory, BucketWellFormed;
      ghost var was, m := table, mem[..];
      AppliedStart(was, m);
      for i := 0 to COW_MAX
        invariant |table| == |other.table| == COW_MAX && AppliedUpto(was, m, mem[..], i, 0)
        invariant forall b :: 0 <= b < i ==> table[b] == other.table[b] == [] && was[b] == old(other.table)[b]
        invariant forall b :: i <= b < COW_MAX ==> table[b] == was[b] && other.table[b] == old(other.table)[b]
      {
        if table[i] != other.table[i] {
          return false;
        }
        ApplyBucket(mem, i, was, m);
        other.table := other.table[i := []];
      }
      AppliedAll(was, m, mem[..]);
      assert was == old(other.table);
      ok := true;
    }

    // ------------------------------------------------- write-through build

    /** Saves the word before its first write, then writes through: the old memory can still be
        seen by putting the saved words back. */
    method WriteThrough(mem: array<Byte>, addr: nat, v: seq<Byte>) returns (ok: bool)
      requires Valid() && InMemory(table, mem[..]) && Whole(mem[..]) && AccessSize(|v|) && addr + |v| <= mem.Length
      modifies this, mem
      ensures Valid() && InMemory(table, mem[..])
      ensures ok <==> Aligned(addr, |v|)
      ensures ok ==> mem[..] == Store(old(mem[..]), Memory.Write(addr, v))
      ensures ok ==> Overlay(table, mem[..]) == old(Overlay(table, mem[..]))
      ensures ok ==> KeyTable(table) == Keyed(old(KeyTable(table)), addr / 8)
      ensures !ok ==> table == old(table) && mem[..] == old(mem[..])
    {
      hide Find, Overlay, PickIndex, Store, Hash, BucketWellFormed, Offset, InMemory, KeyTable, Keyed;
      ok := Aligned(addr, |v|);
      if !ok {
        return;
      }
      var key := addr / 8;
      WordFits(mem[..], addr);
      var h := Hash(key);
      var f := FindSlot(key);
      if f < 0 {
        var w: Word := mem[key * 8..key * 8 + 8];
        UpdatedWellFormed(table, key, w);
        UpdatedInMemory(table, mem[..], key, w);
        SavedWord(table, mem[..], key, w);
        KeysAppended(table, key, w);
        table := table[h := table[h] + [Slot(key, w)]];
      } else {
        KeysPresent(table, key);
      }
      OverlayKept(table, mem[..], addr, v);
      StoreBytes(mem, Memory.Write(addr, v));
      SameInMemory(table, old(mem[..]), mem[..]);
    }

    /** Any sequence of aligned writes from an empty buffer: memory is as written, a swap would
        give back the memory before, and the words are saved in the order of their first write. */
    method WriteThroughAll(mem: array<Byte>, ws: seq<Memory.Write>) returns (ok: bool)
      requires table == EMPTY_TABLE && Whole(mem[..]) && AllFit(mem[..], ws)
      requires forall i :: 0 <= i < |ws| ==> AccessSize(|ws[i].value|)
      modifies this, mem
      ensures Valid() && InMemory(table, mem[..])
      ensures ok <==> forall i :: 0 <= i < |ws| ==> WordAccess(ws[i])
      ensures ok ==> mem[..] == Memory.Apply(old(mem[..]), ws) && Overlay(table, mem[..]) == old(mem[..])
      ensures ok ==> KeyTable(table) == KeysOf(ws)
    {
      hide Overlay, Store, KeyTable, Keyed;
      ghost var start := mem[..];
      EmptyOverlay(start);
      NoKeys();
      for n := 0 to |ws|
        invariant Valid() && InMemory(table, mem[..])
        invariant forall i :: 0 <= i < n ==> WordAccess(ws[i])
        invariant mem[..] == Memory.Apply(start, ws[..n]) && Overlay(table, mem[..]) == start
        invariant KeyTable(table) == KeysOf(ws[..n])
      {
        assert ws[..n + 1] == ws[..n] + [ws[n]];
        ApplySnoc(start, ws[..n], ws[n]);
        assert ws[..n + 1][..n] == ws[..n];
        ok := WriteThrough(mem, ws[n].addr, ws[n].value);
        if !ok {
          return;
        }
      }
      assert ws[..|ws|] == ws;
      ok := true;
    }

    /** Exchanges one bucket with memory. */
    method SwapBucket(mem: array<Byte>, i: nat, ghost was: Table, ghost m: Ram)
      requires i < COW_MAX && |table| == COW_MAX && WellFormed(was) && table[i] == was[i]
      requires InMemory(was, m) && AppliedUpto(was, m, mem[..], i, 0)
      modifies this, mem
      ensures AppliedUpto(was, m, mem[..], i + 1, 0)
      ensures |table| == COW_MAX && forall b :: 0 <= b < COW_MAX && b != i ==> table[b] == old(table)[b]
      ensures Exchanged(table[i], was[i], m)
    {
      hide Find, Overlay, AppliedUpto, BucketWellFormed, InMemory, Store, Load;
      for j := 0 to |table[i]|
        invariant |table| == COW_MAX && |table[i]| == |was[i]| && AppliedUpto(was, m, mem[..], i, j)
        invariant forall b :: 0 <= b < COW_MAX && b != i ==> table[b] == old(table)[b]
        invariant forall k :: j <= k < |was[i]| ==> table[i][k] == was[i][k]
        invariant forall k :: 0 <= k < j ==> ExchangedSlot(table[i][k], was[i][k], m)
      {
        AppliedStep(was, m, mem[..], i, j);
        NotYetApplied(was, m, mem[..], i, j);
        var slot := table[i][j];
        var val: Word := mem[slot.wkey * 8..slot.wkey * 8 + 8];
        assert val == Load(mem[..], slot.wkey * 8, 8) by { LoadWord(mem, slot.wkey * 8); }
        StoreBytes(mem, WordWrite(slot));
        table := table[i := table[i][j := Slot(slot.wkey, val)]];
      }
      AppliedBucket(was, m, mem[..], i);
    }

    /** Exchanges buffer and memory: memory becomes what the view was, and the view what
        memory was. */
    method Swap(mem: array<Byte>)
      requires Valid() && InMemory(table, mem[..])
      modifies this, mem
      ensures Valid() && InMemory(table, mem[..])
      ensures mem[..] == old(Overlay(table, mem[..])) && Overlay(table, mem[..]) == old(mem[..])
      ensures KeyTable(table) == old(KeyTable(table))
    {
      hide Find, Overlay, AppliedUpto, InMemory, BucketWellFormed, Exchanged;
      ghost var was, m := table, mem[..];
      AppliedStart(was, m);
      for i := 0 to COW_MAX
        invariant |table| == COW_MAX && AppliedUpto(was, m, mem[..], i, 0)
        invariant forall b :: 0 <= b < i ==> Exchanged(table[b], was[b], m)
        invariant forall b :: i <= b < COW_MAX ==> table[b] == was[b]
      {
        SwapBucket(mem, i, was, m);
      }
      AppliedAll(was, m, mem[..]);
      ExchangedOverlay(table, was, m);
      SameInMemory(table, m, mem[..]);
      ExchangedKeys(table, was, m);
    }

    /** Compares one bucket with another's keys and with memory. */
    method CmpBucket(others: seq<Slot>, mem: array<Byte>, i: nat) returns (ok: bool)
      requires Valid() && i < COW_MAX && InMemory(table, mem[..])
      ensures ok <==> Keys(table[i]) == Keys(others) && AllInMemory(table[i], mem[..])
    {
      hide Hash, BucketWellFormed, Load;
      var slots := table[i];
      if |slots| != |others| {
        return false;
      }
      for j := 0 to |slots|
        invariant forall k :: 0 <= k < j ==> slots[k].wkey == others[k].wkey && SlotInMemory(slots[k], mem[..])
      {
        var a := slots[j].wkey * 8;
        LoadWord(mem, a);
        if slots[j].wkey != others[j].wkey || slots[j].wvalue != mem[a..a + 8] {
          return false;
        }
      }
      ok := true;
    }

    /** The comparison of the write-through build: the other buffer has the same words, in the
        same order, and memory holds what this one has for them. */
    method CmpMemory(other: Cow, mem: array<Byte>) returns (ok: bool)
      requires Valid() && other.Valid() && other != this && InMemory(table, mem[..])
      modifies this, other
      ensures ok <==> old(KeyTable(table)) == old(KeyTable(other.table)) && old(Overlay(table, mem[..])) == mem[..]
      ensures ok ==> table == EMPTY_TABLE && other.table == EMPTY_TABLE
    {
      hide Overlay, InMemory, BucketWellFormed, AllInMemory, Keys;
      ghost var was, theirs := table, other.table;
      InMemoryExactly(was, mem[..]);
      for i := 0 to COW_MAX
        invariant Valid() && other.Valid() && InMemory(table, mem[..])
        invariant forall b :: 0 <= b < i ==>
          table[b] == other.table[b] == [] && Keys(was[b]) == Keys(theirs[b]) && AllInMemory(was[b], mem[..])
        invariant forall b :: i <= b < COW_MAX ==> table[b] == was[b] && other.table[b] == theirs[b]
      {
        ok := CmpBucket(other.table[i], mem, i);
        if !ok {
          KeysDiffer(was, theirs, i);
          return;
        }
        Emptying(table, i, mem[..]);
        Emptying(other.table, i, mem[..]);
        table, other.table := table[i := []], other.table[i := []];
      }
      SameKeyTables(was, theirs);
      ok := true;
    }
  }

  // ------------------------------------------------------- keys of a buffer

  function Keys(slots: seq<Slot>): (keys: seq<nat>)
    ensures |keys| == |slots| && forall j :: 0 <= j < |slots| ==> keys[j] == slots[j].wkey
  {
    seq(|slots|, j requires 0 <= j < |slots| => slots[j].wkey)
  }

  function KeyTable(table: Table): (keys: seq<seq<nat>>)
    ensures |keys| == |table| && forall b :: 0 <= b < |table| ==> keys[b] == Keys(table[b])
  {
    seq(|table|, b requires 0 <= b < |table| => Keys(table[b]))
  }

  /** The keys with one more, if it is not there yet. */
  function Keyed(keys: seq<seq<nat>>, key: nat): (r: seq<seq<nat>>)
    ensures |r| == |keys|
  {
    var h := Hash(key);
    if h < |keys| && key !in keys[h] then keys[h := keys[h] + [key]] else keys
  }

  /** The words a sequence of aligned writes touches, in the order of their first write. */
  function KeysOf(ws: seq<Write>): (keys: seq<seq<nat>>) {
    if ws == [] then seq(COW_MAX, _ => []) else Keyed(KeysOf(ws[..|ws| - 1]), ws[|ws| - 1].addr / 8)
  }

  /** The words written, each once, in the order of their first write. */
  function Touched(ws: seq<Write>): (keys: seq<nat>) {
    if ws == [] then []
    else
      var past, key := Touched(ws[..|ws| - 1]), ws[|ws| - 1].addr / 8;
      if key in past then past else past + [key]
  }

  /** The keys that leave remainder r, in order. */
  function Remaindered(keys: seq<nat>, r: nat): (some: seq<nat>) {
    if keys == [] then []
    else
      Remaindered(keys[..|keys| - 1], r) + (if keys[|keys| - 1] % 128 == r then [keys[|keys| - 1]] else [])
  }

  lemma {:induction false} RemainderedMember(keys: seq<nat>, r: nat, key: nat)
    ensures key in Remaindered(keys, r) <==> key in keys && key % 128 == r
  {
    if keys == [] {
    } else {
      RemainderedMember(keys[..|keys| - 1], r, key);
      assert keys == keys[..|keys| - 1] + [keys[|keys| - 1]];
    }
  }

  lemma RemainderedSnoc(keys: seq<nat>, r: nat, key: nat)
    ensures Remaindered(keys + [key], r) == Remaindered(keys, r) + (if key % 128 == r then [key] else [])
  {
    assert (keys + [key])[..|keys|] == keys;
  }

  /** Bucket r holds the words whose number leaves remainder r by 128, in the order of their first
      write. */
  lemma {:induction false} BucketsExactly(ws: seq<Write>, r: nat)
    requires r < 128
    ensures |KeysOf(ws)| == 128 && KeysOf(ws)[r] == Remaindered(Touched(ws), r)
  {
    if ws == [] {
    } else {
      var past, key := ws[..|ws| - 1], ws[|ws| - 1].addr / 8;
      BucketsExactly(past, r);
      BucketsExactly(past, key % 128);
      hide Remaindered;
      RemainderedMember(Touched(past), key % 128, key);
      RemainderedSnoc(Touched(past), r, key);
    }
  }

  lemma NoKeys()
    ensures KeyTable(EMPTY_TABLE) == KeysOf([])
  {
  }

  lemma KeysAppended(table: Table, key: nat, w: Word)
    requires |table| == COW_MAX && Lookup(table, key).None?
    ensures KeyTable(table[Hash(key) := table[Hash(key)] + [Slot(key, w)]]) == Keyed(KeyTable(table), key)
  {
    hide Hash, Find;
    var h := Hash(key);
    assert key !in Keys(table[h]);
    assert Keys(table[h] + [Slot(key, w)]) == Keys(table[h]) + [key];
  }

  lemma KeysPresent(table: Table, key: nat)
    requires |table| == COW_MAX && Lookup(table, key).Some?
    ensures KeyTable(table) == Keyed(KeyTable(table), key)
  {
    hide Hash, Find;
    var h := Hash(key);
    assert Keys(table[h])[Find(table[h], key)] == key;
  }

  lemma ExchangedKeys(table: Table, was: Table, m: Ram)
    requires |table| == |was| == COW_MAX && forall b :: 0 <= b < COW_MAX ==> Exchanged(table[b], was[b], m)
    ensures KeyTable(table) == KeyTable(was)
  {
    hide Load;
    forall b | 0 <= b < COW_MAX
      ensures Keys(table[b]) == Keys(was[b])
    {
      assert Exchanged(table[b], was[b], m);
    }
  }

  lemma KeysDiffer(table: Table, other: Table, b: nat)
    requires b < |table| == |other|
    ensures KeyTable(table) == KeyTable(other) ==> Keys(table[b]) == Keys(other[b])
  {
    assert KeyTable(table)[b] == Keys(table[b]) && KeyTable(other)[b] == Keys(other[b]);
  }

  lemma SameKeyTables(table: Table, other: Table)
    requires |table| == |other| && forall b :: 0 <= b < |table| ==> Keys(table[b]) == Keys(other[b])
    ensures KeyTable(table) == KeyTable(other)
  {
    hide Keys;
  }

  // -------------------------------------------- comparing words with memory

  ghost predicate SlotInMemory(slot: Slot, m: Ram) {
    slot.wkey * 8 + 8 <= |m| && slot.wvalue == Load(m, slot.wkey * 8, 8)
  }

  ghost predicate AllInMemory(slots: seq<Slot>, m: Ram) {
    forall j :: 0 <= j < |slots| ==> SlotInMemory(slots[j], m)
  }

  /** Memory holds all words of the buffer exactly if the view is memory itself. */
  lemma InMemoryExactly(table: Table, m: Ram)
    requires WellFormed(table) && InMemory(table, m)
    ensures Overlay(table, m) == m <==> forall i :: 0 <= i < COW_MAX ==> AllInMemory(table[i], m)
  {
    hide Hash, Find, Overlay, BucketWellFormed, Load, Lookup;
    if forall i :: 0 <= i < COW_MAX ==> AllInMemory(table[i], m) {
      forall b | 0 <= b < |m|
        ensures Overlay(table, m)[b] == m[b]
      {
        ViewedByte(table, m, b);
      }
    }
    if Overlay(table, m) == m {
      forall i, j | 0 <= i < COW_MAX && 0 <= j < |table[i]|
        ensures SlotInMemory(table[i][j], m)
      {
        ViewedSlot(table, m, i, j);
      }
    }
  }

  lemma ViewedByte(table: Table, m: Ram, b: nat)
    requires |table| == COW_MAX && b < |m| && forall i :: 0 <= i < COW_MAX ==> AllInMemory(table[i], m)
    ensures Overlay(table, m)[b] == m[b]
  {
    hide Find, Load;
    var h := Hash(b / 8);
    assert AllInMemory(table[h], m);
    LoadByte(m, b);
  }

  lemma ViewedSlot(table: Table, m: Ram, i: nat, j: nat)
    requires WellFormed(table) && InMemory(table, m) && Overlay(table, m) == m && i < COW_MAX && j < |table[i]|
    ensures SlotInMemory(table[i][j], m)
  {
    hide Overlay, Lookup, BucketWellFormed;
    var slot := table[i][j];
    LookupIs(table, i, j);
    forall c | 0 <= c < 8
      ensures slot.wvalue[c] == Load(m, slot.wkey * 8, 8)[c]
    {
      SameWord(slot.wkey, slot.wkey * 8 + c);
      assert Overlay(table, m)[slot.wkey * 8 + c] == slot.wvalue[c];
    }
  }

  lemma Emptying(table: Table, i: nat, m: Ram)
    requires WellFormed(table) && i < COW_MAX
    ensures WellFormed(table[i := []]) && (InMemory(table, m) ==> InMemory(table[i := []], m))
  {
    hide Hash;
  }

  /** With the words of the first phase in one buffer, those before the second phase in the
      other, and the same keys, the comparison with memory is exact: it accepts if and only if
      both phases computed the same memory. */
  lemma ViewsAgree(first: Table, second: Table, m: Ram, r1: Ram, r2: Ram)
    requires |first| == |second| == COW_MAX && KeyTable(first) == KeyTable(second) && |r1| == |r2| == |m|
    requires Overlay(first, m) == r1 && Overlay(second, r2) == m
    ensures Overlay(first, r2) == r2 <==> r1 == r2
  {
    hide Overlay, Lookup, KeyTable;
    forall b | 0 <= b < |m|
      ensures Overlay(first, r2)[b] == r2[b] <==> r1[b] == r2[b]
    {
      SameLookup(first, second, b / 8);
    }
    if Overlay(first, r2) == r2 {
      assert forall b :: 0 <= b < |m| ==> r1[b] == r2[b];
    }
    if r1 == r2 {
      assert forall b :: 0 <= b < |m| ==> Overlay(first, r2)[b] == r2[b];
    }
  }

  lemma SameLookup(first: Table, second: Table, key: nat)
    requires |first| == |second| == COW_MAX && KeyTable(first) == KeyTable(second)
    ensures Lookup(first, key).Some? <==> Lookup(second, key).Some?
  {
    hide Find, Hash;
    var h := Hash(key);
    assert Keys(first[h]) == KeyTable(first)[h] == Keys(second[h]);
    FindIs(first[h], key, Find(second[h], key));
  }

  /** Two phases of the write-through build, whatever they write: they are accepted exactly if
      all accesses are aligned, both touch the same words in the same order, and both computed
      the same memory. */
  method TwoPhases(cow0: Cow, cow1: Cow, mem: array<Byte>, us: seq<Write>, vs: seq<Write>) returns (ok: bool)
    requires cow0 != cow1 && cow0.table == EMPTY_TABLE && cow1.table == EMPTY_TABLE
    requires Whole(mem[..]) && AllFit(mem[..], us) && AllFit(mem[..], vs)
    requires forall i :: 0 <= i < |us| ==> AccessSize(|us[i].value|)
    requires forall i :: 0 <= i < |vs| ==> AccessSize(|vs[i].value|)
    modifies cow0, cow1, mem
    ensures ok <==>
      (forall i :: 0 <= i < |us| ==> WordAccess(us[i])) && (forall i :: 0 <= i < |vs| ==> WordAccess(vs[i])) &&
      KeysOf(us) == KeysOf(vs) && Apply(old(mem[..]), us) == Apply(old(mem[..]), vs)
    ensures ok ==> mem[..] == Apply(old(mem[..]), us) && cow0.table == EMPTY_TABLE && cow1.table == EMPTY_TABLE
  {
    hide Overlay, Apply, KeysOf, KeyTable, BucketWellFormed, WordAccess;
    ghost var m := mem[..];
    ok := cow0.WriteThroughAll(mem, us);
    if !ok {
      return;
    }
    cow0.Swap(mem);
    ok := cow1.WriteThroughAll(mem, vs);
    if !ok {
      return;
    }
    SameInMemory(cow0.table, m, mem[..]);
    if KeysOf(us) == KeysOf(vs) {
      ViewsAgree(cow0.table, cow1.table, m, Apply(m, us), mem[..]);
    }
    ok := cow0.CmpMemory(cow1, mem);
  }

  /** The same keys, with the words memory had. */
  ghost predicate Exchanged(slots: seq<Slot>, was: seq<Slot>, m: Ram) {
    |slots| == |was| && forall j :: 0 <= j < |slots| ==> ExchangedSlot(slots[j], was[j], m)
  }

  ghost predicate ExchangedSlot(slot: Slot, was: Slot, m: Ram) {
    slot.wkey == was.wkey && was.wkey * 8 + 8 <= |m| && slot.wvalue == Load(m, was.wkey * 8, 8)
  }

  lemma LoadWord(mem: array<Byte>, a: nat)
    requires a + 8 <= mem.Length
    ensures mem[a..a + 8] == Load(mem[..], a, 8)
  {
  }

  lemma SameInMemory(table: Table, m: Ram, n: Ram)
    requires InMemory(table, m) && |m| == |n|
    ensures InMemory(table, n)
  {
  }

  /** A word saved as it is changes nothing in the view. */
  lemma SavedWord(table: Table, m: Ram, key: nat, w: Word)
    requires |table| == COW_MAX && key * 8 + 8 <= |m| && Lookup(table, key).None? && w == Load(m, key * 8, 8)
    ensures Overlay(Updated(table, key, w), m) == Overlay(table, m)
    ensures Lookup(Updated(table, key, w), key).Some?
  {
    hide Lookup, Updated;
    UpdatedLookup(table, key, w, key);
    forall b | 0 <= b < |m|
      ensures Overlay(Updated(table, key, w), m)[b] == Overlay(table, m)[b]
    {
      UpdatedLookup(table, key, w, b / 8);
      SameWord(key, b);
    }
  }

  /** Writing to memory under a saved word changes nothing in the view. */
  lemma OverlayKept(table: Table, m: Ram, addr: nat, v: seq<Byte>)
    requires |table| == COW_MAX && AccessSize(|v|) && Aligned(addr, |v|) && addr + |v| <= |m|
    requires Lookup(table, addr / 8).Some?
    ensures Overlay(table, Store(m, Write(addr, v))) == Overlay(table, m)
  {
    hide Lookup, Offset;
    var m' := Store(m, Write(addr, v));
    forall b | 0 <= b < |m|
      ensures Overlay(table, m')[b] == Overlay(table, m)[b]
    {
      WithinWord(addr, |v|, b);
    }
  }

  // --------------------------------------------------- three or more phases

  predicate WordAccesses(ws: seq<Write>) {
    forall i :: 0 <= i < |ws| ==> WordAccess(ws[i])
  }

  /** A buffer after its phase wrote ws over memory of this size. */
  ghost predicate Filled(table: Table, m: Ram, ws: seq<Write>) {
    WellFormed(table) && InMemory(table, m) && KeyTable(table) == KeysOf(ws)
  }

  /** With the words of the table in place, memory m is r. */
  ghost predicate Shows(table: Table, m: Ram, r: Ram) {
    |table| == COW_MAX && Overlay(table, m) == r
  }

  /** Writing anything touches some word. */
  lemma {:induction false} TouchesNothing(ws: seq<Write>)
    ensures |KeysOf(ws)| == COW_MAX && (KeysOf(ws) == KeysOf([]) <==> ws == [])
  {
    if ws == [] {
    } else {
      var past, key := ws[..|ws| - 1], ws[|ws| - 1].addr / 8;
      TouchesNothing(past);
      var h := Hash(key);
      assert key in KeysOf(ws)[h];
      assert KeysOf([])[h] == [];
    }
  }

  /** The phases: each writes through, and its buffer is swapped before the next one. */
  method RunWriteThrough(cows: seq<Cow>, mem: array<Byte>, works: seq<seq<Write>>) returns (ok: bool)
    requires |cows| == |works| >= 3 && (forall i, j :: 0 <= i < j < |cows| ==> cows[i] != cows[j])
    requires forall i :: 0 <= i < |cows| ==> cows[i].table == EMPTY_TABLE
    requires Whole(mem[..]) && forall i :: 0 <= i < |works| ==> AllFit(mem[..], works[i])
    requires forall i, j :: 0 <= i < |works| && 0 <= j < |works[i]| ==> AccessSize(|works[i][j].value|)
    modifies cows, mem
    ensures ok <==> forall i :: 0 <= i < |works| ==> WordAccesses(works[i])
    ensures ok ==> mem[..] == Apply(old(mem[..]), works[|works| - 1])
    ensures ok ==> Shows(cows[0].table, old(mem[..]), Apply(old(mem[..]), works[0]))
    ensures ok ==> forall i :: 0 <= i < |cows| ==> Filled(cows[i].table, old(mem[..]), works[i])
  {
    hide Overlay, Apply, KeysOf, KeyTable, BucketWellFormed, InMemory, WordAccess, EMPTY_TABLE;
    ghost var m := mem[..];
    for i := 0 to |cows|
      invariant |mem[..]| == |m| && forall k :: 0 <= k < i ==> WordAccesses(works[k])
      invariant forall k :: 0 <= k < i ==> Filled(cows[k].table, m, works[k])
      invariant forall k :: i <= k < |cows| ==> cows[k].table == EMPTY_TABLE
      invariant i == 0 ==> mem[..] == m
      invariant i > 0 ==> mem[..] == Apply(m, works[i - 1]) && Shows(cows[i - 1].table, mem[..], m)
      invariant i > 1 ==> Shows(cows[0].table, m, Apply(m, works[0]))
    {
      if i > 0 {
        SameInMemory(cows[i - 1].table, m, mem[..]);
        cows[i - 1].Swap(mem);
        SameInMemory(cows[i - 1].table, mem[..], m);
      }
      ok := cows[i].WriteThroughAll(mem, works[i]);
      if !ok {
        return;
      }
      SameInMemory(cows[i].table, mem[..], m);
    }
    ok := true;
  }

  /** Three or more phases of the write-through build.  The first comparison empties the first
      buffer, which is then compared with the others: they pass exactly if all accesses are
      aligned, the first two phases touch the same words in the same order, the others write
      nothing, and the first one leaves memory as it was. */
  method ManyPhases(cows: seq<Cow>, mem: array<Byte>, works: seq<seq<Write>>) returns (ok: bool)
    requires |cows| == |works| >= 3 && (forall i, j :: 0 <= i < j < |cows| ==> cows[i] != cows[j])
    requires forall i :: 0 <= i < |cows| ==> cows[i].table == EMPTY_TABLE
    requires Whole(mem[..]) && forall i :: 0 <= i < |works| ==> AllFit(mem[..], works[i])
    requires forall i, j :: 0 <= i < |works| && 0 <= j < |works[i]| ==> AccessSize(|works[i][j].value|)
    modifies cows, mem
    ensures ok <==>
      (forall i :: 0 <= i < |works| ==> WordAccesses(works[i])) && KeysOf(works[0]) == KeysOf(works[1]) &&
      (forall i :: 2 <= i < |works| ==> works[i] == []) && Apply(old(mem[..]), works[0]) == old(mem[..])
  {
    hide Overlay, Apply, KeysOf, KeyTable, InMemory, WordAccesses, BucketWellFormed, EMPTY_TABLE;
    ghost var m := mem[..];
    ok := RunWriteThrough(cows, mem, works);
    if !ok {
      return;
    }
    ghost var final := mem[..];
    assert Filled(cows[0].table, m, works[0]) && Filled(cows[1].table, m, works[1]);
    SameInMemory(cows[0].table, m, final);
    LastMemory(m, works, final, cows[0].table);
    ok := cows[0].CmpMemory(cows[1], mem);
    if !ok {
      return;
    }
    EmptyOverlay(final);
    NothingInMemory(final);
    NoKeys();
    for i := 2 to |cows|
      invariant mem[..] == final && cows[0].table == EMPTY_TABLE && cows[0].Valid()
      invariant forall k :: 2 <= k < i ==> works[k] == []
      invariant forall k :: i <= k < |cows| ==> Filled(cows[k].table, m, works[k])
    {
      TouchesNothing(works[i]);
      ok := cows[0].CmpMemory(cows[i], mem);
      if !ok {
        return;
      }
    }
    ok := true;
  }

  lemma NothingInMemory(m: Ram)
    ensures WellFormed(EMPTY_TABLE) && InMemory(EMPTY_TABLE, m)
  {
  }

  /** If the last phase wrote nothing, memory at the end is memory at the start. */
  lemma LastMemory(m: Ram, works: seq<seq<Write>>, final: Ram, table: Table)
    requires |works| >= 3 && (forall i :: 0 <= i < |works| ==> AllFit(m, works[i]))
    requires final == Apply(m, works[|works| - 1]) && Shows(table, m, Apply(m, works[0]))
    ensures (forall i :: 2 <= i < |works| ==> works[i] == []) ==>
            final == m && (Shows(table, final, final) <==> Apply(m, works[0]) == m)
  {
    hide Overlay;
    if forall i :: 2 <= i < |works| ==> works[i] == [] {
      assert works[|works| - 1] == [];
    }
  }

  lemma ExchangedFind(slots: seq<Slot>, was: seq<Slot>, m: Ram, key: nat)
    requires Exchanged(slots, was, m)
    ensures Find(slots, key) == Find(was, key)
  {
    hide Load;
    FindIs(slots, key, Find(was, key));
  }

  lemma ExchangedOverlay(table: Table, was: Table, m: Ram)
    requires |table| == COW_MAX && WellFormed(was) && forall b :: 0 <= b < COW_MAX ==> Exchanged(table[b], was[b], m)
    ensures WellFormed(table) && InMemory(table, m) && Overlay(table, Overlay(was, m)) == m
  {
    hide Find, Hash, Load;
    forall b | 0 <= b < COW_MAX
      ensures BucketWellFormed(table[b], b)
    {
      assert BucketWellFormed(was[b], b) && Exchanged(table[b], was[b], m);
    }
    var r := Overlay(table, Overlay(was, m));
    forall b | 0 <= b < |m|
      ensures r[b] == m[b]
    {
      var h := Hash(b / 8);
      assert Exchanged(table[h], was[h], m);
      ExchangedFind(table[h], was[h], m, b / 8);
      SameWord(b / 8, b);
      LoadByte(m, b);
    }
  }

  lemma LoadByte(m: Ram, b: nat)
    requires b < |m|
    ensures b / 8 * 8 + 8 <= |m| ==> Load(m, b / 8 * 8, 8)[b % 8] == m[b]
  {
  }

  lemma PlainPick(m: Ram, addr: nat, size: nat)
    requires Whole(m) && AccessSize(size) && Aligned(addr, size) && addr + size <= |m|
    ensures addr / 8 * 8 + 8 <= |m|
    ensures Pick(Load(m, addr / 8 * 8, 8), addr, size) == Load(m, addr, size)
  {
    WordFits(m, addr);
    var base, o := addr / 8 * 8, Offset(addr, size);
    assert base + o == addr;
    SliceOfSlice(m, base, o, size);
  }

  lemma SliceOfSlice(m: Ram, base: nat, o: nat, n: nat)
    requires o + n <= 8 && base + 8 <= |m|
    ensures m[base..base + 8][o..o + n] == m[base + o..base + o + n]
  {
    var a, b := m[base..base + 8][o..o + n], m[base + o..base + o + n];
    forall c | 0 <= c < n
      ensures a[c] == b[c]
    {
      assert a[c] == m[base..base + 8][o + c];
    }
    assert |a| == |b|;
  }

  lemma EmptyOverlay(m: Ram)
    ensures Overlay(EMPTY_TABLE, m) == m
  {
  }

  lemma UpdatedInMemory(table: Table, m: Ram, key: nat, w: Word)
    requires |table| == COW_MAX && InMemory(table, m) && key * 8 + 8 <= |m|
    ensures InMemory(Updated(table, key, w), m)
  {
  }
}
