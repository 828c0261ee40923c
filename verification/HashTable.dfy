/** The chained hash table of the key-value store example (examples/ukv/hashtable). */
module HashTableModule {
  import opened Options
  import opened Memory

  type Key = seq<Byte>

  type Value = seq<Byte>

  const PRIMES: seq<nat> := [
    53, 97, 193, 389, 769, 1543, 3079, 6151, 12289, 24593, 49157, 98317, 196613, 393241, 786433, 1572869, 3145739,
    6291469, 12582917, 25165843, 50331653, 100663319, 201326611, 402653189, 805306457, 1610612741]

  // ----------------------------------------------------------------- hashing

  /** The characters of a key are signed. */
  function Signed(b: Byte): int {
    if b < 128 then b else b - 256
  }

  const TWO64 := 0x1_0000_0000_0000_0000
  const TWO32 := 0x1_0000_0000

  /** 33 * hash + c for every character, in 64 bits. */
  function Djb2(key: Key): (h: nat)
    ensures h < TWO64
  {
    if key == [] then 5381
    else (Djb2(key[..|key| - 1]) * 33 + Signed(key[|key| - 1])) % TWO64
  }

  method HashFn(key: Key) returns (h: nat)
    ensures h == Djb2(key) % TWO32
  {
    h := 5381;
    for i := 0 to |key|
      invariant h == Djb2(key[..i])
    {
      assert key[..i + 1][..i] == key[..i];
      h := (h * 33 + Signed(key[i])) % TWO64;
    }
    assert key[..|key|] == key;
    h := h % TWO32;
  }

  /** The scrambling of the raw hash. */
  function Mix(raw: bv32): bv32 {
    var a := raw + !(raw << 9);
    var b := a ^ ((a >> 14) | (a << 18));
    var c := b + (b << 4);
    c ^ ((c >> 10) | (c << 22))
  }

  function HashOf(key: Key): (h: nat) {
    Mix((Djb2(key) % TWO32) as bv32) as nat
  }

  /** Check values, for a character below 128 and for one above, which counts as negative. */
  lemma KnownSums()
    ensures Djb2([97]) == 177670 && Djb2([255]) == 177572
  {
    var a: Key, b: Key := [97], [255];
    assert a[..0] == [] && b[..0] == [];
    assert Djb2([]) == 5381;
  }

  /** And what becomes of them. */
  lemma KnownMixes()
    ensures Mix(177670) == 3914064670 && Mix(177572) == 4196560799
  {
  }

  method Hash(key: Key) returns (h: nat)
    ensures h == HashOf(key)
  {
    hide Mix, Djb2;
    var raw := HashFn(key);
    h := Mix(raw as bv32) as nat;
  }

  // ------------------------------------------------------------------ chains

  datatype Entry = Entry(key: Key, value: Value, h: nat)

  type Table = seq<seq<Entry>>

  function IndexFor(length: nat, h: nat): (i: nat)
    requires length > 0
    ensures i < length
  {
    h % length
  }

  /** Small hashes are their own index, and a table's length more or less makes no difference. */
  lemma IndexWraps(length: nat, h: nat)
    requires length > 0
    ensures h < length ==> IndexFor(length, h) == h
    ensures IndexFor(length, h + length) == IndexFor(length, h)
  {
    var q := h / length;
    assert h + length == (q + 1) * length + h % length;
    RemainderIs(h + length, q + 1, h % length, length);
    if h < length {
      RemainderIs(h, 0, h, length);
    }
  }

  lemma RemainderIs(a: nat, q: nat, r: nat, n: nat)
    requires r < n && a == q * n + r
    ensures a % n == r
  {
    var d := a / n - q;
    assert a == (a / n) * n + a % n;
    assert d * n == r - a % n;
  }

  /** Every entry carries its hash and is in the chain it belongs to. */
  predicate Placed(table: Table) {
    |table| > 0 && forall i, j :: 0 <= i < |table| && 0 <= j < |table[i]| ==> PlacedAt(table[i][j], |table|, i)
  }

  predicate PlacedAt(e: Entry, length: nat, i: nat)
    requires length > 0
  {
    e.h == HashOf(e.key) && IndexFor(length, e.h) == i
  }

  /** Values under a key, front of the chain first. */
  function Under(es: seq<Entry>, key: Key): (vs: seq<Value>)
    ensures |vs| <= |es|
  {
    if es == [] then [] else Match(es[0], key) + Under(es[1..], key)
  }

  function Match(e: Entry, key: Key): (vs: seq<Value>)
    ensures |vs| <= 1
  {
    if e.key == key then [e.value] else []
  }

  lemma UnderFirst(es: seq<Entry>, key: Key)
    requires es != []
    ensures Under(es, key) == Match(es[0], key) + Under(es[1..], key)
  {
  }

  function Bindings(table: Table, key: Key): (vs: seq<Value>)
    requires |table| > 0
  {
    Under(table[IndexFor(|table|, HashOf(key))], key)
  }

  /** All entries, chain by chain, from chain i on. */
  function FlatFrom(table: Table, i: nat): (es: seq<Entry>)
    requires i <= |table|
    decreases |table| - i
  {
    if i == |table| then [] else table[i] + FlatFrom(table, i + 1)
  }

  lemma NothingBefore<T>(x: seq<T>)
    ensures [] + x == x && x + [] == x
  {
  }

  lemma Associative<T>(x: seq<T>, y: seq<T>, z: seq<T>)
    ensures x + (y + z) == (x + y) + z
  {
  }

  lemma {:induction false} UnderConcat(a: seq<Entry>, b: seq<Entry>, key: Key)
    ensures Under(a + b, key) == Under(a, key) + Under(b, key)
  {
    if a == [] {
      assert a + b == b && Under(a, key) == [];
      NothingBefore(Under(b, key));
    } else {
      hide Match, Under;
      UnderConcat(a[1..], b, key);
      UnderFirst(a, key);
      UnderFirst(a + b, key);
      assert (a + b)[1..] == a[1..] + b && (a + b)[0] == a[0];
      Associative(Match(a[0], key), Under(a[1..], key), Under(b, key));
    }
  }

  lemma {:induction false} NoneUnder(es: seq<Entry>, key: Key)
    requires forall j :: 0 <= j < |es| ==> es[j].key != key
    ensures Under(es, key) == []
  {
    if es == [] {
    } else {
      NoneUnder(es[1..], key);
    }
  }

  /** Only the chain of a key has entries for it. */
  lemma {:induction false} UnderFlat(table: Table, i: nat, key: Key)
    requires Placed(table) && i <= |table|
    ensures Under(FlatFrom(table, i), key) == if i <= IndexFor(|table|, HashOf(key)) then Bindings(table, key) else []
    decreases |table| - i
  {
    hide HashOf, IndexFor, Under;
    if i < |table| {
      UnderFlat(table, i + 1, key);
      UnderConcat(table[i], FlatFrom(table, i + 1), key);
      if i != IndexFor(|table|, HashOf(key)) {
        forall j | 0 <= j < |table[i]|
          ensures table[i][j].key != key
        {
          assert PlacedAt(table[i][j], |table|, i);
        }
        NoneUnder(table[i], key);
      }
    } else {
      NoneUnder([], key);
    }
  }

  // --------------------------------------------------------------- rehashing

  function Reversed<T>(s: seq<T>): (r: seq<T>)
    ensures |r| == |s|
    ensures forall i :: 0 <= i < |s| ==> r[i] == s[|s| - 1 - i]
  {
    seq(|s|, i requires 0 <= i < |s| => s[|s| - 1 - i])
  }

  lemma ReversedSnoc<T>(s: seq<T>, last: seq<T>)
    requires |last| <= 1
    ensures Reversed(s + last) == last + Reversed(s)
  {
  }

  /** The table after entry e was put in front of its chain. */
  function Pushed(table: Table, e: Entry): (r: Table)
    requires |table| > 0
    ensures |r| == |table|
  {
    var i := IndexFor(|table|, e.h);
    table[i := [e] + table[i]]
  }

  /** What the new table holds after these entries were moved to it. */
  ghost predicate Moved(table: Table, es: seq<Entry>) {
    Placed(table) && multiset(FlatFrom(table, 0)) == multiset(es) &&
    forall key :: Bindings(table, key) == Reversed(Under(es, key))
  }

  lemma PushedPlaced(table: Table, e: Entry)
    requires Placed(table) && e.h == HashOf(e.key)
    ensures Placed(Pushed(table, e))
  {
    hide HashOf;
    var after := Pushed(table, e);
    forall i, j | 0 <= i < |after| && 0 <= j < |after[i]|
      ensures PlacedAt(after[i][j], |after|, i)
    {
      if i == IndexFor(|table|, e.h) {
        assert j > 0 ==> after[i][j] == table[i][j - 1];
      } else {
        assert after[i] == table[i];
      }
    }
  }

  lemma PushedBindings(table: Table, e: Entry, key: Key)
    requires |table| > 0 && e.h == HashOf(e.key)
    ensures Bindings(Pushed(table, e), key) == Match(e, key) + Bindings(table, key)
  {
    hide HashOf, IndexFor, Under, Match;
    var i := IndexFor(|table|, e.h);
    if IndexFor(|table|, HashOf(key)) == i {
      UnderFirst([e] + table[i], key);
      assert ([e] + table[i])[1..] == table[i];
    } else {
      assert Match(e, key) == [] by { OtherKey(e, key); }
    }
  }

  lemma OtherKey(e: Entry, key: Key)
    requires e.key != key
    ensures Match(e, key) == []
  {
  }

  lemma PushedFlat(table: Table, e: Entry)
    requires |table| > 0
    ensures multiset(FlatFrom(Pushed(table, e), 0)) == multiset(FlatFrom(table, 0)) + multiset{e}
  {
    hide IndexFor, FlatFrom, FlatBefore;
    var i := IndexFor(|table|, e.h);
    FlatExchanged(table, i, [e] + table[i]);
    MultisetOneMore(FlatBefore(table, i), e, table[i], FlatFrom(table, i + 1));
  }

  lemma MultisetOneMore<T>(a: seq<T>, e: T, b: seq<T>, c: seq<T>)
    ensures multiset(a + (([e] + b) + c)) == multiset(a + (b + c)) + multiset{e}
  {
  }

  lemma MovedNothing(n: nat)
    requires n > 0
    ensures Moved(seq(n, _ => []), [])
  {
    var table: Table := seq(n, _ => []);
    EmptyFlat(table, 0);
    forall key
      ensures Bindings(table, key) == Reversed(Under([], key))
    {
    }
  }

  lemma {:induction false} EmptyFlat(table: Table, i: nat)
    requires i <= |table| && forall k :: 0 <= k < |table| ==> table[k] == []
    ensures FlatFrom(table, i) == []
    decreases |table| - i
  {
    if i == |table| {
    } else {
      EmptyFlat(table, i + 1);
    }
  }

  lemma MovedOne(table: Table, es: seq<Entry>, e: Entry)
    requires Moved(table, es) && e.h == HashOf(e.key)
    ensures Moved(Pushed(table, e), es + [e])
  {
    assert |table| > 0;
    hide HashOf, IndexFor, Bindings, Placed, Under, FlatFrom, Pushed, Match, Reversed;
    PushedPlaced(table, e);
    PushedFlat(table, e);
    assert multiset(es + [e]) == multiset(es) + multiset{e};
    forall key
      ensures Bindings(Pushed(table, e), key) == Reversed(Under(es + [e], key))
    {
      PushedBindings(table, e, key);
      UnderConcat(es, [e], key);
      OneUnder(e, key);
      ReversedSnoc(Under(es, key), Match(e, key));
    }
  }

  lemma OneUnder(e: Entry, key: Key)
    ensures Under([e], key) == Match(e, key)
  {
  }

  // ---------------------------------------------------- searching and removing

  /** The first entry for a key gives the first value under it. */
  lemma {:induction false} FoundAt(es: seq<Entry>, key: Key, j: nat)
    requires j < |es| && es[j].key == key && forall k :: 0 <= k < j ==> es[k].key != key
    ensures Under(es, key) == [es[j].value] + Under(es[j + 1..], key)
    ensures Under(es[..j] + es[j + 1..], key) == Under(es[j + 1..], key)
  {
    hide Under, Match;
    assert es == es[..j] + es[j..];
    UnderConcat(es[..j], es[j..], key);
    UnderConcat(es[..j], es[j + 1..], key);
    NoneUnder(es[..j], key);
    UnderFirst(es[j..], key);
    assert es[j..][1..] == es[j + 1..];
    assert Match(es[j], key) == [es[j].value] by { SameKey(es[j], key); }
    NothingBefore(Under(es[j..], key));
    NothingBefore(Under(es[j + 1..], key));
  }

  lemma SameKey(e: Entry, key: Key)
    requires e.key == key
    ensures Match(e, key) == [e.value]
  {
  }

  /** Taking out an entry changes nothing for other keys. */
  lemma OthersStay(es: seq<Entry>, key: Key, j: nat)
    requires j < |es| && es[j].key != key
    ensures Under(es[..j] + es[j + 1..], key) == Under(es, key)
  {
    hide Under, Match;
    assert es == es[..j] + es[j..];
    UnderConcat(es[..j], es[j..], key);
    UnderConcat(es[..j], es[j + 1..], key);
    UnderFirst(es[j..], key);
    assert es[j..][1..] == es[j + 1..];
    OtherKey(es[j], key);
    NothingBefore(Under(es[j + 1..], key));
  }

  lemma {:induction false} FlatAfter(table: Table, i: nat, chain: seq<Entry>, k: nat)
    requires i < k <= |table|
    ensures FlatFrom(table[i := chain], k) == FlatFrom(table, k)
    decreases |table| - k
  {
    if k == |table| {
    } else {
      FlatAfter(table, i, chain, k + 1);
    }
  }

  /** Entries of the chains before chain i. */
  function FlatBefore(table: Table, i: nat): (es: seq<Entry>)
    requires i <= |table|
  {
    if i == 0 then [] else FlatBefore(table, i - 1) + table[i - 1]
  }

  lemma {:induction false} FlatSplit(table: Table, i: nat)
    requires i <= |table|
    ensures FlatFrom(table, 0) == FlatBefore(table, i) + FlatFrom(table, i)
  {
    if i == 0 {
      NothingBefore(FlatFrom(table, 0));
    } else {
      FlatSplit(table, i - 1);
      Associative(FlatBefore(table, i - 1), table[i - 1], FlatFrom(table, i));
    }
  }

  lemma {:induction false} BeforeUnchanged(table: Table, i: nat, chain: seq<Entry>, k: nat)
    requires k <= i < |table|
    ensures FlatBefore(table[i := chain], k) == FlatBefore(table, k)
  {
    if k == 0 {
    } else {
      BeforeUnchanged(table, i, chain, k - 1);
    }
  }

  /** All entries when one chain has been exchanged. */
  lemma FlatExchanged(table: Table, i: nat, chain: seq<Entry>)
    requires i < |table|
    ensures FlatFrom(table, 0) == FlatBefore(table, i) + (table[i] + FlatFrom(table, i + 1))
    ensures FlatFrom(table[i := chain], 0) == FlatBefore(table, i) + (chain + FlatFrom(table, i + 1))
  {
    FlatSplit(table, i);
    FlatSplit(table[i := chain], i);
    BeforeUnchanged(table, i, chain, i);
    FlatAfter(table, i, chain, i + 1);
  }

  lemma RemovedPlaced(table: Table, i: nat, j: nat)
    requires Placed(table) && i < |table| && j < |table[i]|
    ensures Placed(table[i := table[i][..j] + table[i][j + 1..]])
  {
    hide HashOf, IndexFor;
    var chain := table[i][..j] + table[i][j + 1..];
    var after := table[i := chain];
    forall a, b | 0 <= a < |after| && 0 <= b < |after[a]|
      ensures PlacedAt(after[a][b], |after|, a)
    {
      if a == i {
        assert chain[b] == if b < j then table[i][b] else table[i][b + 1];
      } else {
        assert after[a][b] == table[a][b];
      }
    }
  }

  lemma RemovedCount(table: Table, i: nat, j: nat)
    requires i < |table| && j < |table[i]|
    ensures |FlatFrom(table[i := table[i][..j] + table[i][j + 1..]], 0)| + 1 == |FlatFrom(table, 0)|
  {
    hide FlatFrom, FlatBefore;
    FlatExchanged(table, i, table[i][..j] + table[i][j + 1..]);
  }

  lemma RemovedBindings(table: Table, i: nat, j: nat, key: Key)
    requires Placed(table) && i < |table| && j < |table[i]|
    requires forall k :: 0 <= k < j ==> table[i][k].key != table[i][j].key
    ensures var after := table[i := table[i][..j] + table[i][j + 1..]];
            if key == table[i][j].key
            then Bindings(table, key) != [] && Bindings(after, key) == Bindings(table, key)[1..] &&
                 Bindings(table, key)[0] == table[i][j].value
            else Bindings(after, key) == Bindings(table, key)
  {
    assert PlacedAt(table[i][j], |table|, i);
    hide HashOf, IndexFor, Under;
    if key == table[i][j].key {
      FoundAt(table[i], key, j);
    } else {
      OthersStay(table[i], key, j);
    }
  }

  lemma FlatNext(table: Table, i: nat)
    requires i < |table|
    ensures FlatFrom(table, i) == table[i] + FlatFrom(table, i + 1)
  {
  }

  lemma FlatEnd(table: Table)
    ensures FlatFrom(table, |table|) == []
  {
  }

  lemma MovedBindings(table: Table, es: seq<Entry>, key: Key)
    requires Moved(table, es)
    ensures |table| > 0 && Bindings(table, key) == Reversed(Under(es, key))
  {
  }

  lemma MovedPlaced(table: Table, es: seq<Entry>)
    requires Moved(table, es)
    ensures Placed(table) && multiset(FlatFrom(table, 0)) == multiset(es)
  {
  }

  /** Moves one chain, front to back. */
  method MoveChain(chain: seq<Entry>, target: Table, ghost before: seq<Entry>)
    returns (newtable: Table, ghost moved: seq<Entry>)
    requires Moved(target, before) && forall j :: 0 <= j < |chain| ==> chain[j].h == HashOf(chain[j].key)
    ensures moved == before + chain && Moved(newtable, moved) && |newtable| == |target|
  {
    hide Moved, HashOf, Pushed;
    newtable := target;
    moved := before;
    assert |newtable| > 0 by { MovedPlaced(newtable, moved); }
    var rest := chain;
    while rest != []
      invariant |newtable| == |target| > 0 && Moved(newtable, moved) && moved + rest == before + chain
      invariant forall j :: 0 <= j < |rest| ==> rest[j].h == HashOf(rest[j].key)
      decreases |rest|
    {
      var e := rest[0];
      MovedOne(newtable, moved, e);
      assert rest == [e] + rest[1..];
      Associative(moved, [e], rest[1..]);
      rest := rest[1..];
      newtable := Pushed(newtable, e);
      moved := moved + [e];
    }
  }

  /** The entries of a table, moved to a new one of this length. */
  method Rehash(was: Table, newsize: nat) returns (newtable: Table)
    requires Placed(was) && newsize > 0
    ensures |newtable| == newsize && Moved(newtable, FlatFrom(was, 0))
  {
    newtable := seq(newsize, _ => []);
    ghost var moved: seq<Entry> := [];
    MovedNothing(newsize);
    hide Moved, Pushed, HashOf, FlatFrom, IndexFor;
    NothingBefore(FlatFrom(was, 0));
    for i := 0 to |was|
      invariant Moved(newtable, moved) && |newtable| == newsize && moved + FlatFrom(was, i) == FlatFrom(was, 0)
    {
      assert forall j :: 0 <= j < |was[i]| ==> PlacedAt(was[i][j], |was|, i);
      FlatNext(was, i);
      Associative(moved, was[i], FlatFrom(was, i + 1));
      newtable, moved := MoveChain(was[i], newtable, moved);
    }
    FlatEnd(was);
    NothingBefore(moved);
  }

  // --------------------------------------------------------------- the table

  /** What an insertion that makes the table grow does to the values under a key. */
  function AfterGrowth(grows: bool, vs: seq<Value>): seq<Value> {
    if grows then Reversed(vs) else vs
  }

  class HashTable {
    const limitFor: nat -> nat
    var table: Table
    var entrycount: nat
    var loadlimit: nat
    var primeindex: nat

    predicate Shaped()
      reads this
    {
      primeindex < |PRIMES| && |table| == PRIMES[primeindex] && Placed(table)
    }

    ghost predicate Valid()
      reads this
    {
      Shaped() && entrycount == |FlatFrom(table, 0)|
    }

    /** An empty table, unless the size asked for is too large. */
    static method Create(minsize: nat, limitFor: nat -> nat) returns (h: HashTable?)
      ensures h == null <==> minsize > 0x4000_0000
      ensures h != null ==> fresh(h) && h.Valid() && |h.table| > minsize && h.limitFor == limitFor
      ensures h != null ==> FlatFrom(h.table, 0) == [] && forall key :: Bindings(h.table, key) == []
    {
      if minsize > 0x4000_0000 {
        return null;
      }
      h := new HashTable(minsize, limitFor);
    }

    /** Of the first prime length above the size asked for. */
    constructor (minsize: nat, limitFor: nat -> nat)
      requires minsize <= 0x4000_0000
      ensures Valid() && FlatFrom(table, 0) == [] && |table| > minsize && this.limitFor == limitFor
      ensures forall key :: Bindings(table, key) == []
    {
      hide HashOf;
      var pindex := 0;
      while PRIMES[pindex] <= minsize
        invariant 0 <= pindex < |PRIMES|
        decreases |PRIMES| - pindex
      {
        assert PRIMES[25] == 1610612741;
        pindex := pindex + 1;
      }
      this.limitFor := limitFor;
      table := seq(PRIMES[pindex], _ => []);
      entrycount, loadlimit, primeindex := 0, limitFor(PRIMES[pindex]), pindex;
      new;
      EmptyFlat(table, 0);
    }

    /** Moves every entry to a table of the next prime length, if there is memory for it: nothing
        is lost, every entry is in its new chain, and entries with the same key end up in the
        opposite order. */
    method Expand(memory: bool) returns (grown: bool)
      requires Shaped()
      modifies this`table, this`loadlimit, this`primeindex
      ensures Shaped() && grown == (memory && old(primeindex) < |PRIMES| - 1)
      ensures grown ==> primeindex == old(primeindex) + 1
      ensures multiset(FlatFrom(table, 0)) == old(multiset(FlatFrom(table, 0)))
      ensures forall key :: Bindings(table, key) == AfterGrowth(grown, old(Bindings(table, key)))
      ensures !grown ==> table == old(table) && loadlimit == old(loadlimit) && primeindex == old(primeindex)
    {
      hide PRIMES, Moved, HashOf, Bindings, Under, FlatFrom, Placed, Reversed;
      if primeindex == |PRIMES| - 1 || !memory {
        return false;
      }
      LengthsPositive(primeindex);
      LengthsPositive(primeindex + 1);
      var newsize := PRIMES[primeindex + 1];
      var newtable := Rehash(table, newsize);
      MovedPlaced(newtable, FlatFrom(table, 0));
      forall key
        ensures Bindings(newtable, key) == Reversed(Bindings(table, key))
      {
        UnderFlat(table, 0, key);
        MovedBindings(newtable, FlatFrom(table, 0), key);
      }
      table := newtable;
      primeindex := primeindex + 1;
      loadlimit := limitFor(newsize);
      grown := true;
    }

    /** Puts an entry in front of its chain, in a larger table if this one is full and there is
        memory for it. */
    method Insert(key: Key, value: Value, memory: bool, tableMemory: bool) returns (ok: bool)
      requires Valid()
      modifies this
      ensures Valid() && ok == memory
      ensures var grows := tableMemory && old(entrycount) + 1 > old(loadlimit) && old(primeindex) < |PRIMES| - 1;
        forall k :: Bindings(table, k) ==
          (if ok && k == key then [value] else []) + AfterGrowth(grows, old(Bindings(table, k)))
      ensures ok ==>
        multiset(FlatFrom(table, 0)) == old(multiset(FlatFrom(table, 0))) + multiset{Entry(key, value, HashOf(key))}
      ensures !ok ==> multiset(FlatFrom(table, 0)) == old(multiset(FlatFrom(table, 0)))
    {
      hide HashOf, Bindings, FlatFrom, IndexFor, Placed, PRIMES;
      entrycount := entrycount + 1;
      ghost var was := FlatFrom(table, 0);
      if entrycount > loadlimit {
        var grown := Expand(tableMemory);
      }
      SameSize(FlatFrom(table, 0), was);
      if !memory {
        entrycount := entrycount - 1;
        return false;
      }
      var h := Hash(key);
      var e := Entry(key, value, h);
      ghost var before := table;
      PushedPlaced(table, e);
      PushedFlat(table, e);
      var index := IndexFor(|table|, e.h);
      table := table[index := [e] + table[index]];
      OneMore(FlatFrom(table, 0), was, e);
      forall k
        ensures Bindings(table, k) == Match(e, k) + Bindings(before, k)
      {
        PushedBindings(before, e, k);
      }
      ok := true;
    }

    /** Position of the first entry for a key in its chain, or -1. */
    method Locate(key: Key) returns (j: int)
      requires Shaped()
      ensures var chain := table[IndexFor(|table|, HashOf(key))];
        -1 <= j < |chain| && (j >= 0 ==> chain[j].key == key) &&
        forall k :: 0 <= k < (if j < 0 then |chain| else j) ==> chain[k].key != key
    {
      hide HashOf, IndexFor;
      var h := Hash(key);
      var index := IndexFor(|table|, h);
      var chain := table[index];
      for i := 0 to |chain|
        invariant forall k :: 0 <= k < i ==> chain[k].key != key
      {
        assert PlacedAt(chain[i], |table|, index);
        if chain[i].h == h && chain[i].key == key {
          return i;
        }
      }
      return -1;
    }

    method Search(key: Key) returns (r: Option<Value>)
      requires Shaped()
      ensures r == if Bindings(table, key) == [] then None else Some(Bindings(table, key)[0])
    {
      hide HashOf, IndexFor, Under;
      var j := Locate(key);
      var h := Hash(key);
      var chain := table[IndexFor(|table|, h)];
      if j < 0 {
        NoneUnder(chain, key);
        return None;
      }
      FoundAt(chain, key, j);
      return Some(chain[j].value);
    }

    /** Takes out the first entry for a key. */
    method Remove(key: Key) returns (r: Option<Value>)
      requires Valid()
      modifies this`table, this`entrycount
      ensures Valid()
      ensures r == if old(Bindings(table, key)) == [] then None else Some(old(Bindings(table, key)[0]))
      ensures forall k ::
        Bindings(table, k) == if k == key && r.Some? then old(Bindings(table, k))[1..] else old(Bindings(table, k))
      ensures entrycount == old(entrycount) - (if r.Some? then 1 else 0)
    {
      hide HashOf, IndexFor, Under, FlatFrom, PRIMES;
      var j := Locate(key);
      var h := Hash(key);
      var index := IndexFor(|table|, h);
      var chain := table[index];
      if j < 0 {
        NoneUnder(chain, key);
        return None;
      }
      RemovedPlaced(table, index, j);
      RemovedCount(table, index, j);
      ghost var was := table;
      forall k
        ensures var after := was[index := chain[..j] + chain[j + 1..]];
                if k == key
                then
                  Bindings(was, k) != [] && Bindings(after, k) == Bindings(was, k)[1..] &&
                  Bindings(was, k)[0] == chain[j].value
                else Bindings(after, k) == Bindings(was, k)
      {
        RemovedBindings(was, index, j, k);
      }
      hide Placed, Bindings;
      table := table[index := chain[..j] + chain[j + 1..]];
      entrycount := entrycount - 1;
      return Some(chain[j].value);
    }
  }

  lemma LengthsPositive(i: nat)
    requires i < |PRIMES|
    ensures PRIMES[i] > 0
  {
  }

  lemma SameSize<T>(a: seq<T>, b: seq<T>)
    requires multiset(a) == multiset(b)
    ensures |a| == |b|
  {
    assert |multiset(a)| == |a| && |multiset(b)| == |b|;
  }

  lemma OneMore<T>(a: seq<T>, b: seq<T>, e: T)
    requires multiset(a) == multiset(b) + multiset{e}
    ensures |a| == |b| + 1
  {
    assert |multiset(a)| == |a| && |multiset(b)| == |b|;
  }
}
