/** The iterator over the hash table (examples/ukv/hashtable/hashtable_itr.c) and the key-value
    store (examples/ukv/ukv.c). */
module UkvModule {
  import opened Options
  import opened HashTableModule

  lemma {:induction false} SkipEmptyChains(table: Table, j: nat, k: nat)
    requires j <= k <= |table| && forall i :: j <= i < k ==> table[i] == []
    ensures FlatFrom(table, j) == FlatFrom(table, k)
    decreases k - j
  {
    if j == k {
    } else {
      SkipEmptyChains(table, j + 1, k);
    }
  }

  /** A position is a chain and a place in it; the parent is the entry before, if any. */
  class Iterator {
    const h: HashTable
    var index: nat
    var pos: nat
    var atEnd: bool

    ghost predicate Positioned()
      reads this, h`table
    {
      !atEnd ==> index < |h.table| && pos < |h.table[index]|
    }

    /** The entries still to come, the current one included. */
    ghost function Rest(): (es: seq<Entry>)
      requires Positioned()
      reads this, h`table
      ensures es == [] <==> atEnd
    {
      if atEnd then [] else h.table[index][pos..] + FlatFrom(h.table, index + 1)
    }

    ghost function Visited(): (es: seq<Entry>)
      requires Positioned()
      reads this, h`table
    {
      if atEnd then FlatFrom(h.table, 0) else FlatBefore(h.table, index) + h.table[index][..pos]
    }

    /** At the first entry. */
    constructor (h: HashTable)
      requires h.Valid()
      ensures this.h == h && Positioned() && Rest() == FlatFrom(h.table, 0) && fresh(this)
    {
      this.h := h;
      index, pos, atEnd := |h.table|, 0, true;
      new;
      if h.entrycount != 0 {
        Settle(0);
      }
    }

    /** Goes to the first entry of the chains from j on. */
    method Settle(j: nat)
      requires j <= |h.table|
      modifies this
      ensures Positioned() && Rest() == FlatFrom(h.table, j)
    {
      hide FlatFrom;
      var k := j;
      while k < |h.table| && h.table[k] == []
        invariant j <= k <= |h.table| && forall i :: j <= i < k ==> h.table[i] == []
      {
        k := k + 1;
      }
      SkipEmptyChains(h.table, j, k);
      index, pos, atEnd := k, 0, k == |h.table|;
      if atEnd {
        FlatEnd(h.table);
      } else {
        FlatNext(h.table, k);
        assert h.table[k][0..] == h.table[k];
      }
    }

    /** To the next entry. */
    method Advance() returns (more: bool)
      requires Positioned()
      modifies this
      ensures Positioned() && more == !atEnd
      ensures Rest() == if old(atEnd) then [] else old(Rest())[1..]
    {
      hide FlatFrom;
      if atEnd {
        return false;
      }
      if pos + 1 < |h.table[index]| {
        pos := pos + 1;
        return true;
      }
      assert Rest()[1..] == FlatFrom(h.table, index + 1);
      Settle(index + 1);
      more := !atEnd;
    }

    /** Takes the current entry out of the table and goes to the next one. */
    method RemoveCurrent() returns (more: bool)
      requires Positioned() && !atEnd && h.Valid()
      modifies this, h`table, h`entrycount
      ensures Positioned() && h.Valid() && more == !atEnd
      ensures Rest() == old(Rest())[1..] && h.entrycount == old(h.entrycount) - 1
      ensures FlatFrom(h.table, 0) == old(Visited()) + old(Rest())[1..]
    {
      hide FlatFrom, FlatBefore, Placed, HashOf, PRIMES;
      var chain := h.table[index];
      ghost var was, i, p := h.table, index, pos;
      var shorter := chain[..pos] + chain[pos + 1..];
      RemovedPlaced(was, i, p);
      RemovedCount(was, i, p);
      FlatExchanged(was, i, shorter);
      FlatAfter(was, i, shorter, i + 1);
      assert Rest()[1..] == chain[pos + 1..] + FlatFrom(was, i + 1);
      Associative(chain[..pos], chain[pos + 1..], FlatFrom(was, i + 1));
      Associative(FlatBefore(was, i), chain[..pos], chain[pos + 1..] + FlatFrom(was, i + 1));
      h.table := h.table[index := shorter];
      h.entrycount := h.entrycount - 1;
      assert shorter[p..] == chain[p + 1..];
      if pos < |shorter| {
        more := true;
      } else {
        assert chain[p + 1..] + FlatFrom(was, i + 1) == FlatFrom(was, i + 1);
        Settle(index + 1);
        more := !atEnd;
      }
    }
  }

  /** Iterating visits every entry exactly once. */
  method VisitAll(h: HashTable) returns (visited: seq<Entry>)
    requires h.Valid()
    ensures visited == FlatFrom(h.table, 0) && |visited| == h.entrycount
  {
    hide FlatFrom, Placed, PRIMES;
    var itr := new Iterator(h);
    visited := [];
    ghost var all := itr.Rest();
    NothingBefore(all);
    while !itr.atEnd
      invariant itr.Positioned() && visited + itr.Rest() == all
      decreases |itr.Rest()|
    {
      var e := h.table[itr.index][itr.pos];
      assert itr.Rest() == [e] + itr.Rest()[1..];
      Associative(visited, [e], itr.Rest()[1..]);
      visited := visited + [e];
      var more := itr.Advance();
    }
    NothingBefore(visited);
  }

  // ---------------------------------------------------------------- the store

  /** The store as a finite map. */
  ghost predicate Represents(table: Table, m: map<Key, Value>) {
    |table| > 0 && forall key :: Bindings(table, key) == if key in m then [m[key]] else []
  }

  lemma GrowthKeeps(grows: bool, vs: seq<Value>)
    requires |vs| <= 1
    ensures AfterGrowth(grows, vs) == vs
  {
  }

  class Ukv {
    const h: HashTable
    ghost var contents: map<Key, Value>

    ghost predicate Valid()
      reads this, h
    {
      h.Valid() && Represents(h.table, contents)
    }

    constructor (limitFor: nat -> nat)
      ensures Valid() && fresh(h) && contents == map[]
    {
      h := new HashTable(16, limitFor);
      contents := map[];
    }

    method Get(key: Key) returns (r: Option<Value>)
      requires Valid()
      ensures r == if key in contents then Some(contents[key]) else None
    {
      hide Bindings, Placed, PRIMES, FlatFrom;
      r := h.Search(key);
    }

    /** Never overwrites: a key that is there keeps its value, which is returned. */
    method Set(key: Key, value: Value) returns (r: Option<Value>)
      requires Valid()
      modifies this, h
      ensures Valid()
      ensures r == if key in old(contents) then Some(old(contents)[key]) else None
      ensures contents == if key in old(contents) then old(contents) else old(contents)[key := value]
    {
      hide Bindings, PlacedAt, PRIMES, FlatFrom, HashOf, AfterGrowth;
      r := h.Search(key);
      if r.Some? {
        return;
      }
      ghost var before := h.table;
      forall k
        ensures forall grows :: AfterGrowth(grows, Bindings(before, k)) == Bindings(before, k)
      {
        GrowthKeeps(true, Bindings(before, k));
        GrowthKeeps(false, Bindings(before, k));
      }
      var tableMemory: bool := *;
      var ok := h.Insert(key, value, true, tableMemory);
      forall k
        ensures Bindings(h.table, k) == if k == key then [value] else Bindings(before, k)
      {
        NothingBefore(Bindings(before, k));
        assert k == key ==> Bindings(before, k) == [];
        NothingBefore([value]);
      }
      contents := contents[key := value];
    }

    method Del(key: Key)
      requires Valid()
      modifies this, h
      ensures Valid()
      ensures contents == old(contents) - {key}
    {
      hide Bindings, Placed, PRIMES, FlatFrom, HashOf;
      var r := h.Remove(key);
      contents := contents - {key};
    }
  }

  datatype Request = Get(key: Key) | Set(key: Key, value: Value) | Del(key: Key)

  function Answer(m: map<Key, Value>, q: Request): Option<Value> {
    if !q.Del? && q.key in m then Some(m[q.key]) else None
  }

  function Effect(m: map<Key, Value>, q: Request): map<Key, Value> {
    match q
    case Get(_) => m
    case Set(key, value) => if key in m then m else m[key := value]
    case Del(key) => m - {key}
  }

  /** The map after the first n requests. */
  function After(m: map<Key, Value>, qs: seq<Request>, n: nat): map<Key, Value>
    requires n <= |qs|
  {
    if n == 0 then m else Effect(After(m, qs, n - 1), qs[n - 1])
  }

  predicate SetsAt(qs: seq<Request>, i: nat, key: Key)
    requires i < |qs|
  {
    qs[i].Set? && qs[i].key == key
  }

  predicate DeletesAt(qs: seq<Request>, i: nat, key: Key)
    requires i < |qs|
  {
    qs[i].Del? && qs[i].key == key
  }

  /** Request i sets the key, and none of those after it up to n deletes it. */
  predicate SetAndKept(qs: seq<Request>, i: nat, n: nat, key: Key)
    requires i < n <= |qs|
  {
    SetsAt(qs, i, key) && forall j :: i < j < n ==> !DeletesAt(qs, j, key)
  }

  predicate Kept(qs: seq<Request>, n: nat, key: Key)
    requires n <= |qs|
  {
    exists i :: 0 <= i < n && SetAndKept(qs, i, n, key)
  }

  lemma KeptNext(qs: seq<Request>, n: nat, key: Key)
    requires n < |qs|
    ensures Kept(qs, n + 1, key) <==> SetsAt(qs, n, key) || (Kept(qs, n, key) && !DeletesAt(qs, n, key))
  {
    if SetsAt(qs, n, key) {
      assert SetAndKept(qs, n, n + 1, key);
    } else if Kept(qs, n, key) && !DeletesAt(qs, n, key) {
      var i :| 0 <= i < n && SetAndKept(qs, i, n, key);
      assert SetAndKept(qs, i, n + 1, key);
    }
    if Kept(qs, n + 1, key) && !SetsAt(qs, n, key) {
      var i :| 0 <= i < n + 1 && SetAndKept(qs, i, n + 1, key);
      assert SetAndKept(qs, i, n, key);
    }
  }

  /** A key is there exactly if it was set and not deleted since. */
  lemma {:induction false} ThereExactlyWhenSet(qs: seq<Request>, n: nat, key: Key)
    requires n <= |qs|
    ensures key in After(map[], qs, n) <==> exists i :: 0 <= i < n && SetAndKept(qs, i, n, key)
  {
    if n == 0 {
    } else {
      ThereExactlyWhenSet(qs, n - 1, key);
      KeptNext(qs, n - 1, key);
      AfterNext(map[], qs, n - 1);
    }
  }

  /** Its value is that of the first set since it was last deleted. */
  lemma {:induction false} ValueIsFirstSet(qs: seq<Request>, i: nat, n: nat, key: Key)
    requires i < n <= |qs| && SetAndKept(qs, i, n, key) && key !in After(map[], qs, i)
    ensures key in After(map[], qs, n) && After(map[], qs, n)[key] == qs[i].value
  {
    if n == i + 1 {
    } else {
      ValueIsFirstSet(qs, i, n - 1, key);
      assert !DeletesAt(qs, n - 1, key);
    }
  }

  /** Any sequence of requests is answered as by a finite map in which set never overwrites,
      however often the table grows on the way. */
  method Serve(store: Ukv, qs: seq<Request>) returns (answers: seq<Option<Value>>)
    requires store.Valid()
    modifies store, store.h
    ensures store.Valid() && store.contents == After(old(store.contents), qs, |qs|)
    ensures |answers| == |qs|
    ensures forall i :: 0 <= i < |qs| ==> answers[i] == Answer(After(old(store.contents), qs, i), qs[i])
  {
    hide Ukv.Valid, After, Answer, Effect;
    ghost var start := store.contents;
    answers := [];
    AfterNone(start, qs);
    for i := 0 to |qs|
      invariant store.Valid() && store.contents == After(start, qs, i) && |answers| == i
      invariant forall j :: 0 <= j < i ==> answers[j] == Answer(After(start, qs, j), qs[j])
    {
      AfterNext(start, qs, i);
      var r := Handle(store, qs[i]);
      answers := answers + [r];
    }
  }

  lemma AfterNone(m: map<Key, Value>, qs: seq<Request>)
    ensures After(m, qs, 0) == m
  {
  }

  lemma AfterNext(m: map<Key, Value>, qs: seq<Request>, n: nat)
    requires n < |qs|
    ensures After(m, qs, n + 1) == Effect(After(m, qs, n), qs[n])
  {
  }

  method Handle(store: Ukv, q: Request) returns (r: Option<Value>)
    requires store.Valid()
    modifies store, store.h
    ensures store.Valid() && store.contents == Effect(old(store.contents), q) && r == Answer(old(store.contents), q)
  {
    hide Represents, HashTable.Valid;
    r := None;
    match q {
      case Get(key) => r := store.Get(key);
      case Set(key, value) => r := store.Set(key, value);
      case Del(key) => store.Del(key);
    }
  }
}
