/** The hash table iterator on the level of its pointers (examples/ukv/hashtable/hashtable_itr.c):
    a chain is a head and the links of its entries, and the iterator keeps a pointer to the
    current entry and one to its parent, the entry before it in the chain. */
module IteratorLinks {
  import opened Options
  import opened HashTableModule

  /** An entry, or NULL. */
  type Link = Option<nat>

  function First(list: seq<nat>): Link {
    if list == [] then None else Some(list[0])
  }

  /** Entry j of the list is linked to the one after it. */
  predicate LinkedAt(next: map<nat, Link>, list: seq<nat>, j: nat)
    requires j < |list|
  {
    list[j] in next && next[list[j]] == First(list[j + 1..])
  }

  predicate Linked(next: map<nat, Link>, list: seq<nat>) {
    forall j {:trigger LinkedAt(next, list, j)} :: 0 <= j < |list| ==> LinkedAt(next, list, j)
  }

  /** The chains are linked in this order. */
  predicate Chained(heads: seq<Link>, next: map<nat, Link>, lists: seq<seq<nat>>) {
    |heads| == |lists| && (forall i :: 0 <= i < |lists| ==> heads[i] == First(lists[i])) &&
    (forall i :: 0 <= i < |lists| ==> Linked(next, lists[i]))
  }

  /** No entry is there twice. */
  predicate Apart(lists: seq<seq<nat>>) {
    forall i, j, k, l :: 0 <= i < |lists| && 0 <= j < |lists[i]| && 0 <= k < |lists| && 0 <= l < |lists[k]| ==>
      lists[i][j] == lists[k][l] ==> i == k && j == l
  }

  /** All entries of the chains from i on. */
  function Flat(lists: seq<seq<nat>>, i: nat): (es: seq<nat>)
    requires i <= |lists|
    decreases |lists| - i
  {
    if i == |lists| then [] else lists[i] + Flat(lists, i + 1)
  }

  lemma {:induction false} FlatSkips(lists: seq<seq<nat>>, i: nat, k: nat)
    requires i <= k <= |lists| && forall j :: i <= j < k ==> lists[j] == []
    ensures Flat(lists, i) == Flat(lists, k)
    decreases k - i
  {
    if i == k {
    } else {
      FlatSkips(lists, i + 1, k);
    }
  }

  /** The chains behind do not see a change. */
  lemma {:induction false} FlatBehind(lists: seq<seq<nat>>, i: nat, list: seq<nat>, k: nat)
    requires i < k <= |lists|
    ensures Flat(lists[i := list], k) == Flat(lists, k)
    decreases |lists| - k
  {
    if k == |lists| {
    } else {
      FlatBehind(lists, i, list, k + 1);
    }
  }

  /** The front of all entries, before entry p of chain i, and what is left without that entry. */
  lemma {:induction false} FrontOf(lists: seq<seq<nat>>, i: nat, p: nat, k: nat) returns (front: seq<nat>)
    requires k <= i < |lists| && p < |lists[i]|
    ensures Flat(lists, k) == front + (lists[i][p..] + Flat(lists, i + 1))
    ensures Flat(lists[i := Without(lists[i], p)], k) == front + (lists[i][p + 1..] + Flat(lists, i + 1))
    decreases i - k
  {
    var list, after := lists[i], lists[i := Without(lists[i], p)];
    if k == i {
      front := list[..p];
      FlatBehind(lists, i, Without(list, p), i + 1);
      assert list == list[..p] + list[p..];
    } else {
      front := FrontOf(lists, i, p, k + 1);
      front := lists[k] + front;
    }
  }

  /** A list from place p on, with more behind it: the first entry, and the rest. */
  lemma TailOf(list: seq<nat>, p: nat, more: seq<nat>)
    requires p < |list|
    ensures (list[p..] + more)[1..] == list[p + 1..] + more
    ensures First(list[p + 1..]) == if p + 1 < |list| then Some(list[p + 1]) else None
    ensures p + 1 == |list| ==> list[p + 1..] + more == more
  {
  }

  function Without(list: seq<nat>, p: nat): (r: seq<nat>)
    requires p < |list|
  {
    list[..p] + list[p + 1..]
  }

  /** The table these chains make up: `entry` gives key, value and hash of each entry. */
  function View(lists: seq<seq<nat>>, entry: map<nat, Entry>): (table: Table)
    requires Known(lists, entry)
    ensures |table| == |lists| && forall i :: 0 <= i < |lists| ==> table[i] == ViewChain(lists[i], entry)
  {
    seq(|lists|, i requires 0 <= i < |lists| => ViewChain(lists[i], entry))
  }

  predicate KnownChain(list: seq<nat>, entry: map<nat, Entry>) {
    forall j :: 0 <= j < |list| ==> list[j] in entry
  }

  predicate Known(lists: seq<seq<nat>>, entry: map<nat, Entry>) {
    forall i :: 0 <= i < |lists| ==> KnownChain(lists[i], entry)
  }

  function ViewChain(list: seq<nat>, entry: map<nat, Entry>): (chain: seq<Entry>)
    requires KnownChain(list, entry)
    ensures |chain| == |list| && forall j :: 0 <= j < |list| ==> chain[j] == entry[list[j]]
  {
    seq(|list|, j requires 0 <= j < |list| => entry[list[j]])
  }

  /** Unlinking an entry takes it out of its chain of the table. */
  lemma ViewWithout(lists: seq<seq<nat>>, entry: map<nat, Entry>, i: nat, p: nat)
    requires Known(lists, entry) && i < |lists| && p < |lists[i]|
    ensures Known(lists[i := Without(lists[i], p)], entry)
    ensures var chain := View(lists, entry)[i];
            View(lists[i := Without(lists[i], p)], entry) == View(lists, entry)[i := chain[..p] + chain[p + 1..]]
  {
    var list, after := lists[i], lists[i := Without(lists[i], p)];
    assert KnownChain(list, entry);
    assert KnownChain(Without(list, p), entry);
    var chain := ViewChain(list, entry);
    assert ViewChain(Without(list, p), entry) == chain[..p] + chain[p + 1..];
  }

  class Iterator {
    var heads: seq<Link>
    var next: map<nat, Link>
    var entry: map<nat, Entry>
    var entrycount: int
    var e: Link
    var parent: Link
    var index: nat
    ghost var lists: seq<seq<nat>>
    ghost var pos: nat

    ghost predicate Valid()
      reads this
    {
      Chained(heads, next, lists) && Apart(lists) && Known(lists, entry) && entrycount == |Flat(lists, 0)|
    }

    /** The table it goes through. */
    ghost function Contents(): Table
      requires Valid()
      reads this
    {
      View(lists, entry)
    }

    /** At the first entry. */
    constructor (heads: seq<Link>, next: map<nat, Link>, entry: map<nat, Entry>, entrycount: int,
                 ghost lists: seq<seq<nat>>)
      requires Chained(heads, next, lists) && Apart(lists) && Known(lists, entry) && entrycount == |Flat(lists, 0)|
      ensures Valid() && Positioned() && Rest() == Flat(lists, 0)
      ensures this.lists == lists && this.entry == entry && this.entrycount == entrycount
    {
      hide Chained, Apart, Known;
      var i := 0;
      SameNumber(heads, next, lists);
      while entrycount != 0 && i < |heads| && heads[i].None?
        invariant i <= |heads| && forall k :: 0 <= k < i ==> lists[k] == []
      {
        HeadOf(heads, next, lists, i);
        i := i + 1;
      }
      FlatSkips(lists, 0, i);
      this.heads, this.next, this.entry, this.entrycount, this.lists := heads, next, entry, entrycount, lists;
      var found := entrycount != 0 && i < |heads|;
      e, parent, index, pos := if found then heads[i] else None, None, if found then i else |heads|, 0;
      if found {
        HeadOf(heads, next, lists, i);
        assert lists[i][0..] == lists[i];
      }
    }

    /** The parent is the entry before the current one. */
    ghost predicate Positioned()
      reads this
    {
      e.Some? ==>
        index < |lists| && pos < |lists[index]| && e == Some(lists[index][pos]) &&
        parent == if pos == 0 then None else Some(lists[index][pos - 1])
    }

    /** The entries still to come, the current one included. */
    ghost function Rest(): (es: seq<nat>)
      requires Positioned()
      reads this
    {
      if e.None? then [] else lists[index][pos..] + Flat(lists, index + 1)
    }

    lemma RestStarts()
      requires Positioned()
      ensures e.None? ==> Rest() == []
      ensures e.Some? ==> Rest() != [] && Rest()[0] == e.value
    {
    }

    /** What advancing does to the pointers, wherever the current entry is. */
    method Step() returns (more: bool)
      requires e.Some? && e.value in next && index < |heads|
      modifies this`e, this`parent, this`index
      ensures more == e.Some?
      ensures var follows := next[old(e).value];
        if follows.Some? then e == follows && parent == old(e) && index == old(index)
        else
          parent.None? && old(index) < index <= |heads| && (forall i :: old(index) < i < index ==> heads[i].None?) &&
          e == (if index < |heads| then heads[index] else None) && (index < |heads| ==> e.Some?)
    {
      var follows := next[e.value];
      if follows.Some? {
        parent := e;
        e := follows;
        return true;
      }
      parent, index := None, index + 1;
      if index >= |heads| {
        e := None;
        return false;
      }
      var j := index;
      while heads[j].None?
        invariant index <= j < |heads| && forall i :: index <= i < j ==> heads[i].None?
        decreases |heads| - j
      {
        j := j + 1;
        if j >= |heads| {
          index, e := |heads|, None;
          return false;
        }
      }
      index, e := j, heads[j];
      more := true;
    }

    /** Having left the end of a chain, the iterator is at the first entry behind it. */
    lemma AtNextChain(from: nat)
      requires Valid() && from < index <= |heads| && (forall i :: from < i < index ==> heads[i].None?)
      requires e == (if index < |heads| then heads[index] else None) && (index < |heads| ==> e.Some?)
      requires parent.None? && pos == 0
      ensures Positioned() && Rest() == Flat(lists, from + 1)
    {
      assert |heads| == |lists|;
      forall i | from < i < index
        ensures lists[i] == []
      {
        HeadOf(heads, next, lists, i);
      }
      FlatSkips(lists, from + 1, index);
      hide Chained, Apart;
      if index < |lists| {
        HeadOf(heads, next, lists, index);
        assert lists[index][0..] == lists[index];
      }
    }

    method Advance() returns (more: bool)
      requires Valid() && Positioned()
      modifies this`e, this`parent, this`index, this`pos
      ensures Valid() && Positioned() && more == e.Some?
      ensures Rest() == if old(e).None? then [] else old(Rest())[1..]
    {
      if e.None? {
        return false;
      }
      ghost var list, i, p := lists[index], index, pos;
      hide Flat, Apart, Chained, First;
      TailOf(list, p, Flat(lists, i + 1));
      LinkOf(heads, next, lists, i, p);
      more := Step();
      if p + 1 < |list| {
        pos := pos + 1;
      } else {
        pos := 0;
        AtNextChain(i);
      }
    }

    /** Unlinks the entry from the parent or, without one, from the head of the chain. */
    method Unlink()
      requires Chained(heads, next, lists) && Apart(lists) && Positioned() && e.Some?
      modifies this`heads, this`next, this`lists
      ensures Chained(heads, next, lists) && Apart(lists)
      ensures lists == old(lists)[index := Without(old(lists)[index], pos)]
      ensures |heads| == |lists| && e.value in next && next[e.value] == First(old(lists)[index][pos + 1..])
    {
      ghost var list := lists[index];
      ghost var after := lists[index := Without(list, pos)];
      hide Chained, Apart;
      StillApart(lists, index, pos);
      LinkOf(heads, next, lists, index, pos);
      HeadOf(heads, next, lists, index);
      if parent.None? {
        heads := heads[index := next[e.value]];
      } else {
        next := next[parent.value := next[e.value]];
      }
      StillChained(old(heads), old(next), lists, index, pos, heads, next);
      lists := after;
      SameNumber(heads, next, lists);
    }

    /** The entry is out of the table, and counted out. */
    method TakeOut()
      requires Valid() && Positioned() && e.Some?
      modifies this`heads, this`next, this`entrycount, this`lists
      ensures Valid() && lists == old(lists)[index := Without(old(lists)[index], pos)]
      ensures var chain := old(Contents())[index];
        Contents() == old(Contents())[index := chain[..pos] + chain[pos + 1..]]
      ensures |heads| == |lists| && e.value in next && next[e.value] == First(old(lists)[index][pos + 1..])
      ensures |old(Rest())| <= |old(Flat(lists, 0))|
      ensures Flat(lists, 0) == old(Flat(lists, 0))[..|old(Flat(lists, 0))| - |old(Rest())|] + old(Rest())[1..]
    {
      hide Flat, Apart, Chained, First, Known, View;
      ghost var front := FrontOf(lists, index, pos, 0);
      TailOf(lists[index], pos, Flat(lists, index + 1));
      ViewWithout(lists, entry, index, pos);
      Unlink();
      entrycount := entrycount - 1;
    }

    /** Removes the current entry and advances.  Advancing makes the removed entry the parent if
        the chain goes on, which is put right: the parent is again the entry before. */
    method Remove() returns (more: bool)
      requires Valid() && Positioned() && e.Some?
      modifies this`heads, this`next, this`entrycount, this`e, this`parent, this`index, this`lists, this`pos
      ensures Valid() && Positioned() && more == e.Some?
      ensures var chain := old(Contents())[old(index)];
        Contents() == old(Contents())[old(index) := chain[..old(pos)] + chain[old(pos) + 1..]]
      ensures Rest() == old(Rest())[1..] && |old(Rest())| <= |old(Flat(lists, 0))|
      ensures Flat(lists, 0) == old(Flat(lists, 0))[..|old(Flat(lists, 0))| - |old(Rest())|] + Rest()
    {
      hide Flat, Chained, Apart, Known, View, First, Iterator.Rest;
      ghost var list := lists[index];
      RestIs();
      TailOf(list, pos, Flat(lists, index + 1));
      FlatBehind(lists, index, Without(list, pos), index + 1);
      TakeOut();
      more := MoveOn(list);
    }

    /** Advances from an entry that was taken out of this list. */
    method MoveOn(ghost list: seq<nat>) returns (more: bool)
      requires Valid() && index < |lists| == |heads| && pos < |list| && lists[index] == Without(list, pos)
      requires e == Some(list[pos]) && e.value in next && next[e.value] == First(list[pos + 1..])
      requires parent == if pos == 0 then None else Some(list[pos - 1])
      modifies this`e, this`parent, this`index, this`pos
      ensures Valid() && Positioned() && more == e.Some?
      ensures Rest() == list[old(pos) + 1..] + Flat(lists, old(index) + 1)
    {
      hide Flat, Apart, Chained, First, Known;
      ghost var i, p := index, pos;
      TailOf(list, p, Flat(lists, i + 1));
      var rememberE := e;
      var rememberParent := parent;
      more := Step();
      if parent == rememberE {
        parent := rememberParent;
      }
      if p + 1 < |list| {
        assert lists[i][p..] == list[p + 1..];
      } else {
        pos := 0;
        AtNextChain(i);
      }
    }

    lemma RestIs()
      requires Positioned() && e.Some?
      ensures Rest() == lists[index][pos..] + Flat(lists, index + 1)
    {
    }
  }

  /** Goes through the whole table and removes some entries on the way: each entry is visited once,
      and those that stay keep their order. */
  method Sweep(itr: Iterator, doomed: set<nat>) returns (visited: seq<nat>)
    requires itr.Valid() && itr.Positioned() && itr.Rest() == Flat(itr.lists, 0)
    modifies itr
    ensures itr.Valid() && itr.e.None?
    ensures visited == old(Flat(itr.lists, 0)) && Flat(itr.lists, 0) == Staying(visited, doomed)
  {
    hide Flat, Iterator.Valid, Iterator.Positioned, Iterator.Rest, Staying, Iterator.Contents;
    visited := [];
    ghost var all := Flat(itr.lists, 0);
    ghost var stay: seq<nat> := [];
    NoneStaying(doomed, all);
    while itr.e.Some?
      invariant itr.Valid() && itr.Positioned() && visited + itr.Rest() == all
      invariant stay == Staying(visited, doomed) && Flat(itr.lists, 0) == stay + itr.Rest()
      decreases |itr.Rest()|
    {
      var now := itr.e.value;
      itr.RestStarts();
      StayingSnoc(visited, now, doomed);
      Regroup(visited, now, itr.Rest());
      Regroup(stay, now, itr.Rest());
      visited := visited + [now];
      if now in doomed {
        var more := itr.Remove();
      } else {
        var more := itr.Advance();
        stay := stay + [now];
      }
    }
    itr.RestStarts();
    assert visited + [] == visited && stay + [] == stay;
  }

  lemma NoneStaying(doomed: set<nat>, all: seq<nat>)
    ensures Staying([], doomed) == [] && [] + all == all
  {
  }

  function Staying(list: seq<nat>, doomed: set<nat>): (r: seq<nat>) {
    if list == [] then []
    else
      var past, x := list[..|list| - 1], list[|list| - 1];
      if x in doomed then Staying(past, doomed) else Staying(past, doomed) + [x]
  }

  lemma StayingSnoc(list: seq<nat>, x: nat, doomed: set<nat>)
    ensures Staying(list + [x], doomed) == Staying(list, doomed) + (if x in doomed then [] else [x])
  {
    assert (list + [x])[..|list|] == list;
  }

  lemma Regroup(a: seq<nat>, x: nat, rest: seq<nat>)
    requires rest != [] && rest[0] == x
    ensures a + rest == (a + [x]) + rest[1..] && (a + rest)[..|a + rest| - |rest|] == a
  {
  }

  lemma LinkOf(heads: seq<Link>, next: map<nat, Link>, lists: seq<seq<nat>>, i: nat, j: nat)
    requires Chained(heads, next, lists) && i < |lists| && j < |lists[i]|
    ensures |heads| == |lists| && lists[i][j] in next && next[lists[i][j]] == First(lists[i][j + 1..])
  {
    assert Linked(next, lists[i]);
    assert LinkedAt(next, lists[i], j);
  }

  lemma SameNumber(heads: seq<Link>, next: map<nat, Link>, lists: seq<seq<nat>>)
    requires Chained(heads, next, lists)
    ensures |heads| == |lists|
  {
  }

  lemma HeadOf(heads: seq<Link>, next: map<nat, Link>, lists: seq<seq<nat>>, i: nat)
    requires Chained(heads, next, lists) && i < |lists|
    ensures |heads| == |lists| && heads[i] == First(lists[i])
  {
  }

  lemma Differ(lists: seq<seq<nat>>, i: nat, j: nat, k: nat, l: nat)
    requires Apart(lists) && i < |lists| && j < |lists[i]| && k < |lists| && l < |lists[k]| && (i != k || j != l)
    ensures lists[i][j] != lists[k][l]
  {
  }

  lemma StillApart(lists: seq<seq<nat>>, i: nat, p: nat)
    requires Apart(lists) && i < |lists| && p < |lists[i]|
    ensures Apart(lists[i := Without(lists[i], p)])
  {
    var after := lists[i := Without(lists[i], p)];
    forall a, j, b, l | 0 <= a < |after| && 0 <= j < |after[a]| && 0 <= b < |after| && 0 <= l < |after[b]| &&
      after[a][j] == after[b][l]
      ensures a == b && j == l
    {
      var j', l' := if a == i && j >= p then j + 1 else j, if b == i && l >= p then l + 1 else l;
      assert after[a][j] == lists[a][j'] && after[b][l] == lists[b][l'];
    }
  }

  lemma StillChained(heads: seq<Link>, next: map<nat, Link>, lists: seq<seq<nat>>, i: nat, p: nat,
                     heads': seq<Link>, next': map<nat, Link>)
    requires Chained(heads, next, lists) && Apart(lists) && i < |lists| && p < |lists[i]|
    requires lists[i][p] in next
    requires if p == 0 then heads' == heads[i := next[lists[i][p]]] && next' == next
             else heads' == heads && next' == next[lists[i][p - 1] := next[lists[i][p]]]
    ensures Chained(heads', next', lists[i := Without(lists[i], p)])
    ensures lists[i][p] in next' && next'[lists[i][p]] == First(lists[i][p + 1..])
  {
    hide Apart, First, LinkedAt;
    var after := lists[i := Without(lists[i], p)];
    HeadStill(lists[i], p);
    LinkOf(heads, next, lists, i, p);
    if p > 0 {
      Differ(lists, i, p - 1, i, p);
    }
    forall a | 0 <= a < |after|
      ensures Linked(next', after[a])
    {
      forall j | 0 <= j < |after[a]|
        ensures LinkedAt(next', after[a], j)
      {
        EntryStill(heads, next, lists, i, p, next', a, j);
      }
    }
  }

  lemma EntryStill(heads: seq<Link>, next: map<nat, Link>, lists: seq<seq<nat>>, i: nat, p: nat, next': map<nat, Link>,
                   a: nat, j: nat)
    requires Chained(heads, next, lists) && Apart(lists) && i < |lists| && p < |lists[i]| && lists[i][p] in next
    requires next' == if p == 0 then next else next[lists[i][p - 1] := next[lists[i][p]]]
    requires a < |lists| && j < |lists[i := Without(lists[i], p)][a]|
    ensures LinkedAt(next', lists[i := Without(lists[i], p)][a], j)
  {
    hide Chained, Apart, First;
    var j' := if a == i && j >= p then j + 1 else j;
    LinkOf(heads, next, lists, a, j');
    LinkOf(heads, next, lists, i, p);
    if a == i {
      FollowsStill(lists[i], p, j);
    }
    if p > 0 && (a != i || j' != p - 1) {
      Differ(lists, a, j', i, p - 1);
    }
  }

  lemma HeadStill(list: seq<nat>, p: nat)
    requires p < |list|
    ensures First(Without(list, p)) == if p == 0 then First(list[1..]) else First(list)
  {
  }

  /** What follows the entries that stay. */
  lemma FollowsStill(list: seq<nat>, p: nat, j: nat)
    requires p < |list| && j < |list| - 1
    ensures Without(list, p)[j] == list[if j >= p then j + 1 else j]
    ensures First(Without(list, p)[j + 1..]) ==
            if j >= p then First(list[j + 2..]) else if j + 1 < p then First(list[j + 1..]) else First(list[p + 1..])
  {
    var shorter := Without(list, p);
    if j >= p {
      assert shorter[j + 1..] == list[j + 2..];
    } else if j + 1 == p {
      assert shorter[j + 1..] == list[p + 1..];
    }
  }
}
