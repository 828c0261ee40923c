/** The preallocated heap of src/heap.c: blocks of power-of-two sizes cut off at a cursor, and
    one free list per size, linked through the block headers. */
module HeapModule {
  import opened PowersOfTwo

  const ALLOC_MAX_SIZE: nat := 0x10_0000
  const HEADER: nat := 16
  const CLASSES: nat := 21

  /** Offset of a block, or -1 for NULL. */
  type Link = x: int | -1 <= x

  function HeadOf(list: seq<nat>): Link {
    if list == [] then -1 else list[0]
  }

  /** The bookkeeping of a heap: the free lists, their heads, the class of each block, the
      links in the headers, and the blocks handed out. */
  datatype Books = Books(lists: seq<seq<nat>>, heads: seq<Link>, cls: map<nat, nat>, nexts: map<nat, Link>,
                         live: set<nat>)

  /** A free block of class c. */
  predicate FreeIn(b: Books, c: nat, o: nat) {
    o in b.cls && o in b.nexts && b.cls[o] == c && o !in b.live
  }

  /** The free blocks of one class are linked in this order, nothing comes after the last one,
      and none is there twice. */
  predicate Linked(b: Books, c: nat)
    requires c < |b.lists| == |b.heads|
  {
    var list := b.lists[c];
    b.heads[c] == HeadOf(list) &&
    (forall i :: 0 <= i < |list| ==> FreeIn(b, c, list[i])) &&
    (forall i :: 0 <= i < |list| ==> b.nexts[list[i]] == HeadOf(list[i + 1..])) &&
    forall i, j :: 0 <= i < j < |list| ==> list[i] != list[j]
  }

  /** Every block is live or in the free list of its class, and never both. */
  predicate Kept(b: Books) {
    |b.lists| == |b.heads| == CLASSES && b.cls.Keys == b.nexts.Keys &&
    (forall c :: 0 <= c < CLASSES ==> Linked(b, c)) &&
    (forall o :: o in b.live ==> o in b.cls && b.nexts[o] == -1) &&
    (forall o :: o in b.cls ==> b.cls[o] < CLASSES) && Complete(b)
  }

  predicate Complete(b: Books) {
    forall o {:trigger Listed(b, o)} :: o in b.cls && o !in b.live ==> Listed(b, o)
  }

  predicate Listed(b: Books, o: nat) {
    o in b.cls && b.cls[o] < |b.lists| && o in b.lists[b.cls[o]]
  }

  /** A list that the change does not touch stays linked. */
  lemma LinkedStill(b: Books, b': Books, c: nat)
    requires c < |b.lists| == |b.heads| == |b'.lists| == |b'.heads| && Linked(b, c)
    requires b'.lists[c] == b.lists[c] && b'.heads[c] == b.heads[c]
    requires forall i :: 0 <= i < |b.lists[c]| ==>
      var o := b.lists[c][i];
      o in b'.cls && b'.cls[o] == c && o in b'.nexts && b'.nexts[o] == b.nexts[o] && o !in b'.live
    ensures Linked(b', c)
  {
  }

  // ----------------------------------------------------- taking a free block

  function Popped(b: Books, c: nat): Books
    requires Kept(b) && c < CLASSES && b.lists[c] != []
  {
    var o := b.lists[c][0];
    assert Linked(b, c) && FreeIn(b, c, b.lists[c][0]);
    Books(b.lists[c := b.lists[c][1..]], b.heads[c := b.nexts[o]], b.cls, b.nexts[o := -1], b.live + {o})
  }

  lemma PoppedLinked(b: Books, c: nat)
    requires Kept(b) && c < CLASSES && b.lists[c] != []
    ensures Linked(Popped(b, c), c)
  {
    hide Complete;
    var b', list := Popped(b, c), b.lists[c];
    var rest := list[1..];
    assert Linked(b, c);
    forall i | 0 <= i < |rest|
      ensures FreeIn(b', c, rest[i]) && b'.nexts[rest[i]] == HeadOf(rest[i + 1..])
    {
      assert FreeIn(b, c, list[i + 1]) && list[0] != list[i + 1];
      assert rest[i + 1..] == list[i + 2..];
    }
  }

  lemma PoppedKept(b: Books, c: nat)
    requires Kept(b) && c < CLASSES && b.lists[c] != []
    ensures Kept(Popped(b, c))
  {
    hide Complete;
    var b', o := Popped(b, c), b.lists[c][0];
    PoppedLinked(b, c);
    assert Linked(b, c) && FreeIn(b, c, o);
    forall d | 0 <= d < CLASSES && d != c
      ensures Linked(b', d)
    {
      assert Linked(b, d);
      assert forall i :: 0 <= i < |b.lists[d]| ==> FreeIn(b, d, b.lists[d][i]);
      LinkedStill(b, b', d);
    }
    PoppedComplete(b, c);
  }

  lemma PoppedComplete(b: Books, c: nat)
    requires Kept(b) && c < CLASSES && b.lists[c] != []
    ensures Complete(Popped(b, c))
  {
    var b' := Popped(b, c);
    hide Linked;
    forall x | x in b'.cls && x !in b'.live
      ensures Listed(b', x)
    {
      assert Listed(b, x);
    }
  }

  // --------------------------------------------------------- adding a block

  function Added(b: Books, o: nat, c: nat): Books {
    Books(b.lists, b.heads, b.cls[o := c], b.nexts[o := -1], b.live + {o})
  }

  lemma AddedKept(b: Books, o: nat, c: nat)
    requires Kept(b) && c < CLASSES && o !in b.cls
    ensures Kept(Added(b, o, c)) && o !in b.live
  {
    var b' := Added(b, o, c);
    forall d | 0 <= d < CLASSES
      ensures Linked(b', d)
    {
      assert Linked(b, d);
      assert forall i :: 0 <= i < |b.lists[d]| ==> FreeIn(b, d, b.lists[d][i]);
      LinkedStill(b, b', d);
    }
    hide Linked;
    forall x | x in b'.cls && x !in b'.live
      ensures Listed(b', x)
    {
      assert Listed(b, x);
    }
  }

  // -------------------------------------------------------- freeing a block

  function Freed(b: Books, o: nat): Books
    requires Kept(b) && o in b.live
  {
    var c := b.cls[o];
    var list := b.lists[c];
    Books(b.lists[c := list + [o]], if list == [] then b.heads[c := o] else b.heads, b.cls,
          if list == [] then b.nexts else b.nexts[list[|list| - 1] := o], b.live - {o})
  }

  lemma FreedLinked(b: Books, o: nat)
    requires Kept(b) && o in b.live
    ensures Linked(Freed(b, o), b.cls[o])
  {
    hide Complete;
    var b', c := Freed(b, o), b.cls[o];
    var list := b.lists[c];
    var longer := list + [o];
    assert Linked(b, c);
    forall i | 0 <= i < |longer|
      ensures FreeIn(b', c, longer[i]) && b'.nexts[longer[i]] == HeadOf(longer[i + 1..])
    {
      if i < |list| {
        assert FreeIn(b, c, list[i]) && b.nexts[list[i]] == HeadOf(list[i + 1..]);
        assert i + 1 < |list| ==> list[i] != list[|list| - 1];
        assert longer[i + 1] == longer[i + 1..][0];
      } else {
        assert longer[i + 1..] == [];
        assert list != [] ==> FreeIn(b, c, list[|list| - 1]);
      }
    }
    forall i, j | 0 <= i < j < |longer|
      ensures longer[i] != longer[j]
    {
      assert FreeIn(b, c, list[i]);
    }
  }

  lemma FreedKept(b: Books, o: nat)
    requires Kept(b) && o in b.live
    ensures Kept(Freed(b, o))
  {
    hide Complete;
    var b', c := Freed(b, o), b.cls[o];
    var list := b.lists[c];
    FreedLinked(b, o);
    assert Linked(b, c);
    assert list != [] ==> FreeIn(b, c, list[|list| - 1]);
    forall d | 0 <= d < CLASSES && d != c
      ensures Linked(b', d)
    {
      assert Linked(b, d);
      assert forall i :: 0 <= i < |b.lists[d]| ==> FreeIn(b, d, b.lists[d][i]);
      LinkedStill(b, b', d);
    }
    FreedComplete(b, o);
  }

  lemma FreedComplete(b: Books, o: nat)
    requires Kept(b) && o in b.live
    ensures Complete(Freed(b, o))
  {
    var b' := Freed(b, o);
    hide Linked;
    forall x | x in b'.cls && x !in b'.live
      ensures Listed(b', x)
    {
      assert x == o || Listed(b, x);
    }
  }

  datatype Outcome = Block(ptr: nat) | NoMemory | OutsideFreeList

  /** Size of the block for a request. */
  function BlockSize(n: nat): nat
    requires n <= ALLOC_MAX_SIZE
  {
    UpperPowerOfTwo(n + HEADER)
  }

  /** The class of a request: its block has 2^c bytes. */
  ghost function ClassOf(n: nat): nat
    requires n <= ALLOC_MAX_SIZE
  {
    Bits(n + HEADER - 1)
  }

  /** The free blocks of the size a request needs, in the order they were freed. */
  ghost function Fitting(b: Books, n: nat): seq<nat>
    requires n <= ALLOC_MAX_SIZE
  {
    if ClassOf(n) < |b.lists| then b.lists[ClassOf(n)] else []
  }

  /** The class of a request is in the table of free lists exactly if request and header fit
      the maximal size. */
  lemma ClassInRange(n: nat, c: nat)
    requires n <= ALLOC_MAX_SIZE && Pow2(c) <= BlockSize(n) < Pow2(c + 1)
    ensures c == ClassOf(n) && BlockSize(n) == Pow2(c) >= n + HEADER
    ensures c < CLASSES <==> n + HEADER <= ALLOC_MAX_SIZE
  {
    hide UpperPowerOfTwo, Pow2, Bits;
    UpperIsLeastPower(n + HEADER, 20);
    LogOfPower(Bits(n + HEADER - 1), c);
    Pow64();
    if c < CLASSES {
      PowMonotone(c, 20);
    } else {
      PowMonotone(21, c);
      PowStrict(20, 21);
    }
  }

  /** Blocks are powers of two, lie below the cursor and do not overlap. */
  ghost predicate Spread(sizes: map<nat, nat>, cls: map<nat, nat>, cursor: nat) {
    sizes.Keys == cls.Keys &&
    (forall o :: o in sizes ==> sizes[o] == Pow2(cls[o]) && o + sizes[o] <= cursor) &&
    (forall a, b :: a in sizes && b in sizes && a < b ==> a + sizes[a] <= b)
  }

  lemma SpreadMore(sizes: map<nat, nat>, cls: map<nat, nat>, cursor: nat, c: nat)
    requires Spread(sizes, cls, cursor)
    ensures cursor !in sizes && cursor !in cls
    ensures Spread(sizes[cursor := Pow2(c)], cls[cursor := c], cursor + Pow2(c))
  {
    hide Pow2;
    assert forall o :: o in sizes ==> o < cursor;
  }

  lemma SizeIs(sizes: map<nat, nat>, cls: map<nat, nat>, cursor: nat, o: nat)
    requires Spread(sizes, cls, cursor) && o in cls
    ensures o in sizes && sizes[o] == Pow2(cls[o])
  {
  }

  lemma HeadTells(b: Books, c: nat)
    requires Kept(b) && c < CLASSES
    ensures |b.lists| == |b.heads| == CLASSES && (b.heads[c] < 0 <==> b.lists[c] == [])
    ensures b.heads[c] >= 0 ==> b.lists[c][0] == b.heads[c] && FreeIn(b, c, b.heads[c])
  {
    assert Linked(b, c);
    assert b.lists[c] != [] ==> FreeIn(b, c, b.lists[c][0]);
  }

  lemma LiveIsKept(b: Books, o: nat)
    requires Kept(b) && o in b.live
    ensures o in b.cls && b.cls[o] < CLASSES && b.cls[o] < |b.lists|
  {
  }

  class Heap {
    const size: nat
    var cursor: nat
    var freeList: seq<Link>
    var sizes: map<nat, nat>
    var nexts: map<nat, Link>
    ghost var lists: seq<seq<nat>>
    ghost var cls: map<nat, nat>
    ghost var live: set<nat>

    ghost function Book(): Books
      reads this
    {
      Books(lists, freeList, cls, nexts, live)
    }

    ghost predicate Valid()
      reads this
    {
      Kept(Book()) && Spread(sizes, cls, cursor) && cursor < size
    }

    constructor (size: nat)
      requires size > ALLOC_MAX_SIZE
      ensures Valid() && this.size == size && live == {} && cursor == 0
    {
      this.size, cursor := size, 0;
      freeList, lists := seq(CLASSES, _ => -1), seq(CLASSES, _ => []);
      sizes, nexts, cls, live := map[], map[], map[], {};
    }

    /** No two live blocks overlap, and all lie in the heap. */
    lemma LiveBlocksDisjoint(a: nat, b: nat)
      requires Valid() && a in live && b in live && a != b
      ensures a in sizes && b in sizes && (a + sizes[a] <= b || b + sizes[b] <= a)
      ensures a + sizes[a] < size && b + sizes[b] < size
    {
      hide Pow2;
      LiveIsKept(Book(), a);
      LiveIsKept(Book(), b);
    }

    /** A request gets a block that is live for no one else and holds it with its header: the
        free block of its size that was freed first, or else a new one at the cursor.  Memory has
        run out exactly when there is neither. */
    method Malloc(n: nat) returns (r: Outcome)
      requires Valid() && n <= ALLOC_MAX_SIZE
      modifies this
      ensures Valid()
      ensures r.OutsideFreeList? <==> n + HEADER > ALLOC_MAX_SIZE
      ensures r.NoMemory? <==>
        n + HEADER <= ALLOC_MAX_SIZE && Fitting(old(Book()), n) == [] && old(cursor) + BlockSize(n) >= size
      ensures r.Block? ==>
        if Fitting(old(Book()), n) != [] then r.ptr == Fitting(old(Book()), n)[0] + 16 && cursor == old(cursor)
        else r.ptr == old(cursor) + 16 && cursor == old(cursor) + BlockSize(n)
      ensures r.Block? ==>
        Book() == if Fitting(old(Book()), n) != [] then Popped(old(Book()), ClassOf(n))
                  else Added(old(Book()), old(cursor), ClassOf(n))
      ensures r.Block? ==> r.ptr >= HEADER && r.ptr - HEADER !in old(live) && live == old(live) + {r.ptr - HEADER}
      ensures r.Block? ==> r.ptr - HEADER in sizes && n + HEADER <= sizes[r.ptr - HEADER] == BlockSize(n)
      ensures forall o :: o in old(sizes) ==> o in sizes && sizes[o] == old(sizes)[o]
      ensures !r.Block? ==> Book() == old(Book()) && sizes == old(sizes) && cursor == old(cursor)
    {
      hide UpperPowerOfTwo, Pow2, Spread, ClassOf, Kept;
      var pow2size := UpperPowerOfTwo(n + HEADER);
      UpperIsLeastPower(n + HEADER, 0);
      var log2 := IntLog2(pow2size);
      ClassInRange(n, log2);
      if log2 >= CLASSES {
        return OutsideFreeList;
      }
      HeadTells(Book(), log2);
      if freeList[log2] >= 0 {
        var a := freeList[log2];
        Reuse(log2);
        return Block(a + HEADER);
      }
      if cursor + pow2size >= size {
        return NoMemory;
      }
      r := Block(cursor + HEADER);
      CutOff(log2, pow2size);
    }

    /** Takes the first block off a free list. */
    method Reuse(c: nat)
      requires c < CLASSES && Valid() && freeList[c] >= 0
      modifies this`freeList, this`nexts, this`lists, this`live
      ensures Valid() && old(freeList[c]) !in old(live) && live == old(live) + {old(freeList[c])}
      ensures old(freeList[c]) in sizes && sizes[old(freeList[c])] == Pow2(c)
      ensures old(|lists| > c && lists[c] != []) && Book() == Popped(old(Book()), c)
    {
      hide Pow2, Kept, Spread, Linked;
      HeadTells(Book(), c);
      var a := freeList[c];
      PoppedKept(Book(), c);
      SizeIs(sizes, cls, cursor, a);
      ghost var after := Popped(Book(), c);
      freeList := freeList[c := nexts[a]];
      nexts := nexts[a := -1];
      lists := lists[c := lists[c][1..]];
      live := live + {a};
      assert Book() == after;
    }

    /** Cuts a new block off at the cursor. */
    method CutOff(c: nat, pow2size: nat)
      requires Valid() && c < CLASSES && pow2size == Pow2(c) && cursor + pow2size < size
      modifies this`cursor, this`sizes, this`nexts, this`live, this`cls
      ensures Valid() && old(cursor) !in old(live) && live == old(live) + {old(cursor)}
      ensures sizes == old(sizes)[old(cursor) := pow2size] && old(cursor) !in old(sizes)
      ensures cursor == old(cursor) + pow2size && Book() == Added(old(Book()), old(cursor), c)
    {
      hide Pow2, Kept, Spread;
      var a := cursor;
      SpreadMore(sizes, cls, cursor, c);
      AddedKept(Book(), a, c);
      ghost var after := Added(Book(), a, c);
      cursor := cursor + pow2size;
      sizes, cls := sizes[a := pow2size], cls[a := c];
      nexts := nexts[a := -1];
      live := live + {a};
      assert Book() == after;
    }

    /** Appends a live block to the free list of its size. */
    method Free(ptr: nat)
      requires Valid() && ptr >= HEADER && ptr - HEADER in live
      modifies this`freeList, this`nexts, this`lists, this`live
      ensures Valid() && live == old(live) - {ptr - HEADER}
      ensures Book() == Freed(old(Book()), ptr - HEADER)
      ensures ptr - HEADER in cls && cls[ptr - HEADER] < |old(lists)| &&
              lists == old(lists)[cls[ptr - HEADER] := old(lists)[cls[ptr - HEADER]] + [ptr - HEADER]]
    {
      hide Pow2, Kept, Spread;
      var a := ptr - HEADER;
      LiveIsKept(Book(), a);
      SizeIs(sizes, cls, cursor, a);
      var log2 := IntLog2(sizes[a]);
      LogOfPower(cls[a], log2);
      FreedKept(Book(), a);
      ghost var after := Freed(Book(), a);
      HeadTells(Book(), log2);
      if freeList[log2] < 0 {
        freeList := freeList[log2 := a];
      } else {
        var tail := Tail(log2);
        nexts := nexts[tail := a];
      }
      lists := lists[log2 := lists[log2] + [a]];
      live := live - {a};
      assert Book() == after;
    }

    /** The last block of a free list. */
    method Tail(c: nat) returns (tail: nat)
      requires c < CLASSES && Valid() && freeList[c] >= 0
      ensures lists[c] != [] && tail == lists[c][|lists[c]| - 1]
    {
      hide Pow2, Complete, Spread;
      ghost var b, list := Book(), lists[c];
      assert Linked(b, c);
      tail := freeList[c];
      ghost var i := 0;
      assert FreeIn(b, c, list[0]);
      while nexts[tail] >= 0
        invariant 0 <= i < |list| && tail == list[i] && FreeIn(b, c, list[i])
        decreases |list| - i
      {
        assert nexts[list[i]] == HeadOf(list[i + 1..]);
        tail := nexts[tail];
        i := i + 1;
        assert FreeIn(b, c, list[i]);
      }
      assert nexts[list[i]] == HeadOf(list[i + 1..]);
    }
  }

  // ------------------------------------------------------------- recycling

  /** The blocks behind the pointers that were handed out. */
  function Blocks(ptrs: seq<nat>): (s: seq<nat>)
    requires forall i :: 0 <= i < |ptrs| ==> ptrs[i] >= HEADER
    ensures |s| == |ptrs| && forall i :: 0 <= i < |s| ==> s[i] + HEADER == ptrs[i]
  {
    seq(|ptrs|, i requires 0 <= i < |ptrs| => ptrs[i] - HEADER)
  }

  /** Equal sizes, equal classes. */
  lemma SizeTellsClass(b: Books, sizes: map<nat, nat>, cursor: nat, o: nat, n: nat)
    requires Spread(sizes, b.cls, cursor) && o in b.cls && o in sizes
    requires n + HEADER <= ALLOC_MAX_SIZE && sizes[o] == BlockSize(n)
    ensures b.cls[o] == ClassOf(n) < CLASSES
  {
    hide Pow2, UpperPowerOfTwo, Bits;
    UpperIsLeastPower(n + HEADER, 20);
    PowStrict(ClassOf(n), ClassOf(n) + 1);
    ClassInRange(n, ClassOf(n));
    SizeIs(sizes, b.cls, cursor, o);
    LogOfPower(ClassOf(n), b.cls[o]) by {
      PowStrict(b.cls[o], b.cls[o] + 1);
    }
  }

  /** Frees blocks of one size, one after another: they queue up behind those already free. */
  method FreeAll(h: Heap, ptrs: seq<nat>, n: nat)
    requires h.Valid() && n + HEADER <= ALLOC_MAX_SIZE
    requires forall i :: 0 <= i < |ptrs| ==>
      ptrs[i] >= HEADER && ptrs[i] - HEADER in h.live && ptrs[i] - HEADER in h.sizes &&
      h.sizes[ptrs[i] - HEADER] == BlockSize(n)
    requires forall i, j :: 0 <= i < j < |ptrs| ==> ptrs[i] != ptrs[j]
    modifies h`freeList, h`nexts, h`lists, h`live
    ensures h.Valid() && Fitting(h.Book(), n) == old(Fitting(h.Book(), n)) + Blocks(ptrs)
  {
    hide Kept, Spread, BlockSize, ClassOf, Freed, Pow2, UpperPowerOfTwo;
    ghost var blocks := Blocks(ptrs);
    for i := 0 to |ptrs|
      invariant h.Valid() && h.sizes == old(h.sizes) && h.cls == old(h.cls)
      invariant forall j :: i <= j < |ptrs| ==> ptrs[j] - HEADER in h.live
      invariant Fitting(h.Book(), n) == old(Fitting(h.Book(), n)) + blocks[..i]
    {
      LiveIsKept(h.Book(), ptrs[i] - HEADER);
      SizeTellsClass(h.Book(), h.sizes, h.cursor, ptrs[i] - HEADER, n);
      h.Free(ptrs[i]);
      assert blocks[..i + 1] == blocks[..i] + [ptrs[i] - HEADER];
    }
    assert blocks[..|ptrs|] == blocks;
  }

  /** Blocks come back in the order they were freed. */
  method TakeBack(h: Heap, n: nat, count: nat) returns (ptrs: seq<nat>)
    requires h.Valid() && n + HEADER <= ALLOC_MAX_SIZE && count <= |Fitting(h.Book(), n)|
    modifies h
    ensures h.Valid() && h.cursor == old(h.cursor) && forall i :: 0 <= i < |ptrs| ==> ptrs[i] >= HEADER
    ensures Blocks(ptrs) == old(Fitting(h.Book(), n))[..count]
    ensures Fitting(h.Book(), n) == old(Fitting(h.Book(), n))[count..]
  {
    hide Kept, Spread, BlockSize, ClassOf, Pow2, UpperPowerOfTwo;
    ghost var free := Fitting(h.Book(), n);
    ptrs := [];
    for i := 0 to count
      invariant h.Valid() && h.cursor == old(h.cursor) && |ptrs| == i
      invariant forall j :: 0 <= j < i ==> ptrs[j] == free[j] + HEADER
      invariant Fitting(h.Book(), n) == free[i..]
    {
      var r := h.Malloc(n);
      assert free[i..][1..] == free[i + 1..];
      ptrs := ptrs + [r.ptr];
    }
  }

  /** First freed, first handed out again. */
  method Recycle(h: Heap, ptrs: seq<nat>, n: nat) returns (again: seq<nat>)
    requires h.Valid() && n + HEADER <= ALLOC_MAX_SIZE && Fitting(h.Book(), n) == []
    requires forall i :: 0 <= i < |ptrs| ==>
      ptrs[i] >= HEADER && ptrs[i] - HEADER in h.live && ptrs[i] - HEADER in h.sizes &&
      h.sizes[ptrs[i] - HEADER] == BlockSize(n)
    requires forall i, j :: 0 <= i < j < |ptrs| ==> ptrs[i] != ptrs[j]
    modifies h
    ensures h.Valid() && h.cursor == old(h.cursor) && again == ptrs
  {
    hide Kept, Spread, BlockSize, ClassOf, Pow2, UpperPowerOfTwo, Fitting;
    FreeAll(h, ptrs, n);
    again := TakeBack(h, n, |ptrs|);
    assert Blocks(again) == Blocks(ptrs);
  }
}
