/** What a handler may not do twice is recorded per phase and done once at commit:
    allocations (src/talloc.c), frees (src/tbin.c) and system calls (src/wts.c); and the
    control-flow gates around the commit (src/cfc.c). */
module Deferred {
  import opened Options

  // ------------------------------------------------------------- allocations

  const MAX_ALLOCS := 20000

  /** Address 0 is NULL. */
  datatype Allocation = Allocation(addr: nat, size: nat)

  /** The address lies in one of the allocations. */
  ghost predicate InRange(allocs: seq<Allocation>, a: nat) {
    exists i :: 0 <= i < |allocs| && allocs[i].addr != 0 && allocs[i].addr <= a < allocs[i].addr + allocs[i].size
  }

  lemma InRangeExactly(allocs: seq<Allocation>, a: nat)
    ensures InRange(allocs, a) <==> exists x :: x in allocs && x.addr != 0 && x.addr <= a < x.addr + x.size
  {
  }

  /** The addresses a rollback frees, in order. */
  function Addresses(allocs: seq<Allocation>): (s: seq<nat>)
    ensures |s| == |allocs|
    ensures forall i :: 0 <= i < |s| ==> s[i] == allocs[i].addr
  {
    seq(|allocs|, i requires 0 <= i < |allocs| => allocs[i].addr)
  }

  class Talloc {
    const level: nat
    var p: nat
    var allocations: seq<Allocation>
    var size: seq<nat>

    ghost predicate Valid()
      reads this
    {
      level >= 2 && p < level && |size| == level && |allocations| == MAX_ALLOCS && size[0] < MAX_ALLOCS &&
      forall i :: 0 <= i < size[0] ==> allocations[i].addr != 0
    }

    /** The allocations of this transaction. */
    ghost function Live(): (s: seq<Allocation>)
      requires Valid()
      reads this
      ensures |s| == size[0]
    {
      allocations[..size[0]]
    }

    constructor (level: nat)
      requires level >= 2
      ensures Valid() && this.level == level && p == 0 && size == seq(level, _ => 0)
    {
      this.level := level;
      p := 0;
      allocations := seq(MAX_ALLOCS, _ => Allocation(0, 0));
      size := seq(level, _ => 0);
    }

    /** The first phase takes `given` from the allocator; the others replay what it got. */
    method Malloc(bytes: nat, given: nat) returns (r: Option<nat>)
      requires Valid() && given != 0
      modifies this`allocations, this`size
      ensures Valid()
      ensures r.Some? <==> old(size[p]) + (if p == 0 then 1 else 0) < 20000
      ensures r.Some? ==> size == old(size)[p := old(size[p]) + 1]
      ensures r.Some? && p == 0 ==> r.value == given && Live() == old(Live()) + [Allocation(given, bytes)]
      ensures r.Some? && p > 0 ==>
        r.value == allocations[old(size[p])].addr && allocations == old(allocations)
      ensures r.None? ==> size == old(size) && allocations == old(allocations)
    {
      var n := size[p];
      if p == 0 {
        if n + 1 >= MAX_ALLOCS {
          return None;
        }
        allocations := allocations[n := Allocation(given, bytes)];
        size := size[0 := n + 1];
        assert Live() == old(Live()) + [Allocation(given, bytes)];
        return Some(given);
      }
      if n >= MAX_ALLOCS {
        return None;
      }
      size := size[p := n + 1];
      return Some(allocations[n].addr);
    }

    method Switch() returns (ok: bool)
      requires Valid()
      modifies this`p
      ensures Valid()
      ensures ok <==> old(p) + 1 < level && size[old(p) + 1] == 0
      ensures p == if ok then old(p) + 1 else old(p)
    {
      ok := p + 1 < level && size[p + 1] == 0;
      if ok {
        p := p + 1;
      }
    }

    /** At commit all phases must have allocated the same number of times. */
    method Clean() returns (ok: bool)
      requires Valid()
      modifies this`p, this`size
      ensures Valid()
      ensures ok <==> old(p) == level - 1 && forall i :: 0 <= i < level ==> old(size)[i] == old(size)[0]
      ensures ok ==> p == 0 && size == seq(level, _ => 0)
      ensures !ok ==> p == old(p) && size == old(size)
    {
      if p != level - 1 {
        return false;
      }
      for i := 1 to level
        invariant p == old(p) && size == old(size)
        invariant forall j :: 0 <= j < i ==> size[j] == size[0]
      {
        if size[i] != size[0] {
          return false;
        }
      }
      p, size := 0, seq(level, _ => 0);
      return true;
    }

    /** Frees every allocation of the transaction, once each, and starts over. */
    method Rollback() returns (freed: seq<nat>)
      requires Valid()
      modifies this`p, this`size, this`allocations
      ensures Valid() && p == 0 && size == seq(level, _ => 0)
      ensures freed == old(Addresses(Live()))
    {
      freed := [];
      var n := size[0];
      for i := 0 to n
        invariant |allocations| == MAX_ALLOCS && size == old(size)
        invariant forall j :: i <= j < MAX_ALLOCS ==> allocations[j] == old(allocations)[j]
        invariant freed == old(Addresses(Live()))[..i]
      {
        if allocations[i].addr != 0 {
          freed := freed + [allocations[i].addr];
          allocations := allocations[i := allocations[i].(addr := 0)];
        }
      }
      p, size := 0, seq(level, _ => 0);
    }

    method AddrInRange(a: nat) returns (r: bool)
      requires Valid()
      ensures r <==> exists x :: x in Live() && x.addr != 0 && x.addr <= a < x.addr + x.size
    {
      for i := 0 to size[0]
        invariant forall j :: 0 <= j < i ==>
          !(allocations[j].addr != 0 && allocations[j].addr <= a < allocations[j].addr + allocations[j].size)
      {
        var x := allocations[i];
        if x.addr != 0 && x.addr <= a < x.addr + x.size {
          assert Live()[i] == x;
          return true;
        }
      }
      return false;
    }
  }

  // --------------------------------------------------- per-phase recordings

  /** All phases recorded the same. */
  ghost predicate Agree<T>(queue: seq<seq<T>>) {
    forall p :: 0 <= p < |queue| ==> queue[p] == queue[0]
  }

  /** Item i is there in every phase, the same non-null pointer. */
  ghost predicate SamePointer(queue: seq<seq<nat>>, i: nat)
    requires queue != []
  {
    i < |queue[0]| && queue[0][i] != 0 &&
    forall p :: 0 <= p < |queue| ==> i < |queue[p]| && queue[p][i] == queue[0][i]
  }

  ghost predicate SameCounts<T>(queue: seq<seq<T>>) {
    forall p :: 0 <= p < |queue| ==> |queue[p]| == |queue[0]|
  }

  lemma SamePointersAgree(queue: seq<seq<nat>>)
    requires queue != []
    ensures SameCounts(queue) && (forall i :: 0 <= i < |queue[0]| ==> SamePointer(queue, i))
            <==> Agree(queue) && 0 !in queue[0]
  {
    if SameCounts(queue) && forall i :: 0 <= i < |queue[0]| ==> SamePointer(queue, i) {
      forall p | 0 <= p < |queue|
        ensures queue[p] == queue[0]
      {
        forall i | 0 <= i < |queue[0]|
          ensures queue[p][i] == queue[0][i]
        {
          assert SamePointer(queue, i);
        }
      }
      forall i | 0 <= i < |queue[0]|
        ensures queue[0][i] != 0
      {
        assert SamePointer(queue, i);
      }
    }
  }

  /** The first item, from i on, that is not the same non-null pointer in every phase. */
  ghost function FirstBad(queue: seq<seq<nat>>, i: nat): (k: nat)
    requires queue != [] && SameCounts(queue) && i <= |queue[0]|
    ensures i <= k <= |queue[0]| && forall j :: i <= j < k ==> SamePointer(queue, j)
    ensures k < |queue[0]| ==> !SamePointer(queue, k)
    decreases |queue[0]| - i
  {
    if i < |queue[0]| && SamePointer(queue, i) then FirstBad(queue, i + 1) else i
  }

  /** What a flush frees: the items before the first bad one, nothing if the counts differ. */
  ghost function FreesDone(queue: seq<seq<nat>>): (freed: seq<nat>)
    requires queue != []
    ensures freed <= queue[0]
  {
    if SameCounts(queue) then queue[0][..FirstBad(queue, 0)] else []
  }

  /** Item by item: it stops before the first NULL and before the first item on which two phases
      disagree, and no earlier. */
  lemma FreesDoneExactly(queue: seq<seq<nat>>)
    requires queue != []
    ensures var n := |FreesDone(queue)|;
            FreesDone(queue) == queue[0][..n] &&
            forall p :: 0 <= p < |queue| ==> n <= |queue[p]| && queue[p][..n] == queue[0][..n] && 0 !in queue[p][..n]
    ensures var n := |FreesDone(queue)|;
            if exists p :: 0 <= p < |queue| && |queue[p]| != |queue[0]| then n == 0
            else n == |queue[0]| || queue[0][n] == 0 ||
                 exists p :: 0 <= p < |queue| && n < |queue[p]| && queue[p][n] != queue[0][n]
  {
    var n := |FreesDone(queue)|;
    forall p, j | 0 <= p < |queue| && 0 <= j < n
      ensures j < |queue[p]| && queue[p][j] == queue[0][j] != 0
    {
      assert SamePointer(queue, j);
    }
  }

  /** It frees everything if all phases agree. */
  lemma AgreedFrees(queue: seq<seq<nat>>)
    requires queue != [] && Agree(queue) && 0 !in queue[0]
    ensures FreesDone(queue) == queue[0]
  {
    SamePointersAgree(queue);
  }

  class Tbin {
    const level: nat
    const maxItems: nat
    var queue: seq<seq<nat>>

    ghost predicate Valid()
      reads this
    {
      level >= 2 && |queue| == level
    }

    constructor (level: nat, maxItems: nat)
      requires level >= 2
      ensures Valid() && this.level == level && this.maxItems == maxItems && queue == seq(level, _ => [])
    {
      this.level, this.maxItems := level, maxItems;
      queue := seq(level, _ => []);
    }

    method Add(ptr: nat, p: nat) returns (ok: bool)
      requires Valid() && p < level
      modifies this`queue
      ensures Valid()
      ensures ok <==> |old(queue)[p]| < maxItems
      ensures queue == if ok then old(queue)[p := old(queue)[p] + [ptr]] else old(queue)
    {
      ok := |queue[p]| < maxItems;
      if ok {
        queue := queue[p := queue[p] + [ptr]];
      }
    }

    /** Same number of pointers everywhere? */
    method SameCount() returns (ok: bool)
      requires Valid()
      ensures ok <==> SameCounts(queue)
    {
      for p := 1 to level
        invariant forall q :: 0 <= q < p ==> |queue[q]| == |queue[0]|
      {
        if |queue[p]| != |queue[0]| {
          return false;
        }
      }
      return true;
    }

    /** Is item i the same non-null pointer in every phase? */
    method ItemAgrees(i: nat) returns (ok: bool)
      requires Valid() && forall p :: 0 <= p < level ==> i < |queue[p]|
      ensures ok <==> SamePointer(queue, i)
    {
      for p := 0 to level
        invariant forall q :: 0 <= q < p ==> queue[q][i] != 0
      {
        if queue[p][i] == 0 {
          return false;
        }
      }
      for p := 1 to level
        invariant forall q :: 0 <= q < p ==> queue[q][i] == queue[0][i]
      {
        if queue[p][i] != queue[0][i] {
          return false;
        }
      }
      return true;
    }

    method CanFlush() returns (ok: bool)
      requires Valid()
      ensures ok <==> Agree(queue) && 0 !in queue[0]
    {
      SamePointersAgree(queue);
      var same := SameCount();
      if !same {
        return false;
      }
      for i := 0 to |queue[0]|
        invariant forall j :: 0 <= j < i ==> SamePointer(queue, j)
      {
        var agree := ItemAgrees(i);
        if !agree {
          return false;
        }
      }
      return true;
    }

    /** Frees each agreed pointer once, in order; stops the process at the first bad item, when
        the items before it are already freed. */
    method Flush() returns (ok: bool, freed: seq<nat>)
      requires Valid()
      modifies this`queue
      ensures Valid()
      ensures ok <==> old(Agree(queue)) && 0 !in old(queue)[0]
      ensures freed == FreesDone(old(queue))
      ensures ok ==> freed == old(queue)[0] && queue == seq(level, _ => [])
    {
      SamePointersAgree(queue);
      freed := [];
      var same := SameCount();
      if !same {
        return false, freed;
      }
      for i := 0 to |queue[0]|
        invariant Valid() && queue == old(queue) && freed == queue[0][..i]
        invariant FirstBad(queue, 0) == FirstBad(queue, i)
      {
        var agree := ItemAgrees(i);
        if !agree {
          return false, freed;
        }
        freed := freed + [queue[0][i]];
      }
      queue := seq(level, _ => []);
      ok := true;
    }

    method Reset()
      requires Valid()
      modifies this`queue
      ensures Valid() && queue == seq(level, _ => [])
    {
      queue := seq(level, _ => []);
    }
  }

  /** A deferred call; function 0 is NULL. */
  datatype Call = Call(func: nat, args: seq<nat>)

  predicate CallsMade(calls: seq<Call>) {
    forall i :: 0 <= i < |calls| ==> calls[i].func != 0
  }

  class Wts {
    const level: nat
    const maxItems: nat
    var queue: seq<seq<Call>>

    ghost predicate Valid()
      reads this
    {
      level >= 2 && |queue| == level && forall p :: 0 <= p < level ==> CallsMade(queue[p])
    }

    constructor (level: nat, maxItems: nat)
      requires level >= 2
      ensures Valid() && this.level == level && this.maxItems == maxItems && queue == seq(level, _ => [])
    {
      this.level, this.maxItems := level, maxItems;
      queue := seq(level, _ => []);
    }

    /** The bound is checked after the counter moved: one item fewer fits than there is room. */
    method Add(p: nat, call: Call) returns (ok: bool)
      requires Valid() && p < level && call.func != 0
      modifies this`queue
      ensures Valid()
      ensures ok <==> |old(queue)[p]| + 2 <= maxItems
      ensures queue == if ok then old(queue)[p := old(queue)[p] + [call]] else old(queue)
    {
      ok := |queue[p]| + 2 <= maxItems;
      if ok {
        queue := queue[p := queue[p] + [call]];
      }
    }

    method ItemAgrees(i: nat) returns (ok: bool)
      requires Valid() && forall p :: 0 <= p < level ==> i < |queue[p]|
      ensures ok <==> forall p :: 0 <= p < level ==> queue[p][i] == queue[0][i]
    {
      for p := 0 to level
        invariant forall q :: 0 <= q < p ==> queue[q][i] == queue[0][i]
      {
        if queue[p][i].func == 0 || queue[p][i].func != queue[0][i].func || queue[p][i].args != queue[0][i].args {
          assert CallsMade(queue[p]);
          return false;
        }
      }
      return true;
    }

    method CanFlush() returns (ok: bool)
      requires Valid()
      ensures ok <==> Agree(queue)
    {
      for p := 1 to level
        invariant forall q :: 0 <= q < p ==> |queue[q]| == |queue[0]|
      {
        if |queue[p]| != |queue[0]| {
          return false;
        }
      }
      for i := 0 to |queue[0]|
        invariant forall j, p :: 0 <= j < i && 0 <= p < level ==> queue[p][j] == queue[0][j]
      {
        var agree := ItemAgrees(i);
        if !agree {
          return false;
        }
      }
      return true;
    }

    /** Makes the agreed calls, in order, or none at all. */
    method Flush() returns (ok: bool, made: seq<Call>)
      requires Valid()
      modifies this`queue
      ensures Valid()
      ensures ok <==> old(Agree(queue))
      ensures ok ==> made == old(queue)[0] && queue == seq(level, _ => [])
      ensures !ok ==> made == [] && queue == old(queue)
    {
      made := [];
      ok := CanFlush();
      if !ok {
        return;
      }
      for i := 0 to |queue[0]|
        invariant queue == old(queue) && made == queue[0][..i]
      {
        made := made + [queue[0][i]];
      }
      queue := seq(level, _ => []);
    }

    method Reset()
      requires Valid()
      modifies this`queue
      ensures Valid() && queue == seq(level, _ => [])
    {
      queue := seq(level, _ => []);
    }
  }

  // ----------------------------------------------------- control-flow gates

  datatype Flag = SET | RESET

  datatype Cfc = Cfc(scf: Flag, rcf: Flag, lscf: Flag, lrcf: Flag)

  const CFC_RESET := Cfc(RESET, RESET, RESET, RESET)

  /** At-least-once gate. */
  function Alog(c: Cfc): Cfc { c.(lscf := SET, lrcf := SET) }

  /** At-most-once gate: passes and latches only from the reset state. */
  predicate AmogOpen(c: Cfc) { c.scf == c.rcf && c.scf == RESET }

  function Amog(c: Cfc): Cfc { if AmogOpen(c) then c.(scf := SET, rcf := SET) else c }

  predicate Check(c: Cfc) { c.lscf == c.lrcf && c.lscf == SET }

  /** From a reset, the pair of gates lets exactly one commit through. */
  lemma GatesPassOnce(c: Cfc)
    ensures AmogOpen(Alog(CFC_RESET)) && Check(Amog(Alog(CFC_RESET)))
    ensures AmogOpen(c) ==> !AmogOpen(Alog(Amog(c)))
    ensures Check(Alog(c)) && Check(Amog(Alog(c)))
  {
  }

  /** A commit without its first gate, a flag pair that has come apart and a gate that was passed
      already are all noticed; the gates leave each other's flags alone. */
  lemma GatesNotice(c: Cfc)
    ensures !Check(CFC_RESET) && !Check(Amog(CFC_RESET))
    ensures c.scf != c.rcf ==> !AmogOpen(c) && Amog(c) == c
    ensures c.lscf != c.lrcf ==> !Check(c) && !Check(Amog(c))
    ensures c.scf == SET || c.rcf == SET ==> !AmogOpen(c)
    ensures c.lscf == RESET || c.lrcf == RESET ==> !Check(c)
    ensures AmogOpen(c) <==> AmogOpen(Alog(c))
    ensures Check(c) <==> Check(Amog(c))
  {
  }
}
