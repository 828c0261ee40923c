/** Blacklisting of cores and migration (src/cpu_isolation.c), and the loops that retry on
    another core after a fault was detected (src/tmi.c:1428-1501, src/ibuf.c:86-126). */
module CpuIsolation {
  import opened FiniteSets
  import opened Options

  /** The core j places after `start`, going round. */
  function Round(start: nat, j: nat, n: nat): (c: nat)
    requires start < n && j <= n
    ensures c < n
  {
    (start + j) % n
  }

  lemma RoundIs(start: nat, j: nat, n: nat)
    requires start < n && j <= n
    ensures Round(start, j, n) == if start + j < n then start + j else start + j - n
  {
    if start + j < n {
      Small(start + j, n);
    } else {
      Once(start + j - n, n);
    }
  }

  lemma Small(a: nat, n: nat)
    requires a < n
    ensures a % n == a
  {
  }

  lemma Once(a: nat, n: nat)
    requires a < n
    ensures (a + n) % n == a
  {
  }

  /** Going on from j places after start is going on from start. */
  lemma RoundFrom(start: nat, j: nat, i: nat, n: nat)
    requires start < n && j + i <= n
    ensures Round(Round(start, j, n), i, n) == Round(start, j + i, n)
  {
    RoundIs(start, j, n);
    RoundIs(Round(start, j, n), i, n);
    RoundIs(start, j + i, n);
  }

  /** Going round meets every core once. */
  lemma RoundMeets(start: nat, c: nat, n: nat) returns (j: nat)
    requires start < n && c < n
    ensures j < n && Round(start, j, n) == c
  {
    j := if c >= start then c - start else c + n - start;
    RoundIs(start, j, n);
  }

  lemma RoundOnce(start: nat, i: nat, j: nat, n: nat)
    requires start < n && i < n && j < n && Round(start, i, n) == Round(start, j, n)
    ensures i == j
  {
    RoundIs(start, i, n);
    RoundIs(start, j, n);
  }

  function Cores(n: nat): (s: set<nat>)
    ensures forall c: nat :: c in s <==> c < n
  {
    if n == 0 then {} else Cores(n - 1) + {n - 1}
  }

  lemma {:induction false} CoresSize(n: nat)
    ensures |Cores(n)| == n
  {
    if n == 0 {
    } else {
      CoresSize(n - 1);
      OneMore(Cores(n - 1), n - 1);
    }
  }

  lemma OneMore<T>(s: set<T>, c: T)
    requires c !in s
    ensures |s + {c}| == |s| + 1
  {
  }

  class Cpus {
    const num: nat
    var blacklist: set<nat>
    var numBlacklisted: nat
    var cursor: int

    /** The count is the number of blacklisted cores. */
    ghost predicate Valid()
      reads this
    {
      0 < num <= 127 && blacklist <= Cores(num) && numBlacklisted == |blacklist|
    }

    function Available(): (s: set<nat>)
      reads this
    {
      Cores(num) - blacklist
    }

    constructor (num: nat)
      requires 0 < num <= 127
      ensures Valid() && this.num == num && blacklist == {} && cursor == 0
    {
      this.num := num;
      blacklist, numBlacklisted, cursor := {}, 0, 0;
    }

    lemma AvailableSize()
      requires Valid()
      ensures |Available()| == num - numBlacklisted
    {
      CoresSize(num);
      assert Cores(num) == Available() + blacklist;
    }

    /** Core numbers out of range are ignored. */
    method BlacklistCore(core: int)
      requires Valid()
      modifies this`blacklist, this`numBlacklisted
      ensures Valid()
      ensures blacklist == if 0 <= core < num then old(blacklist) + {core} else old(blacklist)
    {
      if core < 0 || core >= num {
        return;
      }
      if core in blacklist {
        assert blacklist == blacklist + {core};
        return;
      }
      blacklist := blacklist + {core};
      numBlacklisted := numBlacklisted + 1;
    }

    method IsBlacklisted(core: int) returns (b: bool)
      requires Valid()
      ensures b <==> core < 0 || core >= num || core in blacklist
      ensures !b <==> core >= 0 && core in Available()
    {
      if core < 0 || core >= num {
        return true;
      }
      b := core in blacklist;
    }

    method AvailableCount() returns (n: nat)
      requires Valid()
      ensures n == |Available()|
    {
      AvailableSize();
      n := num - numBlacklisted;
    }

    /** Where the next search starts. */
    function Start(): (s: nat)
      requires num > 0
      reads this
      ensures s < num
    {
      if 0 <= cursor < num then cursor else 0
    }

    /** The first available core from the cursor on, going round. */
    method NextAvailable() returns (core: int, ghost j: nat)
      requires Valid()
      modifies this`cursor
      ensures core >= 0 <==> Available() != {}
      ensures core < 0 ==> core == -1 && cursor == old(cursor)
      ensures core >= 0 ==>
        core in Available() && j < num && core == Round(old(Start()), j, num) &&
        (forall i :: 0 <= i < j ==> Round(old(Start()), i, num) !in Available()) &&
        cursor == Round(old(Start()), j + 1, num)
    {
      hide Cores, Round;
      j := 0;
      if Available() == {} {
        return -1, 0;
      }
      var start := Start();
      for i := 0 to num
        invariant cursor == old(cursor)
        invariant forall k :: 0 <= k < i ==> Round(start, k, num) !in Available()
      {
        core := Round(start, i, num);
        if core in Available() {
          cursor := Round(core, 1, num);
          j := i;
          RoundFrom(start, i, 1, num);
          return;
        }
      }
      AllSeen(start);
      core := -1;
    }

    lemma AllSeen(start: nat)
      requires start < num && forall k :: 0 <= k < num ==> Round(start, k, num) !in Available()
      ensures Available() == {}
    {
      if Available() != {} {
        var c :| c in Available();
        var j := RoundMeets(start, c, num);
      }
    }

    /** Moves the thread to the next available core in the round; with none left the process
        ends. */
    method MigrateCurrent() returns (core: Option<nat>, ghost j: nat)
      requires Valid()
      modifies this`cursor
      ensures core.Some? <==> Available() != {}
      ensures core.None? ==> cursor == old(cursor)
      ensures core.Some? ==>
        core.value in Available() && core.value < num && j < num && core.value == Round(old(Start()), j, num) &&
        (forall i :: 0 <= i < j ==> Round(old(Start()), i, num) !in Available()) &&
        cursor == Round(old(Start()), j + 1, num)
    {
      hide Cores, Round;
      j := 0;
      AvailableSize();
      if numBlacklisted >= num {
        return None, 0;
      }
      var c;
      c, j := NextAvailable();
      core := Some(c);
    }

    /** The same, but never to this core, and always to the lowest one that will do. */
    method MigrateExcluding(exclude: int) returns (core: Option<nat>)
      requires Valid()
      ensures core.Some? ==> core.value < num
      ensures var choice := if 0 <= exclude < num then Available() - {exclude} else Available();
              (core.Some? <==> choice != {}) &&
              (core.Some? ==> core.value in choice && forall c :: c in choice ==> core.value <= c)
    {
      var choice := Available();
      if 0 <= exclude < num {
        choice := choice - {exclude};
      }
      if choice == {} {
        return None;
      }
      for i := 0 to num
        invariant forall k :: 0 <= k < i ==> k !in choice
      {
        if i in choice {
          return Some(i);
        }
      }
      core := None;
    }

    /** Takes the blacklisted cores out of an affinity mask; is one of ours left? */
    method ApplyBlacklist(mask: set<nat>) returns (left: bool, after: set<nat>)
      requires Valid()
      ensures after == mask - blacklist
      ensures left <==> exists c :: c in after && c < num
    {
      left, after := false, mask;
      ghost var one := 0;
      for i := 0 to num
        invariant after == mask - (set c | c in blacklist && c < i)
        invariant left ==> one in after && one < i
        invariant !left ==> forall c :: c in after ==> c >= i
      {
        if i in blacklist {
          after := after - {i};
        }
        if i in after {
          left := true;
          one := i;
        }
      }
      assert (set c | c in blacklist && c < num) == blacklist;
    }
  }

  // ------------------------------------------------------------ round robin

  /** The available cores among the first e places after start. */
  ghost predicate TakenUpto(cores: set<nat>, n: nat, start: nat, e: nat, picks: seq<nat>)
    requires start < n && e <= n
  {
    (forall i :: 0 <= i < |picks| ==> picks[i] in cores) &&
    (forall j :: 0 <= j < e && Round(start, j, n) in cores ==> Round(start, j, n) in picks) &&
    (forall i :: 0 <= i < |picks| ==> Among(start, e, n, picks[i])) &&
    forall i, k :: 0 <= i < k < |picks| ==> picks[i] != picks[k]
  }

  ghost predicate Among(start: nat, e: nat, n: nat, c: nat)
    requires start < n && e <= n
  {
    exists j :: 0 <= j < e && Round(start, j, n) == c
  }

  lemma {:induction false} DistinctSize<T>(picks: seq<T>, s: set<T>)
    requires forall i :: 0 <= i < |picks| ==> picks[i] in s
    requires forall i, k :: 0 <= i < k < |picks| ==> picks[i] != picks[k]
    ensures |picks| <= |s|
    ensures |picks| == |s| ==> forall c :: c in s ==> c in picks
  {
    if picks == [] {
    } else {
      var last, rest := picks[|picks| - 1], picks[..|picks| - 1];
      DistinctSize(rest, s - {last});
      if |picks| == |s| {
        forall c | c in s
          ensures c in picks
        {
          assert c == last || c in rest;
        }
      }
    }
  }

  lemma NotAmong(start: nat, e: nat, j: nat, n: nat)
    requires start < n && e <= j < n
    ensures !Among(start, e, n, Round(start, j, n))
  {
    hide Round;
    forall i | 0 <= i < e
      ensures Round(start, i, n) != Round(start, j, n)
    {
      if Round(start, i, n) == Round(start, j, n) {
        RoundOnce(start, i, j, n);
      }
    }
  }

  /** One selection moves on to the next available place. */
  lemma TakenNext(cores: set<nat>, n: nat, start: nat, e: nat, picks: seq<nat>, j: nat, core: nat)
    requires start < n && e + j < n && TakenUpto(cores, n, start, e, picks)
    requires core in cores && core == Round(start, e + j, n)
    requires forall i :: e <= i < e + j ==> Round(start, i, n) !in cores
    ensures TakenUpto(cores, n, start, e + j + 1, picks + [core])
  {
    hide Round, Cores;
    var more := picks + [core];
    assert more[|picks|] == core;
    forall i | 0 <= i < |more|
      ensures Among(start, e + j + 1, n, more[i])
    {
      if i < |picks| {
        assert Among(start, e, n, picks[i]);
      } else {
        assert Round(start, e + j, n) == more[i];
      }
    }
    forall k | 0 <= k < e + j + 1 && Round(start, k, n) in cores
      ensures Round(start, k, n) in more
    {
      assert k < e || k == e + j;
    }
    forall i, k | 0 <= i < k < |more|
      ensures more[i] != more[k]
    {
      if k == |picks| {
        NotAmong(start, e, e + j, n);
        assert Among(start, e, n, picks[i]);
      }
    }
  }

  /** While a core is still to come, the next selection finds one before the circle closes. */
  lemma StillToCome(cores: set<nat>, n: nat, start: nat, e: nat, picks: seq<nat>) returns (j: nat)
    requires start < n && e <= n && TakenUpto(cores, n, start, e, picks) && |picks| < |cores|
    requires forall c :: c in cores ==> c < n
    ensures e <= j < n && Round(start, j, n) in cores
  {
    hide Round;
    DistinctSize(picks, cores);
    var c :| c in cores && c !in picks by { SomeLeft(picks, cores); }
    j := RoundMeets(start, c, n);
  }

  lemma SomeLeft<T>(picks: seq<T>, s: set<T>)
    requires |picks| < |s|
    ensures exists c :: c in s && c !in picks
  {
    if forall c :: c in s ==> c in picks {
      ElementsSize(picks);
      SubsetSize(s, set c | c in picks);
    }
  }

  lemma {:induction false} ElementsSize<T>(picks: seq<T>)
    ensures |set c | c in picks| <= |picks|
  {
    if picks == [] {
    } else {
      var rest := picks[..|picks| - 1];
      ElementsSize(rest);
      assert (set c | c in picks) == (set c | c in rest) + {picks[|picks| - 1]};
    }
  }

  /** With k cores available, any k selections in a row give each of them exactly once,
      wherever the cursor was. */
  method SelectAll(cpus: Cpus) returns (picks: seq<nat>)
    requires cpus.Valid()
    modifies cpus`cursor
    ensures |picks| == |cpus.Available()|
    ensures forall c :: c in cpus.Available() ==> c in picks
    ensures forall i :: 0 <= i < |picks| ==> picks[i] in cpus.Available()
    ensures forall i, k :: 0 <= i < k < |picks| ==> picks[i] != picks[k]
  {
    hide Round, Cores, TakenUpto;
    var count := cpus.AvailableCount();
    ghost var cores, n := cpus.Available(), cpus.num;
    picks := [];
    ghost var start, e: nat := cpus.Start(), 0;
    NoneTaken(cores, n, start);
    while |picks| < count
      invariant |picks| <= count && e <= cpus.num && TakenUpto(cores, n, start, e, picks)
      invariant cpus.Start() == Round(start, e, cpus.num)
      invariant cpus.Valid() && cpus.Available() == cores
    {
      ghost var next := StillToCome(cores, n, start, e, picks);
      var core, j := cpus.NextAvailable();
      Reached(cores, n, start, e, j, next);
      TakenNext(cores, n, start, e, picks, j, core);
      picks := picks + [core];
      e := e + j + 1;
    }
    AllTaken(cores, n, start, e, picks);
  }

  lemma AllTaken(cores: set<nat>, n: nat, start: nat, e: nat, picks: seq<nat>)
    requires start < n && e <= n && TakenUpto(cores, n, start, e, picks) && |picks| == |cores|
    ensures forall c :: c in cores ==> c in picks
    ensures forall i :: 0 <= i < |picks| ==> picks[i] in cores
    ensures forall i, k :: 0 <= i < k < |picks| ==> picks[i] != picks[k]
  {
    hide Round;
    DistinctSize(picks, cores);
  }

  lemma NoneTaken(cores: set<nat>, n: nat, start: nat)
    requires start < n
    ensures TakenUpto(cores, n, start, 0, []) && Round(start, 0, n) == start
  {
    RoundIs(start, 0, n);
  }

  /** The place found, counted from the start of the round. */
  lemma Reached(cores: set<nat>, n: nat, start: nat, e: nat, j: nat, next: nat)
    requires start < n && e <= next < n && Round(start, next, n) in cores && j < n
    requires forall i :: 0 <= i < j ==> Round(Round(start, e, n), i, n) !in cores
    ensures e + j <= next && Round(Round(start, e, n), j, n) == Round(start, e + j, n)
    ensures Round(Round(start, e, n), j + 1, n) == Round(start, e + j + 1, n)
    ensures forall i :: e <= i < e + j ==> Round(start, i, n) !in cores
  {
    hide Round;
    RoundFrom(start, e, next - e, n);
    assert e + j <= next;
    RoundFrom(start, e, j, n);
    RoundFrom(start, e, j + 1, n);
    forall i | e <= i < e + j
      ensures Round(start, i, n) !in cores
    {
      RoundFrom(start, e, i - e, n);
    }
  }

  // --------------------------------------------------------------- retrying

  /** What an attempt comes to: success, an error that is no fault of the core, or a fault. */
  datatype Verdict = Good | Corrupted | Faulty

  /** Attempts until one is not faulty, each on a core that has not failed before; the process
      ends when no core is left, and not earlier.  `verdict` says how attempt k comes out, `cores`
      where it ran. */
  method Retry(cpus: Cpus, first: nat, verdict: nat -> Verdict)
    returns (r: Option<Verdict>, failures: nat, cores: seq<nat>)
    requires cpus.Valid() && first < cpus.num
    modifies cpus
    ensures cpus.Valid() && failures <= cpus.num
    ensures r.Some? ==> r.value == verdict(failures) != Faulty && failures < Need(old(cpus.Available()), first)
    ensures r.None? ==> cpus.Available() == {} && failures == Need(old(cpus.Available()), first)
    ensures forall k :: 0 <= k < failures ==> verdict(k) == Faulty
    ensures cores != [] && cores[0] == first && |cores| == failures + (if r.Some? then 1 else 0)
    ensures Distinct(cores) && cpus.Available() == old(cpus.Available()) - Elements(cores[..failures])
  {
    hide Cores, Need, Cpus.Available, Cpus.Valid, Elements, Distinct;
    failures, cores := 0, [first];
    ghost var start := cpus.Available();
    BoundFits(cpus, first);
    OneCore(first, start);
    while true
      invariant cpus.Valid() && |cores| == failures + 1 && cores[0] == first && cores[failures] < cpus.num
      invariant failures + Need(cpus.Available(), cores[failures]) == Need(start, first)
      invariant forall k :: 0 <= k < failures ==> verdict(k) == Faulty
      invariant Distinct(cores) && cpus.Available() == start - Elements(cores[..failures])
      decreases Need(cpus.Available(), cores[failures])
    {
      ghost var before, core: nat := cpus.Available(), cores[failures];
      NeedsOne(before, core);
      if verdict(failures) != Faulty {
        return Some(verdict(failures)), failures, cores;
      }
      var next := GiveUp(cpus, cores[failures]);
      CoreFailed(cores, start);
      failures := failures + 1;
      if next.None? {
        LastOne(before, core);
        return None, failures, cores;
      }
      NeedDrops(before, core, next.value);
      NextCore(cores, start, next.value);
      cores := cores + [next.value];
    }
  }

  ghost function Elements(cores: seq<nat>): set<nat> {
    set c | c in cores
  }

  ghost predicate Distinct(cores: seq<nat>) {
    forall i, k :: 0 <= i < k < |cores| ==> cores[i] != cores[k]
  }

  lemma OneCore(first: nat, start: set<nat>)
    ensures Distinct([first]) && start - Elements([first][..0]) == start
  {
  }

  /** Taking out the last core as well takes out all of them. */
  lemma CoreFailed(cores: seq<nat>, start: set<nat>)
    requires cores != []
    ensures var n := |cores| - 1;
            start - Elements(cores[..n]) - {cores[n]} == start - Elements(cores[..n + 1]) && cores[..n + 1] == cores
  {
    var n := |cores| - 1;
    assert cores[..n] + [cores[n]] == cores;
  }

  /** A core that is still available is a new one. */
  lemma NextCore(cores: seq<nat>, start: set<nat>, next: nat)
    requires Distinct(cores) && next in start - Elements(cores)
    ensures Distinct(cores + [next]) && (cores + [next])[..|cores|] == cores
  {
    forall i | 0 <= i < |cores|
      ensures cores[i] != next
    {
      assert cores[i] in Elements(cores);
    }
  }

  /** Blacklists the core of a failed attempt and moves on. */
  method GiveUp(cpus: Cpus, core: nat) returns (next: Option<nat>)
    requires cpus.Valid() && core < cpus.num
    modifies cpus
    ensures cpus.Valid() && cpus.Available() == old(cpus.Available()) - {core}
    ensures next.Some? <==> cpus.Available() != {}
    ensures next.Some? ==> next.value in cpus.Available() && next.value < cpus.num
  {
    hide Cores, Round;
    cpus.BlacklistCore(core);
    assert cpus.Available() == old(cpus.Available()) - {core};
    ghost var j;
    next, j := cpus.MigrateCurrent();
  }

  /** How many attempts there can be from core c on, with cores s available. */
  ghost function Need(s: set<nat>, c: nat): nat {
    |s| + (if c in s then 0 else 1)
  }

  lemma NeedsOne(s: set<nat>, c: nat)
    ensures Need(s, c) >= 1
  {
    if c in s {
      assert s != {};
    }
  }

  lemma NeedDrops(s: set<nat>, c: nat, next: nat)
    requires next in s - {c}
    ensures Need(s - {c}, next) + 1 == Need(s, c)
  {
    if c !in s {
      assert s - {c} == s;
    }
  }

  lemma LastOne(s: set<nat>, c: nat)
    requires s - {c} == {}
    ensures Need(s, c) == 1
  {
    if c in s {
      assert s == {c};
    } else {
      assert s == {};
    }
  }

  lemma BoundFits(cpus: Cpus, first: nat)
    requires cpus.Valid() && first < cpus.num
    ensures Need(cpus.Available(), first) <= cpus.num
  {
    CoresSize(cpus.num);
    if first in cpus.Available() {
      SubsetSize(cpus.Available(), Cores(cpus.num));
    } else {
      SubsetSize(cpus.Available(), Cores(cpus.num) - {first});
    }
  }

  /** The same when the second phase runs on another core and both cores are blacklisted after a
      fault.  Each failure but the first costs two cores; the process also ends when the only
      core left is the one the first phase runs on. */
  method RetryMigrating(cpus: Cpus, first: nat, verdict: nat -> Verdict)
    returns (r: Option<Verdict>, failures: nat, core: nat)
    requires cpus.Valid() && first < cpus.num
    modifies cpus
    ensures cpus.Valid()
    ensures r.Some? ==> r.value == verdict(failures) != Faulty && failures < Need(old(cpus.Available()), first) / 2
    ensures r.Some? ==> 2 * failures + Need(cpus.Available(), core) == Need(old(cpus.Available()), first)
    ensures r.None? ==> |cpus.Available()| <= 1 && failures == Need(old(cpus.Available()), first) / 2
    ensures forall k :: 0 <= k < failures ==> verdict(k) == Faulty
  {
    hide Cores, Need, Cpus.Available, Cpus.Valid;
    failures, core := 0, first;
    ghost var bound := Need(cpus.Available(), first);
    while true
      invariant cpus.Valid() && core < cpus.num
      invariant 2 * failures + Need(cpus.Available(), core) == bound
      invariant forall k :: 0 <= k < failures ==> verdict(k) == Faulty
      decreases Need(cpus.Available(), core)
    {
      var other := SecondCore(cpus, core);
      if other.None? {
        return None, failures, core;
      }
      if verdict(failures) != Faulty {
        return Some(verdict(failures)), failures, core;
      }
      var next := GiveUpBoth(cpus, core, other.value);
      failures := failures + 1;
      if next.None? {
        return None, failures, core;
      }
      core := next.value;
    }
  }

  /** Moves the second phase of an attempt to another core, if there is one. */
  method SecondCore(cpus: Cpus, core: nat) returns (other: Option<nat>)
    requires cpus.Valid() && core < cpus.num
    ensures other.None? ==> |cpus.Available()| <= 1 && Need(cpus.Available(), core) == 1
    ensures other.Some? ==> other.value in cpus.Available() && other.value < cpus.num && other.value != core
    ensures other.Some? ==> Need(cpus.Available(), core) >= 2
  {
    hide Cores, Cpus.Available, Need;
    other := cpus.MigrateExcluding(core);
    if other.None? {
      AtMostOne(cpus.Available(), core);
      LastOne(cpus.Available(), core);
    } else {
      BothDrop(cpus.Available(), core, other.value);
    }
  }

  /** Blacklists both cores of a failed attempt and moves on. */
  method GiveUpBoth(cpus: Cpus, core: nat, other: nat) returns (next: Option<nat>)
    requires cpus.Valid() && core < cpus.num && other < cpus.num && other in cpus.Available() && other != core
    modifies cpus
    ensures cpus.Valid() && cpus.Available() == old(cpus.Available()) - {core} - {other}
    ensures next.None? ==> |cpus.Available()| <= 1 && old(Need(cpus.Available(), core)) == 2
    ensures next.Some? ==>
      next.value < cpus.num && Need(cpus.Available(), next.value) + 2 == old(Need(cpus.Available(), core))
  {
    hide Cores, Need, Round;
    ghost var before := cpus.Available();
    BothDrop(before, core, other);
    cpus.BlacklistCore(core);
    cpus.BlacklistCore(other);
    assert cpus.Available() == before - {core} - {other};
    ghost var j;
    next, j := cpus.MigrateCurrent();
    if next.Some? {
      NeedIs(cpus.Available(), next.value);
    }
  }

  lemma NeedIs(s: set<nat>, c: nat)
    ensures Need(s, c) == |s| + (if c in s then 0 else 1)
  {
  }

  lemma AtMostOne(s: set<nat>, c: nat)
    requires s - {c} == {}
    ensures |s| <= 1
  {
    if c in s {
      assert s == {c};
    } else {
      assert s == {};
    }
  }

  lemma BothDrop(s: set<nat>, c: nat, other: nat)
    requires other in s && other != c
    ensures |s - {c} - {other}| + 2 == Need(s, c)
  {
    if c !in s {
      assert s - {c} == s;
    }
  }
}
