/** memreplace.c's LRU: one 8-bit counter per page, set from a global 8-bit counter at each access. */
module LruCounters {
  import opened PageBits
  import Lru
  import opened Sequences

  /** The counters start again from 0 after 255. */
  const WRAP := 256

  datatype State = State(table: seq<bv8>, counters: seq<nat>, clock: nat, replacements: nat)

  /** ++globalCounter, for a counter with `wrap` values; 0 stands for an unbounded one. */
  function Tick(clock: nat, wrap: nat): nat {
    if clock + 1 == wrap then 0 else clock + 1
  }

  /**
    The place of the smallest counter among the valid ones of the first n pages, the first if there are several; -1 if
    none is valid.
  */
  function Oldest(table: seq<bv8>, counters: seq<nat>, n: nat): (v: int)
    requires n <= |table| == |counters|
    ensures -1 <= v < n
    ensures v == -1 <==> forall i :: 0 <= i < n ==> !Valid(table[i])
    ensures v != -1 ==> Valid(table[v])
    ensures v != -1 ==> forall i :: 0 <= i < n && Valid(table[i]) ==>
                          counters[v] < counters[i] || (counters[v] == counters[i] && v <= i)
  {
    if n == 0 then -1
    else
      var v := Oldest(table, counters, n - 1);
      if Valid(table[n - 1]) && (v == -1 || counters[n - 1] < counters[v]) then n - 1 else v
  }

  ghost predicate Shaped(s: State) {
    |s.table| == NB_PAGES && |s.counters| == NB_PAGES
  }

  /** One access to page p. */
  function Access(s: State, p: nat, wrap: nat): State
    requires |s.table| == NB_PAGES && |s.counters| == NB_PAGES && p < NB_PAGES
    requires Oldest(s.table, s.counters, NB_PAGES) != -1
  {
    var clock := Tick(s.clock, wrap);
    if Valid(s.table[p]) then s.(counters := s.counters[p := clock], clock := clock)
    else
      var v := Oldest(s.table, s.counters, NB_PAGES);
      var table := s.table[v := Evicted(s.table[v])];
      State(table[p := MadeValid(SwapCleared(table[p]))], s.counters[p := clock], clock, s.replacements + 1)
  }

  class Simulator {
    var page_table: array<bv8>
    var counters: array<nat>
    var globalCounter: nat
    ghost var replacements: nat

    ghost predicate Ready()
      reads this, page_table, counters
    {
      && page_table.Length == NB_PAGES && counters.Length == NB_PAGES && page_table as object != counters
      && globalCounter < WRAP && forall i :: 0 <= i < NB_PAGES ==> counters[i] < WRAP
    }

    ghost function View(): State
      reads this, page_table, counters
    {
      State(page_table[..], counters[..], globalCounter, replacements)
    }

    constructor ()
      ensures Ready() && fresh(page_table) && fresh(counters)
      ensures Initial(page_table[..]) && counters[..] == seq(NB_PAGES, i => 0) && globalCounter == 0
      ensures replacements == 0
    {
      page_table := new bv8[NB_PAGES](i => 0);
      counters := new nat[NB_PAGES](i => 0);
      globalCounter, replacements := 0, 0;
      new;
      InitPageTable(page_table);
    }

    /** replaceLRU; false where the code exits because no page is valid. */
    method ReplaceLru() returns (found: bool)
      requires Ready()
      modifies page_table, this`replacements
      ensures Ready() && found == (Oldest(old(page_table[..]), counters[..], NB_PAGES) != -1)
      ensures !found ==> page_table[..] == old(page_table[..]) && replacements == old(replacements)
      ensures found ==> var v := Oldest(old(page_table[..]), counters[..], NB_PAGES);
                        page_table[..] == old(page_table[..])[v := Evicted(old(page_table[..])[v])]
                        && replacements == old(replacements) + 1
    {
      var toReplace := -1;
      var i := 0;
      while i < NB_PAGES
        invariant 0 <= i <= NB_PAGES && toReplace == Oldest(page_table[..], counters[..], i)
      {
        if Valid(page_table[i]) && (toReplace == -1 || counters[i] < counters[toReplace]) {
          toReplace := i;
        }
        i := i + 1;
      }
      if toReplace == -1 {
        return false;
      }
      page_table[toReplace] := Evicted(page_table[toReplace]);
      replacements := replacements + 1;
      return true;
    }

    /** incCompteur, for a page in range. */
    method IncCompteur(page_no: int)
      requires Ready()
      modifies this`globalCounter, counters
      ensures Ready()
      ensures 0 <= page_no < NB_PAGES ==>
                && globalCounter == Tick(old(globalCounter), WRAP)
                && counters[..] == old(counters[..])[page_no := globalCounter]
      ensures !(0 <= page_no < NB_PAGES) ==> globalCounter == old(globalCounter) && counters[..] == old(counters[..])
    {
      if 0 <= page_no < NB_PAGES {
        globalCounter := (globalCounter + 1) % WRAP;
        counters[page_no] := globalCounter;
      }
    }

    /** The LRU branch of main's loop: false where the code exits. A page number out of range is only reported. */
    method AccessPage(page_no: int) returns (ok: bool)
      requires Ready()
      modifies this`globalCounter, this`replacements, page_table, counters
      ensures Ready()
      ensures !(0 <= page_no < NB_PAGES) ==> ok && View() == old(View())
      ensures 0 <= page_no < NB_PAGES && Oldest(old(page_table[..]), old(counters[..]), NB_PAGES) != -1 ==>
                ok && View() == Access(old(View()), page_no, WRAP)
      ensures 0 <= page_no < NB_PAGES && Oldest(old(page_table[..]), old(counters[..]), NB_PAGES) == -1 ==>
                !ok && View() == old(View())
    {
      if 0 <= page_no <= 15 {
        if !Valid(page_table[page_no]) {
          ok := ReplaceLru();
          if !ok {
            return;
          }
          page_table[page_no] := SwapCleared(page_table[page_no]);
          page_table[page_no] := MadeValid(page_table[page_no]);
        }
        IncCompteur(page_no);
      }
      return true;
    }
  }

  // ---------------------------------------------------------------- counters against recency

  predicate Earlier(counters: seq<nat>, p: nat, q: nat)
    requires p < |counters| && q < |counters|
  {
    counters[p] < counters[q] || (counters[p] == counters[q] && p < q)
  }

  ghost predicate Ordered(counters: seq<nat>, r: seq<nat>) {
    && (forall i :: 0 <= i < |r| ==> r[i] < |counters|)
    && (forall i, j :: 0 <= i < j < |r| ==> Earlier(counters, r[i], r[j]))
  }

  /** The valid pages are those of r, a recency list: their counters grow along it, and none is above the clock. */
  ghost predicate Agrees(s: State, r: seq<nat>) {
    && Shaped(s)
    && (forall q: nat :: q in r <==> q < NB_PAGES && Valid(s.table[q]))
    && Ordered(s.counters, r)
    && (forall q :: 0 <= q < NB_PAGES ==> s.counters[q] <= s.clock)
  }

  lemma OrderedNoDup(counters: seq<nat>, r: seq<nat>)
    requires Ordered(counters, r)
    ensures NoDup(r)
  {
  }

  lemma {:induction false} RemoveOrdered(counters: seq<nat>, r: seq<nat>, p: nat)
    requires Ordered(counters, r)
    ensures Ordered(counters, Lru.Remove(r, p))
  {
    if r != [] {
      var rest := Lru.Remove(r[1..], p);
      RemoveOrdered(counters, r[1..], p);
      if r[0] != p {
        var r' := [r[0]] + rest;
        forall i, j | 0 <= i < j < |r'| ensures Earlier(counters, r'[i], r'[j]) {
          if i == 0 {
            assert r'[j] in rest;
            var k :| 0 <= k < |r[1..]| && r[1..][k] == r'[j];
            assert Earlier(counters, r[0], r[k + 1]);
          }
        }
      }
    }
  }

  /** The page the counters call oldest is the least recently used one. */
  lemma OldestIsFirst(s: State, r: seq<nat>)
    requires Agrees(s, r) && r != []
    ensures Oldest(s.table, s.counters, NB_PAGES) == r[0]
  {
    assert r[0] in r;
    var v := Oldest(s.table, s.counters, NB_PAGES);
    assert v in r;
    var k :| 0 <= k < |r| && r[k] == v;
    assert k == 0 || Earlier(s.counters, r[0], r[k]);
  }

  /** Whatever the counters do next, this access leaves the pages LRU would. */
  lemma StepResidents(s: State, r: seq<nat>, p: nat, wrap: nat)
    requires Agrees(s, r) && r != [] && p < NB_PAGES
    ensures Oldest(s.table, s.counters, NB_PAGES) == r[0]
    ensures forall q: nat :: q in Lru.Access(r, p) <==> q < NB_PAGES && Valid(Access(s, p, wrap).table[q])
    ensures Access(s, p, wrap).replacements == s.replacements + (if p in r then 0 else 1)
  {
    OldestIsFirst(s, r);
    OrderedNoDup(s.counters, r);
    var table := Access(s, p, wrap).table;
    if p !in r {
      forall q: nat ensures q in Lru.Access(r, p) <==> q < NB_PAGES && Valid(table[q]) {
        TailMembers(r, q);
        assert q in r[1..] + [p] <==> q in r[1..] || q == p;
        assert q in r <==> q < NB_PAGES && Valid(s.table[q]);
      }
    } else {
      forall q: nat ensures q in Lru.Access(r, p) <==> q < NB_PAGES && Valid(table[q]) {
        assert q in Lru.Remove(r, p) + [p] <==> q in Lru.Remove(r, p) || q == p;
      }
    }
  }

  lemma TailMembers(r: seq<nat>, q: nat)
    requires NoDup(r) && r != []
    ensures q in r[1..] <==> q in r && q != r[0]
  {
  }

  lemma AppendOrdered(counters: seq<nat>, r: seq<nat>, p: nat, clock: nat)
    requires Ordered(counters, r) && p < |counters| && p !in r
    requires forall i :: 0 <= i < |r| ==> counters[r[i]] < clock
    ensures Ordered(counters[p := clock], r + [p])
  {
  }

  /** An access that does not wrap the clock is an access of LRU. */
  lemma StepAgrees(s: State, r: seq<nat>, p: nat, wrap: nat)
    requires Agrees(s, r) && r != [] && p < NB_PAGES && s.clock + 1 != wrap
    ensures Oldest(s.table, s.counters, NB_PAGES) == r[0]
    ensures Agrees(Access(s, p, wrap), Lru.Access(r, p))
  {
    StepResidents(s, r, p, wrap);
    AccessOrdered(s, r, p);
  }

  lemma AccessOrdered(s: State, r: seq<nat>, p: nat)
    requires Agrees(s, r) && r != [] && p < NB_PAGES
    ensures Ordered(s.counters[p := s.clock + 1], Lru.Access(r, p))
  {
    var kept := if p in r then Lru.Remove(r, p) else r[1..];
    KeptOrdered(s, r, p);
    AppendOrdered(s.counters, kept, p, s.clock + 1);
  }

  lemma KeptOrdered(s: State, r: seq<nat>, p: nat)
    requires Agrees(s, r) && r != [] && p < NB_PAGES
    ensures var kept := if p in r then Lru.Remove(r, p) else r[1..];
            p !in kept && Ordered(s.counters, kept) && forall i :: 0 <= i < |kept| ==> s.counters[kept[i]] <= s.clock
  {
    RemoveOrdered(s.counters, r, p);
    TailOrdered(s.counters, r);
  }

  lemma TailOrdered(counters: seq<nat>, r: seq<nat>)
    requires Ordered(counters, r) && r != []
    ensures Ordered(counters, r[1..])
  {
  }

  // ---------------------------------------------------------------- whole runs

  ghost predicate InRange(accesses: seq<nat>) {
    forall i :: 0 <= i < |accesses| ==> accesses[i] < NB_PAGES
  }

  ghost predicate CanRun(s: State, accesses: seq<nat>, wrap: nat)
    decreases |accesses|
  {
    Shaped(s) && (accesses != [] ==>
      && accesses[0] < NB_PAGES && Oldest(s.table, s.counters, NB_PAGES) != -1
      && CanRun(Access(s, accesses[0], wrap), accesses[1..], wrap))
  }

  ghost function Run(s: State, accesses: seq<nat>, wrap: nat): (end: State)
    requires CanRun(s, accesses, wrap)
    ensures Shaped(end)
    decreases |accesses|
  {
    if accesses == [] then s else Run(Access(s, accesses[0], wrap), accesses[1..], wrap)
  }

  /**
    With unbounded counters (wrap 0), or before the clock wraps, the simulator is LRU and replaces exactly on LRU's
    faults.
  */
  lemma {:induction false} RunAgrees(s: State, r: seq<nat>, accesses: seq<nat>, wrap: nat)
    requires Agrees(s, r) && r != [] && InRange(accesses)
    requires wrap == 0 || s.clock + |accesses| < wrap
    ensures CanRun(s, accesses, wrap) && Agrees(Run(s, accesses, wrap), Lru.Run(r, accesses))
    ensures Run(s, accesses, wrap).clock == s.clock + |accesses|
    ensures Run(s, accesses, wrap).replacements == s.replacements + Lru.Faults(r, accesses)
    decreases |accesses|
  {
    if accesses != [] {
      StepAgrees(s, r, accesses[0], wrap);
      StepResidents(s, r, accesses[0], wrap);
      RunAgrees(Access(s, accesses[0], wrap), Lru.Access(r, accesses[0]), accesses[1..], wrap);
    }
  }

  // ---------------------------------------------------------------- the entries

  /** On a miss the page comes in and leaves swap, the oldest page goes out to swap, and no other entry changes. */
  lemma AccessedEntry(s: State, p: nat, wrap: nat, i: nat)
    requires Shaped(s) && p < NB_PAGES && i < NB_PAGES && Oldest(s.table, s.counters, NB_PAGES) != -1
    ensures var e, a := s.table[i], Access(s, p, wrap).table[i];
            if Valid(s.table[p]) then a == e
            else if i == p then a == (e & 0xFD) | 0x01
            else if i == Oldest(s.table, s.counters, NB_PAGES) then a == (e & 0xFE) | 0x02
            else a == e
  {
  }

  /**
    Every entry has its page number and no reference bit, in RAM and in swap exclude each other, and the pages in
    either are 0 to 3 and those seen.
  */
  ghost predicate Entries(table: seq<bv8>, seen: set<nat>) {
    && |table| == NB_PAGES
    && forall i :: 0 <= i < NB_PAGES ==> EntryOk(table[i], i, seen)
  }

  ghost predicate EntryOk(e: bv8, i: nat, seen: set<nat>)
    requires i < NB_PAGES
  {
    && e & PAGE_NB_MASK == PageNumber(i) && !Referenced(e) && !(Valid(e) && Swapped(e))
    && (Valid(e) || Swapped(e) <==> i <= 3 || i in seen)
  }

  lemma EntryIn(e: bv8, p: nat, seen: set<nat>)
    requires p < NB_PAGES && EntryOk(e, p, seen)
    ensures EntryOk(MadeValid(SwapCleared(e)), p, seen + {p})
  {
  }

  lemma EntryOut(e: bv8, v: nat, seen: set<nat>, p: nat)
    requires v < NB_PAGES && v != p && EntryOk(e, v, seen) && Valid(e)
    ensures EntryOk(Evicted(e), v, seen + {p})
  {
  }

  lemma EntryStays(e: bv8, i: nat, seen: set<nat>, p: nat)
    requires i < NB_PAGES && EntryOk(e, i, seen) && (i == p ==> Valid(e))
    ensures EntryOk(e, i, seen + {p})
  {
  }

  lemma EntryKept(e: bv8, a: bv8, i: nat, p: nat, hit: bool, out: bool, seen: set<nat>)
    requires i < NB_PAGES && EntryOk(e, i, seen) && (i == p ==> (hit <==> Valid(e))) && (out ==> Valid(e))
    requires a == if hit then e else if i == p then MadeValid(SwapCleared(e)) else if out then Evicted(e) else e
    ensures EntryOk(a, i, seen + {p})
  {
    if hit || (i != p && !out) {
      EntryStays(e, i, seen, p);
    } else if i == p {
      EntryIn(e, p, seen);
    } else {
      EntryOut(e, i, seen, p);
    }
  }

  lemma StepKeepsEntries(s: State, p: nat, wrap: nat, seen: set<nat>)
    requires Shaped(s) && p < NB_PAGES && Oldest(s.table, s.counters, NB_PAGES) != -1 && Entries(s.table, seen)
    ensures Entries(Access(s, p, wrap).table, seen + {p})
  {
    forall i | 0 <= i < NB_PAGES ensures EntryOk(Access(s, p, wrap).table[i], i, seen + {p}) {
      assert EntryOk(s.table[i], i, seen);
      EntryKept(s.table[i], Access(s, p, wrap).table[i], i, p, Valid(s.table[p]),
                i == Oldest(s.table, s.counters, NB_PAGES), seen);
    }
  }

  ghost function Accessed(accesses: seq<nat>): set<nat> {
    set p | p in accesses
  }

  lemma AccessedSplit(seen: set<nat>, accesses: seq<nat>)
    ensures accesses == [] ==> seen + Accessed(accesses) == seen
    ensures accesses != [] ==> seen + {accesses[0]} + Accessed(accesses[1..]) == seen + Accessed(accesses)
  {
  }

  lemma {:induction false} RunKeepsEntries(s: State, accesses: seq<nat>, wrap: nat, seen: set<nat>)
    requires CanRun(s, accesses, wrap) && Entries(s.table, seen)
    ensures Entries(Run(s, accesses, wrap).table, seen + Accessed(accesses))
    decreases |accesses|
  {
    AccessedSplit(seen, accesses);
    if accesses != [] {
      var s' := Access(s, accesses[0], wrap);
      StepKeepsEntries(s, accesses[0], wrap, seen);
      RunKeepsEntries(s', accesses[1..], wrap, seen + {accesses[0]});
    }
  }

  /** So it is in every run from the start, past the wrap of the clock too. */
  lemma BootEntries(s: State, accesses: seq<nat>)
    requires Boot(s) && CanRun(s, accesses, WRAP)
    ensures Entries(Run(s, accesses, WRAP).table, Accessed(accesses))
  {
    assert Entries(s.table, {});
    RunKeepsEntries(s, accesses, WRAP, {});
    assert {} + Accessed(accesses) == Accessed(accesses);
  }

  /** The state main starts from. */
  ghost predicate Boot(s: State) {
    Initial(s.table) && s.counters == seq(NB_PAGES, i => 0) && s.clock == 0 && s.replacements == 0
  }

  lemma BootAgrees(s: State)
    requires Boot(s)
    ensures Agrees(s, [0, 1, 2])
  {
  }

  lemma RunFirst(s: State, p: nat, rest: seq<nat>, wrap: nat)
    requires Shaped(s) && p < NB_PAGES && Oldest(s.table, s.counters, NB_PAGES) != -1
    requires CanRun(Access(s, p, wrap), rest, wrap)
    ensures CanRun(s, [p] + rest, wrap) && Run(s, [p] + rest, wrap) == Run(Access(s, p, wrap), rest, wrap)
  {
    assert ([p] + rest)[1..] == rest;
  }

  lemma FirstOfBoth(a: seq<nat>, b: seq<nat>)
    requires a != []
    ensures a + b == [a[0]] + (a[1..] + b) && (a + b)[1..] == a[1..] + b
  {
  }

  lemma {:induction false} RunSplit(s: State, a: seq<nat>, b: seq<nat>, wrap: nat)
    requires CanRun(s, a, wrap) && CanRun(Run(s, a, wrap), b, wrap)
    ensures CanRun(s, a + b, wrap) && Run(s, a + b, wrap) == Run(Run(s, a, wrap), b, wrap)
    decreases |a|
  {
    if a == [] {
      assert a + b == b;
    } else {
      RunSplit(Access(s, a[0], wrap), a[1..], b, wrap);
      RunFirst(s, a[0], a[1..] + b, wrap);
      FirstOfBoth(a, b);
    }
  }

  lemma {:induction false} LruRunSplit(r: seq<nat>, a: seq<nat>, b: seq<nat>)
    requires r != []
    ensures Lru.Run(r, a) != [] && Lru.Run(r, a + b) == Lru.Run(Lru.Run(r, a), b)
    ensures Lru.Faults(r, a + b) == Lru.Faults(r, a) + Lru.Faults(Lru.Run(r, a), b)
    decreases |a|
  {
    if a == [] {
      assert a + b == b;
    } else {
      FirstOfBoth(a, b);
      LruRunSplit(Lru.Access(r, a[0]), a[1..], b);
    }
  }

  ghost predicate SameResidents(s: State, r: seq<nat>) {
    Shaped(s) && forall q: nat :: q in r <==> q < NB_PAGES && Valid(s.table[q])
  }

  /** Up to and including the access that wraps the clock, the resident pages and the replacements are LRU's. */
  lemma FirstLap(s: State, r: seq<nat>, accesses: seq<nat>, wrap: nat)
    requires Agrees(s, r) && r != [] && s.clock == 0 && InRange(accesses)
    requires wrap == 0 || |accesses| <= wrap
    ensures CanRun(s, accesses, wrap) && SameResidents(Run(s, accesses, wrap), Lru.Run(r, accesses))
    ensures Run(s, accesses, wrap).replacements == s.replacements + Lru.Faults(r, accesses)
  {
    if |accesses| == wrap && accesses != [] {
      var a, p := accesses[..|accesses| - 1], accesses[|accesses| - 1];
      assert accesses == a + [p];
      RunAgrees(s, r, a, wrap);
      var s1, r1 := Run(s, a, wrap), Lru.Run(r, a);
      LruRunSplit(r, a, [p]);
      StepResidents(s1, r1, p, wrap);
      OneAccess(s1, r1, p, wrap);
      RunSplit(s, a, [p], wrap);
    } else {
      RunAgrees(s, r, accesses, wrap);
    }
  }

  lemma OneAccess(s: State, r: seq<nat>, p: nat, wrap: nat)
    requires Shaped(s) && r != [] && p < NB_PAGES && Oldest(s.table, s.counters, NB_PAGES) != -1
    ensures CanRun(s, [p], wrap) && Run(s, [p], wrap) == Access(s, p, wrap)
    ensures Lru.Run(r, [p]) == Lru.Access(r, p) && Lru.Faults(r, [p]) == (if p in r then 0 else 1)
  {
  }

  /** The replacements of the first lap are at most k times the faults of any policy with k frames. */
  lemma SimulatorIsCompetitive(s: State, r: seq<nat>, accesses: seq<nat>, sets: seq<set<nat>>, wrap: nat)
    requires Agrees(s, r) && r != [] && s.clock == 0 && InRange(accesses)
    requires wrap == 0 || |accesses| <= wrap
    requires Lru.Policy(sets, accesses, |r|) && forall q :: q in r ==> q in sets[0]
    ensures CanRun(s, accesses, wrap)
    ensures Run(s, accesses, wrap).replacements - s.replacements <= |r| * Lru.PolicyFaults(sets, accesses)
  {
    OrderedNoDup(s.counters, r);
    FirstLap(s, r, accesses, wrap);
    Lru.Competitive(r, accesses, sets);
  }

  // ---------------------------------------------------------------- where 8 bits stop being enough

  /** After every access of the run the resident pages are LRU's. */
  ghost predicate LruThroughout(s: State, accesses: seq<nat>) {
    forall m :: 0 <= m <= |accesses| ==> LruAfter(s, accesses[..m])
  }

  ghost predicate LruAfter(s: State, accesses: seq<nat>) {
    CanRun(s, accesses, WRAP) && SameResidents(Run(s, accesses, WRAP), Lru.Run([0, 1, 2], accesses))
  }

  function Repeat(p: nat, n: nat): (r: seq<nat>)
    ensures |r| == n && forall i :: 0 <= i < n ==> r[i] == p
  {
    if n == 0 then [] else [p] + Repeat(p, n - 1)
  }

  lemma {:induction false} LastPageAgain(n: nat)
    ensures Lru.Run([0, 1, 2], Repeat(2, n)) == [0, 1, 2]
  {
    if n > 0 {
      assert Lru.Remove([0, 1, 2], 2) == [0] + Lru.Remove([1, 2], 2);
      assert Lru.Remove([1, 2], 2) == [1] + Lru.Remove([2], 2);
      assert Lru.Access([0, 1, 2], 2) == [0, 1, 2];
      assert Repeat(2, n)[1..] == Repeat(2, n - 1);
      LastPageAgain(n - 1);
    }
  }

  /** Page 2 n times, then page 0, then a page that is not resident. */
  function Witness(n: nat): seq<nat> {
    Repeat(2, n) + [0] + [3]
  }

  /** At clock 255 an access to page 0 sets its counter to 0, so the next replacement takes it. */
  lemma AfterWrap(s: State)
    requires Agrees(s, [0, 1, 2]) && s.clock == 255 && Oldest(s.table, s.counters, NB_PAGES) != -1
    ensures var s' := Access(s, 0, WRAP);
            Oldest(s'.table, s'.counters, NB_PAGES) == 0 && !Valid(s'.table[3]) && !Valid(Access(s', 3, WRAP).table[0])
  {
    assert 0 in [0, 1, 2] && 3 !in [0, 1, 2];
    var s' := Access(s, 0, WRAP);
    assert s'.counters[0] == 0 && s'.table == s.table;
  }

  lemma LruKeepsPage0()
    ensures Lru.Access([0, 1, 2], 0) == [1, 2, 0] && Lru.Access([1, 2, 0], 3) == [2, 0, 3]
  {
  }

  lemma WitnessInRange(n: nat)
    ensures |Witness(n)| == n + 2 && InRange(Witness(n))
  {
  }

  lemma WitnessRuns(s: State, n: nat)
    requires Agrees(s, [0, 1, 2]) && s.clock == 0 && n == WRAP - 1
    ensures CanRun(s, Witness(n), WRAP) && !Valid(Run(s, Witness(n), WRAP).table[0])
    ensures Lru.Run([0, 1, 2], Witness(n)) == [2, 0, 3]
  {
    var a := Repeat(2, n);
    RunAgrees(s, [0, 1, 2], a, WRAP);
    LastPageAgain(n);
    WitnessEnds(s, a, Run(s, a, WRAP));
  }

  lemma WitnessEnds(s: State, a: seq<nat>, s1: State)
    requires CanRun(s, a, WRAP) && Run(s, a, WRAP) == s1 && Lru.Run([0, 1, 2], a) == [0, 1, 2]
    requires Agrees(s1, [0, 1, 2]) && s1.clock == WRAP - 1
    ensures CanRun(s, a + [0] + [3], WRAP) && !Valid(Run(s, a + [0] + [3], WRAP).table[0])
    ensures Lru.Run([0, 1, 2], a + [0] + [3]) == [2, 0, 3]
  {
    OldestIsFirst(s1, [0, 1, 2]);
    AfterWrap(s1);
    TwoMore(s, a, s1, Access(s1, 0, WRAP));
  }

  /** The 257th access replaces page 0, the one most recently used: its counter has just become 0. */
  lemma WitnessFails(s: State, n: nat)
    requires Boot(s) && n == WRAP - 1
    ensures !LruAfter(s, Witness(n))
  {
    BootAgrees(s);
    WitnessRuns(s, n);
    NotAfter(s, Witness(n));
  }

  lemma NotAfter(s: State, accesses: seq<nat>)
    requires CanRun(s, accesses, WRAP) && !Valid(Run(s, accesses, WRAP).table[0])
    requires Lru.Run([0, 1, 2], accesses) == [2, 0, 3]
    ensures !LruAfter(s, accesses)
  {
  }

  lemma TwoMore(s: State, a: seq<nat>, s1: State, s2: State)
    requires CanRun(s, a, WRAP) && Run(s, a, WRAP) == s1 && Lru.Run([0, 1, 2], a) == [0, 1, 2]
    requires Shaped(s1) && Oldest(s1.table, s1.counters, NB_PAGES) != -1 && s2 == Access(s1, 0, WRAP)
    requires Oldest(s2.table, s2.counters, NB_PAGES) != -1
    ensures CanRun(s, a + [0] + [3], WRAP) && Run(s, a + [0] + [3], WRAP) == Access(s2, 3, WRAP)
    ensures Lru.Run([0, 1, 2], a + [0] + [3]) == [2, 0, 3]
  {
    LruKeepsPage0();
    OneAccess(s1, [0, 1, 2], 0, WRAP);
    RunSplit(s, a, [0], WRAP);
    LruRunSplit([0, 1, 2], a, [0]);
    OneAccess(s2, [1, 2, 0], 3, WRAP);
    RunSplit(s, a + [0], [3], WRAP);
    LruRunSplit([0, 1, 2], a + [0], [3]);
  }

  /** From the initial state the simulator is LRU throughout every run of n accesses exactly for n up to 256. */
  lemma ExactlyOneLap(s: State, n: nat)
    requires Boot(s)
    ensures (forall accesses: seq<nat> :: InRange(accesses) && |accesses| == n ==> LruThroughout(s, accesses)) <==>
              n <= WRAP
  {
    BootAgrees(s);
    if n <= WRAP {
      forall accesses: seq<nat> | InRange(accesses) && |accesses| == n
        ensures LruThroughout(s, accesses)
      {
        forall m | 0 <= m <= |accesses| ensures LruAfter(s, accesses[..m]) {
          FirstLap(s, [0, 1, 2], accesses[..m], WRAP);
        }
      }
    } else {
      var clock := WRAP - 1;
      WitnessFails(s, clock);
      WitnessInRange(clock);
      var accesses := Witness(clock) + Repeat(0, n - clock - 2);
      assert accesses[..clock + 2] == Witness(clock);
      assert InRange(accesses) && |accesses| == n && !LruThroughout(s, accesses);
    }
  }
}
