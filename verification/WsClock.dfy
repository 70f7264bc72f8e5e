/** memreplace.c's WSClock: reference bits, a virtual time of 16 bits and a time of last use for each page. */
module WsClock {
  import opened PageBits

  const DELTA := 2
  const TVC_MOD := 65536

  datatype State = State(table: seq<bv8>, tdu: seq<nat>, tvc: nat)

  /** Valid, not referenced, and older than DELTA; the difference is of signed ints, so it may be negative. */
  predicate Stale(e: bv8, tdu: nat, tvc: nat) {
    Valid(e) && !Referenced(e) && (tvc as int) - tdu > DELTA
  }

  function FirstValid(table: seq<bv8>, n: nat): (v: int)
    requires n <= |table|
    ensures -1 <= v < n
    ensures v == -1 ==> forall i :: 0 <= i < n ==> !Valid(table[i])
    ensures v != -1 ==> Valid(table[v]) && forall i :: 0 <= i < v ==> !Valid(table[i])
  {
    if n == 0 then -1
    else
      var v := FirstValid(table, n - 1);
      if v == -1 && Valid(table[n - 1]) then n - 1 else v
  }

  function FirstStale(table: seq<bv8>, tdu: seq<nat>, tvc: nat, n: nat): (v: int)
    requires n <= |table| == |tdu|
    ensures -1 <= v < n
    ensures v == -1 ==> forall i :: 0 <= i < n ==> !Stale(table[i], tdu[i], tvc)
    ensures v != -1 ==> Stale(table[v], tdu[v], tvc) && forall i :: 0 <= i < v ==> !Stale(table[i], tdu[i], tvc)
  {
    if n == 0 then -1
    else
      var v := FirstStale(table, tdu, tvc, n - 1);
      if v == -1 && Stale(table[n - 1], tdu[n - 1], tvc) then n - 1 else v
  }

  function Sweep(e: bv8): (r: bv8)
    ensures (Valid(r) <==> Valid(e)) && (Swapped(r) <==> Swapped(e)) && r & PAGE_NB_MASK == e & PAGE_NB_MASK
    ensures Referenced(r) <==> Referenced(e) && !Valid(e)
  {
    if Valid(e) && Referenced(e) then RefCleared(e) else e
  }

  /** The reference bits of the valid pages before `end` are gone. */
  function Swept(table: seq<bv8>, end: nat): (r: seq<bv8>)
    ensures |r| == |table| && forall i :: 0 <= i < |table| ==> r[i] == if i < end then Sweep(table[i]) else table[i]
  {
    seq(|table|, i requires 0 <= i < |table| => if i < end then Sweep(table[i]) else table[i])
  }

  /** The page replaced: the first stale one, or else the first valid one. */
  function Victim(s: State): (v: int)
    requires |s.table| == |s.tdu| == NB_PAGES
  {
    var stale := FirstStale(s.table, s.tdu, s.tvc, NB_PAGES);
    if stale != -1 then stale else FirstValid(s.table, NB_PAGES)
  }

  /** How far the search goes. */
  function SearchEnd(s: State): (end: nat)
    requires |s.table| == |s.tdu| == NB_PAGES
  {
    var stale := FirstStale(s.table, s.tdu, s.tvc, NB_PAGES);
    if stale != -1 then stale else NB_PAGES
  }

  function Replaced(s: State): (table: seq<bv8>)
    requires |s.table| == |s.tdu| == NB_PAGES && Victim(s) != -1
    ensures |table| == NB_PAGES
  {
    var swept := Swept(s.table, SearchEnd(s));
    swept[Victim(s) := Evicted(swept[Victim(s)])]
  }

  /** One access to page p. */
  function Access(s: State, p: nat): (after: State)
    requires |s.table| == |s.tdu| == NB_PAGES && p < NB_PAGES && Victim(s) != -1
    ensures |after.table| == NB_PAGES
  {
    var table :=
      if Valid(s.table[p]) then s.table
      else var t := Replaced(s); t[p := SwapCleared(t[p])];
    State(table[p := MadeValid(RefSet(table[p]))], s.tdu, if s.tvc + 1 == TVC_MOD then 0 else s.tvc + 1)
  }

  class Simulator {
    var page_table: array<bv8>
    var tdu: array<nat>
    var tvc: nat

    ghost predicate Ready()
      reads this, page_table, tdu
    {
      && page_table.Length == NB_PAGES && tdu.Length == NB_PAGES && page_table as object != tdu
      && tvc < TVC_MOD && forall i :: 0 <= i < NB_PAGES ==> tdu[i] < TVC_MOD
    }

    ghost function View(): State
      reads this, page_table, tdu
    {
      State(page_table[..], tdu[..], tvc)
    }

    constructor ()
      ensures Ready() && fresh(page_table) && fresh(tdu) && Boot(View())
    {
      page_table := new bv8[NB_PAGES](i => 0);
      tdu := new nat[NB_PAGES](i => 0);
      tvc := 0;
      new;
      InitPageTable(page_table);
    }

    /** The loop of replaceWSC. */
    method Search() returns (toReplace: int)
      requires Ready()
      modifies page_table
      ensures Ready() && toReplace == Victim(old(View()))
      ensures page_table[..] == Swept(old(page_table[..]), SearchEnd(old(View())))
    {
      ghost var before := View();
      toReplace := -1;
      var i := 0;
      while i < NB_PAGES
        invariant 0 <= i <= NB_PAGES && page_table[..] == Swept(before.table, i)
        invariant toReplace == FirstValid(before.table, i)
        invariant FirstStale(before.table, before.tdu, tvc, i) == -1
      {
        var e := page_table[i];
        assert e == before.table[i];
        if Valid(e) {
          if toReplace == -1 {
            toReplace := i;
          }
          if Referenced(e) {
            page_table[i] := RefCleared(e);
          } else if (tvc as int) - tdu[i] > DELTA {
            toReplace := i;
            break;
          }
        }
        SweptNext(before.table, i);
        i := i + 1;
      }
      StaleFoundAt(before, i, NB_PAGES);
    }

    /** replaceWSC; false where the code exits because no page is valid. */
    method ReplaceWsc() returns (found: bool)
      requires Ready()
      modifies page_table
      ensures Ready() && found == (Victim(old(View())) != -1)
      ensures page_table[..] == if found then Replaced(old(View())) else old(page_table[..])
      ensures found ==> EntriesReplaced(old(View()), Victim(old(View())), page_table[..])
    {
      ghost var before := View();
      var toReplace := Search();
      if toReplace == -1 {
        NothingValid(before);
        return false;
      }
      page_table[toReplace] := Evicted(page_table[toReplace]);
      ReplacedEntries(before);
      return true;
    }

    /** updateTDU, for the mask its test applies to an entry. */
    method UpdateTdu(mask: bv8)
      requires Ready()
      modifies tdu
      ensures Ready()
      ensures forall i :: 0 <= i < NB_PAGES ==> tdu[i] == if page_table[i] & mask != 0 then tvc else old(tdu[i])
    {
      var i := 0;
      while i < NB_PAGES
        invariant 0 <= i <= NB_PAGES
        invariant forall k :: 0 <= k < NB_PAGES ==>
                    tdu[k] == if k < i && page_table[k] & mask != 0 then tvc else old(tdu[k])
      {
        if page_table[i] & mask != 0 {
          tdu[i] := tvc;
        }
        i := i + 1;
      }
    }

    /**
      The last part of an access. The test of updateTDU combines two masks with &, which leaves 0: no time is ever
      updated.
    */
    method FinishAccess(page_no: nat)
      requires Ready() && page_no < NB_PAGES
      modifies this`tvc, page_table, tdu
      ensures Ready() && tdu[..] == old(tdu[..]) && tvc == if old(tvc) + 1 == TVC_MOD then 0 else old(tvc) + 1
      ensures page_table[..] == old(page_table[..])[page_no := MadeValid(RefSet(old(page_table[page_no])))]
    {
      page_table[page_no] := RefSet(page_table[page_no]);
      page_table[page_no] := MadeValid(page_table[page_no]);
      tvc := (tvc + 1) % TVC_MOD;
      UpdateTdu(REF_BIT_MASK & VALID_BIT_MASK);
    }

    /** The WSClock branch of main's loop: false where the code exits. A page number out of range is only reported. */
    method AccessPage(page_no: int) returns (ok: bool)
      requires Ready()
      modifies this`tvc, page_table, tdu
      ensures Ready()
      ensures !(0 <= page_no < NB_PAGES) ==> ok && View() == old(View())
      ensures 0 <= page_no < NB_PAGES && Victim(old(View())) != -1 ==> ok && View() == Access(old(View()), page_no)
      ensures 0 <= page_no < NB_PAGES && Victim(old(View())) == -1 ==> !ok && View() == old(View())
      ensures 0 <= page_no < NB_PAGES && ok ==>
                Valid(page_table[page_no]) && Referenced(page_table[page_no]) && tvc == (old(tvc) + 1) % 65536
    {
      if 0 <= page_no <= 15 {
        if !Valid(page_table[page_no]) {
          ok := ReplaceWsc();
          if !ok {
            return;
          }
          page_table[page_no] := SwapCleared(page_table[page_no]);
        } else {
          AnyIsEnough(View(), page_no);
        }
        FinishAccess(page_no);
      }
      return true;
    }
  }

  lemma SweptNext(table: seq<bv8>, i: nat)
    requires i < |table|
    ensures Swept(table, i + 1) == Swept(table, i)[i := Sweep(table[i])]
  {
  }

  lemma AnyIsEnough(s: State, p: nat)
    requires |s.table| == |s.tdu| == NB_PAGES && p < NB_PAGES && Valid(s.table[p])
    ensures Victim(s) != -1
  {
  }

  lemma {:induction false} StaleFoundAt(s: State, i: nat, n: nat)
    requires i <= n <= |s.table| == |s.tdu|
    requires FirstStale(s.table, s.tdu, s.tvc, i) == -1
    ensures i < n && Stale(s.table[i], s.tdu[i], s.tvc) ==> FirstStale(s.table, s.tdu, s.tvc, n) == i
  {
  }

  // ---------------------------------------------------------------- a replacement, entry by entry

  /** Page j is in RAM, has not been used since the last search, and its time is more than 2 behind. */
  lemma StaleIs(e: bv8, tdu: nat, tvc: nat)
    ensures Stale(e, tdu, tvc) <==> Valid(e) && !Referenced(e) && (tvc as int) - tdu > 2
  {
  }

  /** The victim: the first stale page, or if there is none the first page in RAM. */
  lemma VictimIsFirst(s: State)
    requires |s.table| == |s.tdu| == NB_PAGES
    ensures var v := Victim(s);
            if exists j :: 0 <= j < NB_PAGES && Stale(s.table[j], s.tdu[j], s.tvc)
            then 0 <= v < NB_PAGES && Stale(s.table[v], s.tdu[v], s.tvc)
                 && forall j :: 0 <= j < v ==> !Stale(s.table[j], s.tdu[j], s.tvc)
            else if exists j :: 0 <= j < NB_PAGES && Valid(s.table[j])
            then 0 <= v < NB_PAGES && Valid(s.table[v]) && forall j :: 0 <= j < v ==> !Valid(s.table[j])
            else v == -1
  {
  }

  /**
    A page the search passes, one in RAM with no stale page before it, loses its reference bit. The victim is out of
    RAM, in swap, and unreferenced. Every other entry is as it was.
  */
  lemma ReplacedEntry(s: State, i: nat)
    requires |s.table| == |s.tdu| == NB_PAGES && Victim(s) != -1 && i < NB_PAGES
    ensures var e, r := s.table[i], Replaced(s)[i];
            var passed := Valid(e) && forall j :: 0 <= j < i ==> !Stale(s.table[j], s.tdu[j], s.tvc);
            if i == Victim(s)
            then !Valid(r) && Swapped(r) && !Referenced(r) && r & PAGE_NB_MASK == e & PAGE_NB_MASK
            else r == if passed then e & 0xFB else e
  {
    SweepIs(s.table[i]);
  }

  /**
    What a replacement with victim v does to each entry, spelled out: a page other than v that is in RAM loses its
    reference bit if no page before it is in RAM, unreferenced, and more than 2 behind; the others keep their entries.
  */
  ghost predicate EntriesReplaced(s: State, v: int, table: seq<bv8>)
    requires |s.table| == |s.tdu| == NB_PAGES
  {
    && 0 <= v < |table| == NB_PAGES && !Valid(table[v]) && Swapped(table[v]) && !Referenced(table[v])
    && table[v] & PAGE_NB_MASK == s.table[v] & PAGE_NB_MASK
    && forall i :: 0 <= i < NB_PAGES && i != v ==>
         table[i] ==
         if Valid(s.table[i])
            && forall j :: 0 <= j < i ==> !(Valid(s.table[j]) && !Referenced(s.table[j]) && s.tvc - s.tdu[j] > 2)
         then s.table[i] & 0xFB else s.table[i]
  }

  lemma ReplacedEntries(s: State)
    requires |s.table| == |s.tdu| == NB_PAGES && Victim(s) != -1
    ensures EntriesReplaced(s, Victim(s), Replaced(s))
  {
    forall i | 0 <= i < NB_PAGES
      ensures var e, r := s.table[i], Replaced(s)[i];
              var passed := Valid(e) && forall j :: 0 <= j < i ==> !Stale(s.table[j], s.tdu[j], s.tvc);
              if i == Victim(s)
              then !Valid(r) && Swapped(r) && !Referenced(r) && r & PAGE_NB_MASK == e & PAGE_NB_MASK
              else r == if passed then e & 0xFB else e
    {
      ReplacedEntry(s, i);
    }
  }

  lemma NothingValid(s: State)
    requires |s.table| == |s.tdu| == NB_PAGES && Victim(s) == -1
    ensures Swept(s.table, SearchEnd(s)) == s.table
  {
  }

  lemma SweepIs(e: bv8)
    ensures Sweep(e) == if Valid(e) then e & 0xFB else e
  {
  }

  // ---------------------------------------------------------------- what every run keeps

  function CountValid(table: seq<bv8>): nat {
    if table == [] then 0 else CountValid(table[..|table| - 1]) + (if Valid(table[|table| - 1]) then 1 else 0)
  }

  lemma {:induction false} SameValidSameCount(a: seq<bv8>, b: seq<bv8>)
    requires |a| == |b| && forall i :: 0 <= i < |a| ==> (Valid(a[i]) <==> Valid(b[i]))
    ensures CountValid(a) == CountValid(b)
  {
    if a != [] {
      SameValidSameCount(a[..|a| - 1], b[..|b| - 1]);
    }
  }

  lemma {:induction false} CountUpdate(a: seq<bv8>, i: nat, e: bv8)
    requires i < |a|
    ensures CountValid(a[i := e]) == CountValid(a) + (if Valid(e) then 1 else 0) - (if Valid(a[i]) then 1 else 0)
  {
    var last := |a| - 1;
    if i == last {
      assert a[i := e][..last] == a[..last];
    } else {
      assert a[i := e][..last] == a[..last][i := e];
      CountUpdate(a[..last], i, e);
    }
  }

  lemma {:induction false} SomeValid(a: seq<bv8>)
    requires CountValid(a) > 0
    ensures exists i :: 0 <= i < |a| && Valid(a[i])
  {
    if Valid(a[|a| - 1]) {
    } else {
      SomeValid(a[..|a| - 1]);
      var i :| 0 <= i < |a| - 1 && Valid(a[..|a| - 1][i]);
      assert Valid(a[i]);
    }
  }

  /**
    What one entry keeps: in RAM and in swap exclude each other, only a page in RAM is referenced, and the number
    stays.
  */
  predicate Clean(e: bv8, i: nat)
    requires i < NB_PAGES
  {
    !(Valid(e) && Swapped(e)) && (Referenced(e) ==> Valid(e)) && e & PAGE_NB_MASK == PageNumber(i)
  }

  predicate Known(e: bv8) { Valid(e) || Swapped(e) }

  /** `seen` are the pages accessed so far; `resident` is the number of pages in RAM. */
  ghost predicate Inv(s: State, seen: set<nat>, resident: nat) {
    && |s.table| == |s.tdu| == NB_PAGES && s.tvc < TVC_MOD
    && CountValid(s.table) == resident && AllClean(s.table) && Knows(s.table, seen) && NeverUsed(s.tdu)
  }

  ghost predicate AllClean(table: seq<bv8>)
    requires |table| == NB_PAGES
  {
    forall i :: 0 <= i < NB_PAGES ==> Clean(table[i], i)
  }

  /** In RAM or in swap: pages 0 to 3 and those seen. */
  ghost predicate Knows(table: seq<bv8>, seen: set<nat>)
    requires |table| == NB_PAGES
  {
    forall i :: 0 <= i < NB_PAGES ==> (Known(table[i]) <==> i <= 3 || i in seen)
  }

  ghost predicate NeverUsed(tdu: seq<nat>)
    requires |tdu| == NB_PAGES
  {
    forall i :: 0 <= i < NB_PAGES ==> tdu[i] == 0
  }

  /** The state main starts from. */
  ghost predicate Boot(s: State) {
    Initial(s.table) && s.tdu == seq(NB_PAGES, i => 0) && s.tvc == 0
  }

  lemma BootCount(t: seq<bv8>)
    requires Initial(t)
    ensures CountValid(t) == 3
  {
    NoneAbove(t, 16);
    assert t[..16] == t;
    assert t[..3][..2] == t[..2] && t[..2][..1] == t[..1] && t[..1][..0] == [];
    assert CountValid(t[..1]) == 1;
    assert CountValid(t[..2]) == 2;
  }

  lemma {:induction false} NoneAbove(t: seq<bv8>, n: nat)
    requires 3 <= n <= |t| && forall i :: 3 <= i < |t| ==> !Valid(t[i])
    ensures CountValid(t[..n]) == CountValid(t[..3])
  {
    if n > 3 {
      NoneAbove(t, n - 1);
      assert t[..n][..n - 1] == t[..n - 1];
    }
  }

  lemma BootInv(s: State)
    requires Boot(s)
    ensures Inv(s, {}, 3)
  {
    BootCount(s.table);
  }

  /**
    With every time of last use 0, the victim is the first valid unreferenced page once tvc exceeds DELTA, else the
    first valid page.
  */
  lemma VictimIs(s: State, seen: set<nat>, resident: nat)
    requires Inv(s, seen, resident) && resident > 0
    ensures 0 <= Victim(s) < NB_PAGES && Valid(s.table[Victim(s)])
    ensures s.tvc <= DELTA || (forall i :: 0 <= i < NB_PAGES && Valid(s.table[i]) ==> Referenced(s.table[i])) <==>
              SearchEnd(s) == NB_PAGES
    ensures if SearchEnd(s) == NB_PAGES
            then forall i :: 0 <= i < Victim(s) ==> !Valid(s.table[i])
            else
              && !Referenced(s.table[Victim(s)])
              && forall i :: 0 <= i < Victim(s) && Valid(s.table[i]) ==> Referenced(s.table[i])
  {
    SomeValid(s.table);
  }

  lemma ReplacedKeeps(s: State, seen: set<nat>, resident: nat)
    requires Inv(s, seen, resident) && resident > 0
    ensures Victim(s) != -1
    ensures CountValid(Replaced(s)) == resident - 1
    ensures forall i :: 0 <= i < NB_PAGES ==> Clean(Replaced(s)[i], i) && (Known(Replaced(s)[i]) <==> Known(s.table[i]))
    ensures forall i :: 0 <= i < NB_PAGES && !Valid(s.table[i]) ==> !Valid(Replaced(s)[i])
  {
    VictimIs(s, seen, resident);
    var swept, v := Swept(s.table, SearchEnd(s)), Victim(s);
    SameValidSameCount(swept, s.table);
    CountUpdate(swept, v, Evicted(swept[v]));
  }

  lemma StepKeepsInv(s: State, seen: set<nat>, resident: nat, p: nat)
    requires Inv(s, seen, resident) && resident > 0 && p < NB_PAGES
    ensures Victim(s) != -1 && Inv(Access(s, p), seen + {p}, resident)
    ensures Valid(Access(s, p).table[p]) && Referenced(Access(s, p).table[p])
  {
    ReplacedKeeps(s, seen, resident);
    forall i | 0 <= i < NB_PAGES
      ensures Clean(Access(s, p).table[i], i) && (Known(Access(s, p).table[i]) <==> Known(s.table[i]) || i == p)
    {
      EntryKept(s, seen, resident, p, i);
    }
    StepCount(s, seen, resident, p);
  }

  lemma EntryKept(s: State, seen: set<nat>, resident: nat, p: nat, i: nat)
    requires Inv(s, seen, resident) && resident > 0 && p < NB_PAGES && i < NB_PAGES && Victim(s) != -1
    ensures var e := Access(s, p).table[i]; Clean(e, i) && (Known(e) <==> Known(s.table[i]) || i == p)
  {
    ReplacedKeeps(s, seen, resident);
  }

  lemma StepCount(s: State, seen: set<nat>, resident: nat, p: nat)
    requires Inv(s, seen, resident) && resident > 0 && p < NB_PAGES && Victim(s) != -1
    ensures CountValid(Access(s, p).table) == resident
  {
    ReplacedKeeps(s, seen, resident);
    var table := if Valid(s.table[p]) then s.table else var t := Replaced(s); t[p := SwapCleared(t[p])];
    if !Valid(s.table[p]) {
      CountUpdate(Replaced(s), p, SwapCleared(Replaced(s)[p]));
    }
    CountUpdate(table, p, MadeValid(RefSet(table[p])));
  }

  ghost predicate InRange(accesses: seq<nat>) {
    forall i :: 0 <= i < |accesses| ==> accesses[i] < NB_PAGES
  }

  ghost predicate CanRun(s: State, accesses: seq<nat>)
    decreases |accesses|
  {
    |s.table| == |s.tdu| == NB_PAGES && (accesses != [] ==>
      accesses[0] < NB_PAGES && Victim(s) != -1 && CanRun(Access(s, accesses[0]), accesses[1..]))
  }

  ghost function Run(s: State, accesses: seq<nat>): State
    requires CanRun(s, accesses)
    decreases |accesses|
  {
    if accesses == [] then s else Run(Access(s, accesses[0]), accesses[1..])
  }

  ghost function Accessed(accesses: seq<nat>): set<nat> {
    set p | p in accesses
  }

  lemma AccessedNone(seen: set<nat>)
    ensures seen + Accessed([]) == seen
  {
  }

  lemma AccessedSplit(seen: set<nat>, accesses: seq<nat>)
    requires accesses != []
    ensures seen + {accesses[0]} + Accessed(accesses[1..]) == seen + Accessed(accesses)
  {
  }

  lemma {:induction false} RunKeepsInv(s: State, seen: set<nat>, resident: nat, accesses: seq<nat>)
    requires Inv(s, seen, resident) && resident > 0 && InRange(accesses)
    ensures CanRun(s, accesses) && Inv(Run(s, accesses), seen + Accessed(accesses), resident)
    decreases |accesses|
  {
    if accesses == [] {
      AccessedNone(seen);
    } else {
      StepKeepsInv(s, seen, resident, accesses[0]);
      RunKeepsInv(Access(s, accesses[0]), seen + {accesses[0]}, resident, accesses[1..]);
      AccessedSplit(seen, accesses);
    }
  }

  /**
    From boot the simulator never exits, keeps three pages in RAM, and knows exactly pages 0 to 3 and those
    accessed.
  */
  lemma BootRun(s: State, accesses: seq<nat>)
    requires Boot(s) && InRange(accesses)
    ensures CanRun(s, accesses) && Inv(Run(s, accesses), Accessed(accesses), 3)
  {
    BootInv(s);
    RunKeepsInv(s, {}, 3, accesses);
    assert {} + Accessed(accesses) == Accessed(accesses);
  }

  /** updateTDU with the test it names: the page is referenced and valid. */
  function NamedTdu(s: State): (tdu: seq<nat>)
    requires |s.table| == |s.tdu|
  {
    seq(|s.tdu|, i requires 0 <= i < |s.tdu| => if Referenced(s.table[i]) && Valid(s.table[i]) then s.tvc else s.tdu[i])
  }

  /**
    After any access of any run, the update the code leaves out would have changed a time exactly when tvc is not 0.
  */
  lemma UpdateLost(s: State, accesses: seq<nat>)
    requires Boot(s) && InRange(accesses) && accesses != []
    ensures CanRun(s, accesses) && |Run(s, accesses).table| == |Run(s, accesses).tdu|
    ensures NamedTdu(Run(s, accesses)) != Run(s, accesses).tdu <==> Run(s, accesses).tvc != 0
  {
    var a, p := accesses[..|accesses| - 1], accesses[|accesses| - 1];
    assert accesses == a + [p];
    BootRun(s, a);
    BootRun(s, accesses);
    var last := Run(s, a);
    StepKeepsInv(last, Accessed(a), 3, p);
    RunLast(s, a, p);
    NamedDiffers(Run(s, accesses), p);
  }

  lemma NamedDiffers(s: State, p: nat)
    requires |s.table| == |s.tdu| == NB_PAGES && NeverUsed(s.tdu)
    requires p < NB_PAGES && Valid(s.table[p]) && Referenced(s.table[p])
    ensures NamedTdu(s) != s.tdu <==> s.tvc != 0
  {
    assert NamedTdu(s)[p] == s.tvc;
    if s.tvc == 0 {
      assert NamedTdu(s) == s.tdu;
    }
  }

  lemma {:induction false} RunLast(s: State, a: seq<nat>, p: nat)
    requires CanRun(s, a) && p < NB_PAGES && |Run(s, a).table| == |Run(s, a).tdu| == NB_PAGES && Victim(Run(s, a)) != -1
    ensures CanRun(s, a + [p]) && Run(s, a + [p]) == Access(Run(s, a), p)
    decreases |a|
  {
    if a == [] {
      assert a + [p] == [p] && [p][1..] == [];
      var next := Access(s, p);
      assert CanRun(next, []) && Run(next, []) == next;
    } else {
      assert (a + [p])[1..] == a[1..] + [p];
      RunLast(Access(s, a[0]), a[1..], p);
    }
  }

  // ---------------------------------------------------------------- accesses, entry by entry

  /**
    The page accessed is in RAM and referenced, and out of swap if it was fetched. On a hit no other entry changes; on a
    miss the others are as the replacement leaves them. The time goes on by one, and no time of last use changes.
  */
  lemma AccessedEntry(s: State, p: nat, i: nat)
    requires |s.table| == |s.tdu| == NB_PAGES && p < NB_PAGES && i < NB_PAGES && Victim(s) != -1 && s.tvc < 65536
    ensures var a := Access(s, p);
            && a.tvc == (s.tvc + 1) % 65536 && a.tdu == s.tdu
            && (i != p ==> a.table[i] == if Valid(s.table[p]) then s.table[i] else Replaced(s)[i])
            && (Valid(s.table[p]) ==> a.table[p] == s.table[p] | 0x05)
            && (!Valid(s.table[p]) ==> a.table[p] == (Replaced(s)[p] & 0xFD) | 0x05)
  {
    FetchedBits(s.table[p]);
    FetchedBits(SwapCleared(Replaced(s)[p]));
  }

  lemma FetchedBits(e: bv8)
    ensures MadeValid(RefSet(e)) == e | 0x05 && SwapCleared(e) == e & 0xFD
  {
  }

  /** Every access of a run takes one tick. */
  lemma {:induction false} RunClock(s: State, accesses: seq<nat>)
    requires CanRun(s, accesses) && s.tvc < 65536
    ensures Run(s, accesses).tvc == (s.tvc + |accesses|) % 65536
    decreases |accesses|
  {
    if accesses != [] {
      RunClock(Access(s, accesses[0]), accesses[1..]);
      TickThenRest(s.tvc, |accesses| - 1);
    }
  }

  lemma TickThenRest(tvc: nat, n: nat)
    requires tvc < 65536
    ensures ((if tvc + 1 == TVC_MOD then 0 else tvc + 1) + n) % 65536 == (tvc + 1 + n) % 65536
  {
    var q, r := n / 65536, n % 65536;
    if tvc + 1 == 65536 {
      assert 65536 + n == 65536 * (q + 1) + r;
    }
  }

  /** In RAM are the pages of v, and referenced those of r; no time has been updated. */
  ghost predicate Bits(s: State, v: set<nat>, r: set<nat>) {
    && |s.table| == |s.tdu| == NB_PAGES && NeverUsed(s.tdu) && s.tvc < TVC_MOD && (forall i :: i in v ==> i < NB_PAGES)
    && r <= v
    && forall i :: 0 <= i < NB_PAGES ==> (Valid(s.table[i]) <==> i in v) && (Referenced(s.table[i]) <==> i in r)
  }

  /** The first of a set of pages. */
  ghost predicate First(v: set<nat>, f: nat) {
    f in v && forall i :: i in v ==> f <= i
  }

  lemma Hit(s: State, v: set<nat>, r: set<nat>, p: nat)
    requires Bits(s, v, r) && p in v
    ensures Victim(s) != -1 && Bits(Access(s, p), v, r + {p})
  {
    AnyIsEnough(s, p);
    forall i | 0 <= i < NB_PAGES ensures
        var e := Access(s, p).table[i]; (Valid(e) <==> i in v) && (Referenced(e) <==> i in r + {p})
    {
      AccessedEntry(s, p, i);
    }
  }

  /**
    A miss while all pages in RAM are referenced, or time has not passed 2: the first of them goes, and the only page
    referenced afterwards is the new one.
  */
  lemma MissWithoutStale(s: State, v: set<nat>, r: set<nat>, p: nat, f: nat)
    requires Bits(s, v, r) && p < NB_PAGES && p !in v && First(v, f) && (r == v || s.tvc <= 2)
    ensures Victim(s) == f && Bits(Access(s, p), v - {f} + {p}, {p})
  {
    VictimIsFirst(s);
    forall i | 0 <= i < NB_PAGES ensures
        var e := Access(s, p).table[i]; (Valid(e) <==> i in v - {f} + {p}) && (Referenced(e) <==> i == p)
    {
      AccessedEntry(s, p, i);
      ReplacedBits(s, f, i);
    }
  }

  /**
    Any other miss: the first page in RAM that is not referenced goes, and the pages before it have lost their bits.
  */
  lemma MissWithStale(s: State, v: set<nat>, r: set<nat>, p: nat, f: nat)
    requires Bits(s, v, r) && p < NB_PAGES && p !in v && First(v - r, f) && s.tvc > 2
    ensures Victim(s) == f && Bits(Access(s, p), v - {f} + {p}, (set i | i in r && i > f) + {p})
  {
    VictimIsFirst(s);
    assert Stale(s.table[f], s.tdu[f], s.tvc);
    forall j | 0 <= j < f ensures !Stale(s.table[j], s.tdu[j], s.tvc) {
      assert j !in v - r;
    }
    forall i | 0 <= i < NB_PAGES ensures
        var e := Access(s, p).table[i];
        (Valid(e) <==> i in v - {f} + {p}) && (Referenced(e) <==> i == p || (i in r && i > f))
    {
      AccessedEntry(s, p, i);
      ReplacedBits(s, f, i);
    }
  }

  /** The bits of one entry after a replacement. */
  lemma ReplacedBits(s: State, f: nat, i: nat)
    requires |s.table| == |s.tdu| == NB_PAGES && Victim(s) == f && i < NB_PAGES && NeverUsed(s.tdu)
    ensures var e, r := s.table[i], Replaced(s)[i];
            var passed := Valid(e) && forall j :: 0 <= j < i ==>
                            !(Valid(s.table[j]) && !Referenced(s.table[j]) && s.tvc > 2);
            && (Valid(r) <==> Valid(e) && i != f)
            && (i != f ==> (Referenced(r) <==> Referenced(e) && !passed))
  {
    ReplacedEntry(s, i);
    assert Valid(s.table[i] & 0xFB) == Valid(s.table[i]) && !Referenced(s.table[i] & 0xFB);
  }

  /** One more access of a run, and what it leaves. */
  lemma ThenHit(s: State, a: seq<nat>, v: set<nat>, r: set<nat>, p: nat)
    requires CanRun(s, a) && Bits(Run(s, a), v, r) && p in v
    ensures CanRun(s, a + [p]) && Bits(Run(s, a + [p]), v, r + {p})
    ensures Run(s, a + [p]).tvc == (Run(s, a).tvc + 1) % 65536
  {
    Hit(Run(s, a), v, r, p);
    RunLast(s, a, p);
    AccessedEntry(Run(s, a), p, p);
  }

  lemma BootBits(s: State)
    requires Boot(s)
    ensures Bits(s, {0, 1, 2}, {}) && s.tvc == 0
  {
  }

  /** From boot: three hits. */
  lemma ThreeHits(s: State) returns (a: seq<nat>)
    requires Boot(s)
    ensures a == [0, 1, 2] && CanRun(s, a) && Bits(Run(s, a), {0, 1, 2}, {0, 1, 2}) && Run(s, a).tvc == 3
  {
    BootBits(s);
    a := [];
    assert CanRun(s, a) && Run(s, a) == s;
    ThenHit(s, a, {0, 1, 2}, {}, 0);
    a := a + [0];
    ThenHit(s, a, {0, 1, 2}, {} + {0}, 1);
    a := a + [1];
    ThenHit(s, a, {0, 1, 2}, {} + {0} + {1}, 2);
    a := a + [2];
    assert {} + {0} + {1} + {2} == {0, 1, 2};
  }

  /** Then a miss that sweeps all three, and a hit. */
  lemma FiveAccesses(s: State) returns (a: seq<nat>)
    requires Boot(s)
    ensures a == [0, 1, 2, 3, 1] && CanRun(s, a) && Bits(Run(s, a), {1, 2, 3}, {1, 3}) && Run(s, a).tvc == 5
  {
    a := ThreeHits(s);
    var s3 := Run(s, a);
    MissWithoutStale(s3, {0, 1, 2}, {0, 1, 2}, 3, 0);
    RunLast(s, a, 3);
    AccessedEntry(s3, 3, 3);
    a := a + [3];
    assert {0, 1, 2} - {0} + {3} == {1, 2, 3};
    ThenHit(s, a, {1, 2, 3}, {3}, 1);
    a := a + [1];
    assert {3} + {1} == {1, 3};
  }

  /** Page 1, just used, survives the next miss; page 2, which the sweep has left unreferenced, does not. */
  lemma SecondChance(s: State) returns (accesses: seq<nat>)
    requires Boot(s)
    ensures accesses == [0, 1, 2, 3, 1, 4] && CanRun(s, accesses) && Bits(Run(s, accesses), {1, 3, 4}, {3, 4})
  {
    var a := FiveAccesses(s);
    var s5 := Run(s, a);
    assert First({1, 2, 3} - {1, 3}, 2);
    var r := {1, 3};
    MissWithStale(s5, {1, 2, 3}, r, 4, 2);
    RunLast(s, a, 4);
    assert {1, 2, 3} - {2} + {4} == {1, 3, 4};
    assert (set i | i in r && i > 2) + {4} == {3, 4};
    accesses := a + [4];
  }
}
