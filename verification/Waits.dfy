/**
  Waits that sleep (do_waitpid). A caller that found its child running continues, once the child has exited, with the
  PCB it found before it slept: it frees the child's page table without looking the child up again.
*/
module Waits {
  import opened Sequences
  import opened PTree = ProcessTree

  /** The process list, the children that callers are asleep on, and the page tables freed so far, each by pid. */
  datatype World = World(sys: Sys, asleep: seq<nat>, freed: seq<nat>)

  /** A call that does not wait, a wait, with or without WNOHANG, or the k-th sleeper going on. */
  datatype Event = Call(op: Op) | Wait(pid: int, nohang: bool) | Wake(k: nat)

  /** Not waited for yet. */
  ghost predicate Unreaped(s: Sys, pid: nat) {
    Listed(s.procs, pid) && s.procs[Find(s.procs, pid)].mainThread
  }

  ghost predicate HasExited(s: Sys, pid: nat) {
    !Listed(s.procs, pid) || s.procs[Find(s.procs, pid)].state == Zombie
  }

  ghost predicate Possible(w: World, e: Event) {
    match e
    case Call(op) => !op.Reap? && Legal(w.sys, op)
    case Wait(_, _) => true
    case Wake(k) => k < |w.asleep| && HasExited(w.sys, w.asleep[k])
  }

  function Drop(s: seq<nat>, k: nat): seq<nat>
    requires k < |s|
  {
    s[..k] + s[k + 1..]
  }

  /**
    What the code does with the PCB from the free of the page table on. A PCB already freed is not modelled further.
  */
  ghost function Continue(s: Sys, pid: nat): Sys {
    if !Listed(s.procs, pid) then s
    else
      var k := Find(s.procs, pid);
      var p := s.procs[k].(mainThread := false, tableFrees := s.procs[k].tableFrees + 1);
      s.(procs := if HasChild(s.procs, pid) then s.procs[k := p] else Without(s.procs, k))
  }

  ghost function Next(w: World, e: Event): World
    requires Possible(w, e)
  {
    match e
    case Call(op) => w.(sys := Step(w.sys, op))
    case Wait(pid, nohang) =>
      var r := Answer(w.sys.procs, pid, nohang);
      if r.Done? then w.(sys := Continue(w.sys, r.pid), freed := w.freed + [r.pid])
      else if r.Blocked? then w.(asleep := w.asleep + [w.sys.procs[Target(w.sys.procs, pid)].pid])
      else w
    case Wake(k) =>
      World(Continue(w.sys, w.asleep[k]), Drop(w.asleep, k), w.freed + [w.asleep[k]])
  }

  /** Listed, and made by create_process: it never exits. */
  ghost predicate IsRoot(s: Sys, pid: nat) {
    Listed(s.procs, pid) && s.procs[Find(s.procs, pid)].parent == 0
  }

  /**
    A wait that will free the page table of a child some caller is already asleep on: it finds the child exited, or
    falls asleep on it too. A process without parent does not count, since it never exits.
  */
  ghost predicate Clash(w: World, e: Event) {
    && e.Wait?
    && var k := Target(w.sys.procs, e.pid);
       var r := Answer(w.sys.procs, e.pid, e.nohang);
       && k < |w.sys.procs| && (r.Done? || r.Blocked?)
       && w.sys.procs[k].pid in w.asleep && w.sys.procs[k].parent != 0
  }

  // ---------------------------------------------------------------- without a clash

  /** Two callers are asleep on one process only if it never exits. */
  ghost predicate OnlyRootsRepeat(s: Sys, asleep: seq<nat>) {
    forall i, j :: 0 <= i < j < |asleep| && asleep[i] == asleep[j] ==> IsRoot(s, asleep[i])
  }

  ghost predicate SafeInv(w: World) {
    && Inv(w.sys) && OnlyRootsRepeat(w.sys, w.asleep) && NoDup(w.freed)
    && (forall pid :: pid in w.asleep ==> Unreaped(w.sys, pid))
    && (forall pid :: pid in w.freed ==> pid < w.sys.next && !Unreaped(w.sys, pid))
  }

  /** Continuing with a zombie that nobody has waited for is the reaping step. */
  lemma ContinueIsReap(s: Sys, pid: nat)
    requires Inv(s) && Unreaped(s, pid) && HasExited(s, pid)
    ensures Legal(s, Reap(pid)) && Continue(s, pid) == Step(s, Reap(pid))
  {
  }

  lemma ListedBelowNext(s: Sys, pid: nat)
    requires Inv(s) && Listed(s.procs, pid)
    ensures pid < s.next
  {
    assert Numbered(s.procs[Find(s.procs, pid)], s.next);
  }

  /** A step reaps the process it is about and no other. */
  lemma StepUnreaped(s: Sys, op: Op, pid: nat)
    requires Inv(s) && Legal(s, op) && pid < s.next
    ensures Unreaped(Step(s, op), pid) <==> Unreaped(s, pid) && op != Reap(pid)
  {
    var s' := Step(s, op);
    StepKeepsInv(s, op);
    if Unreaped(s, pid) && op != Reap(pid) {
      var k := Find(s.procs, pid);
      var i := if op.Reap? && !HasChild(s.procs, op.pid) && Find(s.procs, op.pid) < k then k - 1 else k;
      StaysAt(s, op, k, i);
      FindUnique(s', i);
      ListedAt(s'.procs, i);
    }
    if Unreaped(s', pid) {
      PidNotReusedStep(s, op, pid);
      if op.Reap? && op.pid == pid {
        ReapRemoves(s, pid, pid);
      } else if !Unreaped(s, pid) {
        ReapedStaysStep(s, op, pid);
      }
    }
  }

  lemma StaysAt(s: Sys, op: Op, k: nat, i: nat)
    requires Inv(s) && Legal(s, op) && k < |s.procs| && s.procs[k].mainThread && op != Reap(s.procs[k].pid)
    requires i == if op.Reap? && !HasChild(s.procs, op.pid) && Find(s.procs, op.pid) < k then k - 1 else k
    ensures i < |Step(s, op).procs| && Step(s, op).procs[i].pid == s.procs[k].pid && Step(s, op).procs[i].mainThread
    ensures Step(s, op).procs[i].parent == s.procs[k].parent
  {
  }

  /** Having a parent or not does not change. */
  lemma StepRoot(s: Sys, op: Op, pid: nat)
    requires Inv(s) && Legal(s, op) && Unreaped(s, pid) && op != Reap(pid)
    ensures IsRoot(Step(s, op), pid) <==> IsRoot(s, pid)
  {
    var s' := Step(s, op);
    StepKeepsInv(s, op);
    var k := Find(s.procs, pid);
    var i := if op.Reap? && !HasChild(s.procs, op.pid) && Find(s.procs, op.pid) < k then k - 1 else k;
    StaysAt(s, op, k, i);
    FindUnique(s', i);
    ListedAt(s'.procs, i);
  }

  lemma NoDupAppend(s: seq<nat>, x: nat)
    requires NoDup(s) && x !in s
    ensures NoDup(s + [x])
  {
  }

  /** Without one of its entries, the list of sleepers has the others; and that one again only if it is a root. */
  lemma DropMembers(s: Sys, asleep: seq<nat>, k: nat)
    requires OnlyRootsRepeat(s, asleep) && k < |asleep|
    ensures OnlyRootsRepeat(s, Drop(asleep, k)) && forall x :: x in Drop(asleep, k) ==> x in asleep
    ensures asleep[k] in Drop(asleep, k) ==> IsRoot(s, asleep[k])
  {
    var d := Drop(asleep, k);
    assert forall i :: 0 <= i < |d| ==> d[i] == asleep[if i < k then i else i + 1];
    forall i, j | 0 <= i < j < |d| && d[i] == d[j] ensures IsRoot(s, d[i]) {
      var i', j' := if i < k then i else i + 1, if j < k then j else j + 1;
      assert asleep[i'] == asleep[j'];
    }
  }

  /** An exited process has a parent. */
  lemma ExitedIsNoRoot(s: Sys, pid: nat)
    requires Inv(s) && Unreaped(s, pid) && HasExited(s, pid)
    ensures !IsRoot(s, pid)
  {
    assert Lifecycle(s.procs[Find(s.procs, pid)]);
  }

  /** Roots stay roots, so the sleepers' list stays in order. */
  lemma StepKeepsRepeats(s: Sys, op: Op, asleep: seq<nat>)
    requires Inv(s) && Legal(s, op) && OnlyRootsRepeat(s, asleep)
    requires forall pid :: pid in asleep ==> Unreaped(s, pid) && op != Reap(pid)
    ensures OnlyRootsRepeat(Step(s, op), asleep)
  {
    forall i, j | 0 <= i < j < |asleep| && asleep[i] == asleep[j] ensures IsRoot(Step(s, op), asleep[i]) {
      assert asleep[i] in asleep;
      StepRoot(s, op, asleep[i]);
    }
  }

  /** Continuing for a child nobody else is asleep on. */
  lemma FreeKeepsInv(w: World, pid: nat, rest: seq<nat>)
    requires SafeInv(w) && Unreaped(w.sys, pid) && HasExited(w.sys, pid)
    requires OnlyRootsRepeat(w.sys, rest) && pid !in rest && forall q :: q in rest ==> q in w.asleep
    ensures SafeInv(World(Continue(w.sys, pid), rest, w.freed + [pid]))
  {
    ContinueIsReap(w.sys, pid);
    StepKeepsInv(w.sys, Reap(pid));
    ListedBelowNext(w.sys, pid);
    NoDupAppend(w.freed, pid);
    NextGrows(w.sys, Reap(pid));
    StepKeepsRepeats(w.sys, Reap(pid), rest);
    forall q | q in rest ensures Unreaped(Continue(w.sys, pid), q) {
      ListedBelowNext(w.sys, q);
      StepUnreaped(w.sys, Reap(pid), q);
    }
    forall q | q in w.freed + [pid] ensures q < w.sys.next && !Unreaped(Continue(w.sys, pid), q) {
      StepUnreaped(w.sys, Reap(pid), q);
    }
  }

  lemma CallKeepsInv(w: World, op: Op)
    requires SafeInv(w) && Possible(w, Call(op))
    ensures SafeInv(Next(w, Call(op)))
  {
    StepKeepsInv(w.sys, op);
    NextGrows(w.sys, op);
    StepKeepsRepeats(w.sys, op, w.asleep);
    forall q | q in w.asleep || q in w.freed ensures Unreaped(Step(w.sys, op), q) <==> Unreaped(w.sys, q) {
      if q in w.asleep {
        ListedBelowNext(w.sys, q);
      }
      StepUnreaped(w.sys, op, q);
    }
  }

  lemma SleepKeepsRepeats(s: Sys, asleep: seq<nat>, pid: nat)
    requires OnlyRootsRepeat(s, asleep) && (pid in asleep ==> IsRoot(s, pid))
    ensures OnlyRootsRepeat(s, asleep + [pid])
  {
  }

  /** What a wait that finds its process has found. */
  lemma TargetIs(s: Sys, pid: int, nohang: bool)
    requires Inv(s) && Target(s.procs, pid) < |s.procs|
    ensures var p := s.procs[Target(s.procs, pid)];
            && Listed(s.procs, p.pid) && s.procs[Find(s.procs, p.pid)] == p
            && (Answer(s.procs, pid, nohang).Done? ==>
                  Answer(s.procs, pid, nohang).pid == p.pid && Unreaped(s, p.pid) && HasExited(s, p.pid))
            && (Answer(s.procs, pid, nohang).Blocked? ==> Unreaped(s, p.pid) && !HasExited(s, p.pid))
  {
    var k := Target(s.procs, pid);
    FindUnique(s, k);
    ListedAt(s.procs, k);
  }

  lemma WaitKeepsInv(w: World, pid: int, nohang: bool)
    requires SafeInv(w) && !Clash(w, Wait(pid, nohang))
    ensures SafeInv(Next(w, Wait(pid, nohang)))
  {
    var procs := w.sys.procs;
    var k := Target(procs, pid);
    if k < |procs| {
      TargetIs(w.sys, pid, nohang);
      var r := Answer(procs, pid, nohang);
      if r.Done? {
        ExitedIsNoRoot(w.sys, r.pid);
        FreeKeepsInv(w, r.pid, w.asleep);
      } else if r.Blocked? {
        SleepKeepsRepeats(w.sys, w.asleep, procs[k].pid);
      }
    }
  }

  lemma EventKeepsInv(w: World, e: Event)
    requires SafeInv(w) && Possible(w, e) && !Clash(w, e)
    ensures SafeInv(Next(w, e))
  {
    match e
    case Call(op) => CallKeepsInv(w, op);
    case Wait(pid, nohang) => WaitKeepsInv(w, pid, nohang);
    case Wake(k) =>
      DropMembers(w.sys, w.asleep, k);
      assert w.asleep[k] in w.asleep;
      ExitedIsNoRoot(w.sys, w.asleep[k]);
      FreeKeepsInv(w, w.asleep[k], Drop(w.asleep, k));
  }

  ghost predicate CanRun(w: World, es: seq<Event>)
    decreases |es|
  {
    es != [] ==> Possible(w, es[0]) && CanRun(Next(w, es[0]), es[1..])
  }

  ghost function RunAll(w: World, es: seq<Event>): World
    requires CanRun(w, es)
    decreases |es|
  {
    if es == [] then w else RunAll(Next(w, es[0]), es[1..])
  }

  /** No wait of the run clashes. */
  ghost predicate NoClash(w: World, es: seq<Event>)
    requires CanRun(w, es)
    decreases |es|
  {
    es != [] ==> !Clash(w, es[0]) && NoClash(Next(w, es[0]), es[1..])
  }

  /** Without a clash no page table is freed twice, in any run with sleeping waits. */
  lemma {:induction false} FreedOnce(w: World, es: seq<Event>)
    requires SafeInv(w) && CanRun(w, es) && NoClash(w, es)
    ensures SafeInv(RunAll(w, es)) && NoDup(RunAll(w, es).freed)
    decreases |es|
  {
    if es != [] {
      EventKeepsInv(w, es[0]);
      FreedOnce(Next(w, es[0]), es[1..]);
    }
  }

  const START := World(BOOT, [], [])

  lemma FreedOnceFromBoot(es: seq<Event>)
    requires CanRun(START, es) && NoClash(START, es)
    ensures NoDup(RunAll(START, es).freed)
  {
    FreedOnce(START, es);
  }

  // ---------------------------------------------------------------- after a clash

  lemma AlsoRuns(w: World, e: Event, es: seq<Event>)
    requires Possible(w, e) && CanRun(Next(w, e), es)
    ensures CanRun(w, [e] + es) && RunAll(w, [e] + es) == RunAll(Next(w, e), es)
    ensures NoClash(w, [e] + es) <==> !Clash(w, e) && NoClash(Next(w, e), es)
  {
    assert ([e] + es)[1..] == es;
  }

  lemma NoEvent(w: World)
    ensures CanRun(w, []) && RunAll(w, []) == w && NoClash(w, [])
  {
  }

  /** Reaping leaves an exited process exited, whether it stays listed or not. */
  lemma ExitedStays(s: Sys, pid: nat)
    requires Inv(s) && Unreaped(s, pid) && HasExited(s, pid)
    ensures HasExited(Continue(s, pid), pid)
  {
    var s' := Continue(s, pid);
    ContinueIsReap(s, pid);
    StepKeepsInv(s, Reap(pid));
    ReapRemoves(s, pid, pid);
    if Listed(s'.procs, pid) {
      assert Lifecycle(s'.procs[Find(s'.procs, pid)]);
    }
  }

  /** A sleeper on a process whose page table has been freed goes on, and frees it again. */
  lemma WakeAgain(w: World, k: nat) returns (es: seq<Event>)
    requires k < |w.asleep| && w.asleep[k] in w.freed && HasExited(w.sys, w.asleep[k])
    ensures CanRun(w, es) && NoClash(w, es) && !NoDup(RunAll(w, es).freed)
  {
    var w' := Next(w, Wake(k));
    var i :| 0 <= i < |w.freed| && w.freed[i] == w.asleep[k];
    assert w'.freed[i] == w'.freed[|w.freed|];
    NoEvent(w');
    AlsoRuns(w, Wake(k), []);
    es := [Wake(k)] + [];
  }

  lemma LastStays(s: seq<nat>, k: nat)
    requires k < |s| - 1
    ensures |Drop(s, k)| == |s| - 1 && Drop(s, k)[|s| - 2] == s[|s| - 1]
  {
  }

  /** Two sleepers on an exited process go on, one after the other. */
  lemma BothWake(w: World, k: nat) returns (es: seq<Event>)
    requires Inv(w.sys) && k < |w.asleep| - 1 && w.asleep[|w.asleep| - 1] == w.asleep[k]
    requires Unreaped(w.sys, w.asleep[k]) && HasExited(w.sys, w.asleep[k])
    ensures CanRun(w, es) && NoClash(w, es) && !NoDup(RunAll(w, es).freed)
  {
    var pid := w.asleep[k];
    ExitedStays(w.sys, pid);
    LastStays(w.asleep, k);
    var w' := World(Continue(w.sys, pid), Drop(w.asleep, k), w.freed + [pid]);
    assert Next(w, Wake(k)) == w';
    assert w'.freed[|w.freed|] == pid;
    es := WakeAgain(w', |w.asleep| - 2);
    AlsoRuns(w, Wake(k), es);
    es := [Wake(k)] + es;
  }

  /** The child a second caller has fallen asleep on exits; then both go on. */
  lemma ExitThenBothWake(w: World, k: nat) returns (es: seq<Event>)
    requires Inv(w.sys) && k < |w.asleep| - 1 && w.asleep[|w.asleep| - 1] == w.asleep[k]
    requires Unreaped(w.sys, w.asleep[k]) && !HasExited(w.sys, w.asleep[k]) && !IsRoot(w.sys, w.asleep[k])
    ensures CanRun(w, es) && NoClash(w, es) && !NoDup(RunAll(w, es).freed)
  {
    var op := Exit(w.asleep[k], 0);
    var w' := Next(w, Call(op));
    NowExited(w.sys, w.asleep[k]);
    es := BothWake(w', k);
    AlsoRuns(w, Call(op), es);
    es := [Call(op)] + es;
  }

  lemma NowExited(s: Sys, pid: nat)
    requires Inv(s) && Unreaped(s, pid) && !HasExited(s, pid) && !IsRoot(s, pid)
    ensures Legal(s, Exit(pid, 0))
    ensures var s' := Step(s, Exit(pid, 0)); Inv(s') && Unreaped(s', pid) && HasExited(s', pid)
  {
    var s' := Step(s, Exit(pid, 0));
    StepKeepsInv(s, Exit(pid, 0));
    FindUnique(s', Find(s.procs, pid));
    ListedAt(s'.procs, Find(s.procs, pid));
  }

  /** After a clash events without any further clash free the page table twice. */
  lemma ClashFreesTwice(w: World, e: Event) returns (es: seq<Event>)
    requires SafeInv(w) && Clash(w, e)
    ensures var w' := Next(w, e); CanRun(w', es) && NoClash(w', es) && !NoDup(RunAll(w', es).freed)
  {
    TargetIs(w.sys, e.pid, e.nohang);
    var pid := w.sys.procs[Target(w.sys.procs, e.pid)].pid;
    var k :| 0 <= k < |w.asleep| && w.asleep[k] == pid;
    var w' := Next(w, e);
    if Answer(w.sys.procs, e.pid, e.nohang).Done? {
      ExitedStays(w.sys, pid);
      assert w'.freed[|w.freed|] == pid;
      es := WakeAgain(w', k);
    } else {
      es := ExitThenBothWake(w', k);
    }
  }

  /** Whatever happens next without a clash, no page table is freed twice. */
  ghost predicate Harmless(w: World) {
    forall es :: CanRun(w, es) && NoClash(w, es) ==> NoDup(RunAll(w, es).freed)
  }

  lemma SafeIsHarmless(w: World)
    requires SafeInv(w)
    ensures Harmless(w)
  {
    forall es | CanRun(w, es) && NoClash(w, es) ensures NoDup(RunAll(w, es).freed) {
      FreedOnce(w, es);
    }
  }

  /** An event is harmless if and only if it does not clash. */
  lemma HarmlessIff(w: World, e: Event)
    requires SafeInv(w) && Possible(w, e)
    ensures Harmless(Next(w, e)) <==> !Clash(w, e)
  {
    if Clash(w, e) {
      var es := ClashFreesTwice(w, e);
    } else {
      EventKeepsInv(w, e);
      SafeIsHarmless(Next(w, e));
    }
  }

  /** The run passes through harmless worlds only. */
  ghost predicate AllHarmless(w: World, es: seq<Event>)
    requires CanRun(w, es)
    decreases |es|
  {
    Harmless(w) && (es != [] ==> AllHarmless(Next(w, es[0]), es[1..]))
  }

  /** A whole run never comes to where a page table will be freed twice, clash or no, if and only if it has no clash. */
  lemma {:induction false} RunHarmlessIff(w: World, es: seq<Event>)
    requires SafeInv(w) && CanRun(w, es)
    ensures AllHarmless(w, es) <==> NoClash(w, es)
    decreases |es|
  {
    SafeIsHarmless(w);
    if es != [] {
      HarmlessIff(w, es[0]);
      if !Clash(w, es[0]) {
        EventKeepsInv(w, es[0]);
        RunHarmlessIff(Next(w, es[0]), es[1..]);
      }
    }
  }

  // ---------------------------------------------------------------- a run from boot

  /** A caller waits for a running child of the list a start-up leaves: it falls asleep on it. */
  lemma SleepsOnChild(w: World, w': World)
    requires w.sys == Sys([P1, P2], 3) && w' == w.(asleep := w.asleep + [2])
    ensures Next(w, Wait(2, false)) == w' && (Clash(w, Wait(2, false)) <==> 2 in w.asleep)
  {
    AtPlace(w.sys, 1);
  }

  /** Two callers fall asleep on the child: the second is a clash. */
  lemma TwoSleep(s: Sys) returns (es: seq<Event>)
    requires s == Sys([P1, P2], 3)
    ensures CanRun(World(s, [], []), es) && RunAll(World(s, [], []), es) == World(s, [] + [2] + [2], [])
  {
    var w1, w2, w3 := World(s, [], []), World(s, [] + [2], []), World(s, [] + [2] + [2], []);
    SleepsOnChild(w1, w2);
    SleepsOnChild(w2, w3);
    NoEvent(w3);
    AlsoRuns(w2, Wait(2, false), []);
    es := [Wait(2, false)] + [];
    AlsoRuns(w1, Wait(2, false), es);
    es := [Wait(2, false)] + es;
  }

  /** A process and its child are made. */
  lemma ChildMade(s: Sys) returns (es: seq<Event>)
    requires s == Sys([P1, P2], 3)
    ensures CanRun(START, es) && RunAll(START, es) == World(s, [], []) && NoClash(START, es)
  {
    var s1 := Sys([P1], 2);
    var w0, w1 := World(s1, [], []), World(s, [], []);
    assert Goes(BOOT, Create([]), s1);
    ForkGoes(s1, 0, s);
    NoEvent(w1);
    AlsoRuns(w0, Call(Fork(1, [])), []);
    es := [Call(Fork(1, []))] + [];
    AlsoRuns(START, Call(Create([])), es);
    es := [Call(Create([]))] + es;
  }

  lemma {:induction false} RunOn(w: World, a: seq<Event>, b: seq<Event>)
    requires CanRun(w, a) && CanRun(RunAll(w, a), b)
    ensures CanRun(w, a + b) && RunAll(w, a + b) == RunAll(RunAll(w, a), b)
    decreases |a|
  {
    if a == [] {
      assert a + b == b;
    } else {
      var w' := Next(w, a[0]);
      RunOn(w', a[1..], b);
      AlsoRuns(w, a[0], a[1..] + b);
      FirstOfBoth(a, b);
    }
  }

  /** A run from the start after which one page table has been freed twice. */
  lemma FreedTwice() returns (es: seq<Event>)
    ensures CanRun(START, es) && !NoDup(RunAll(START, es).freed)
  {
    var s := Sys([P1, P2], 3);
    var w := World(s, [] + [2] + [2], []);
    es := ChildMade(s);
    FreedOnce(START, es);
    var sleep := TwoSleep(s);
    RunOn(START, es, sleep);
    AtPlace(s, 1);
    var more := ExitThenBothWake(w, 0);
    RunOn(START, es + sleep, more);
    es := es + sleep + more;
  }
}
