/**
  The process list as fork, exec, exit and waitpid change it (process.c), on values: who is listed, whose child
  it is, what it owns. The kernel's methods are proved against `Step`; the laws of whole runs are proved here.
*/
module ProcessTree {
  import opened Frames
  import opened Sequences

  datatype State = Ready | Zombie

  /** One listed process. `parent` is a pid, 0 for a process made by create_process. */
  datatype Proc = Proc(pid: nat, parent: nat, state: State, mainThread: bool, exitStatus: int, pages: seq<nat>,
                       tableFrees: nat)

  datatype Sys = Sys(procs: seq<Proc>, next: nat)

  /** What one kernel call does; `pages` are the frames it takes. */
  datatype Op =
    | Create(pages: seq<nat>)
    | Fork(pid: nat, pages: seq<nat>)
    | Exec(pid: nat, pages: seq<nat>)
    | Exit(pid: nat, status: int)
    | Reap(pid: nat)

  // ---------------------------------------------------------------- looking processes up

  ghost predicate Listed(procs: seq<Proc>, pid: nat) {
    exists i :: 0 <= i < |procs| && procs[i].pid == pid
  }

  ghost predicate HasChild(procs: seq<Proc>, pid: nat) {
    exists i :: 0 <= i < |procs| && procs[i].parent == pid
  }

  /** The place of a listed process in the list, or its length. */
  function Find(procs: seq<Proc>, pid: nat): (k: nat)
    ensures k <= |procs|
    ensures k < |procs| ==> procs[k].pid == pid
    ensures forall i :: 0 <= i < k ==> procs[i].pid != pid
    ensures k < |procs| <==> Listed(procs, pid)
  {
    if procs == [] then 0
    else if procs[0].pid == pid then 0
    else
      var k := Find(procs[1..], pid);
      assert Listed(procs[1..], pid) <==> Listed(procs, pid) by {
        if Listed(procs, pid) {
          var i :| 0 <= i < |procs| && procs[i].pid == pid;
          assert procs[1..][i - 1].pid == pid;
        }
      }
      k + 1
  }

  function Without(procs: seq<Proc>, k: nat): (r: seq<Proc>)
    requires k < |procs|
    ensures |r| == |procs| - 1 && forall i :: 0 <= i < |r| ==> r[i] == procs[if i < k then i else i + 1]
  {
    procs[..k] + procs[k + 1..]
  }

  /** All frames owned, process by process. */
  function Owned(procs: seq<Proc>): seq<nat> {
    if procs == [] then [] else procs[0].pages + Owned(procs[1..])
  }

  // ---------------------------------------------------------------- steps

  /** A running process: not a zombie, so its main thread exists. */
  ghost predicate Running(s: Sys, pid: nat) {
    Listed(s.procs, pid) && s.procs[Find(s.procs, pid)].state == Ready
  }

  ghost predicate Fresh(s: Sys, pages: seq<nat>) {
    NoDup(pages) && forall f :: f in pages ==> f !in Owned(s.procs)
  }

  /** What the kernel can do next: only a running process calls it, and a wait ends on a zombie not yet reaped. */
  ghost predicate Legal(s: Sys, op: Op) {
    match op
    case Create(pages) => Fresh(s, pages)
    case Fork(pid, pages) => Running(s, pid) && Fresh(s, pages)
    case Exec(pid, pages) => Running(s, pid) && NoDup(pages) && FreshFor(s, pid, pages)
    case Exit(pid, status) => Running(s, pid) && s.procs[Find(s.procs, pid)].parent != 0
    case Reap(pid) =>
      && Listed(s.procs, pid)
      && s.procs[Find(s.procs, pid)].state == Zombie && s.procs[Find(s.procs, pid)].mainThread
  }

  /** exec releases the old pages first, so it may get them again. */
  ghost predicate FreshFor(s: Sys, pid: nat, pages: seq<nat>)
    requires Listed(s.procs, pid)
  {
    var k := Find(s.procs, pid);
    forall f :: f in pages ==> f !in Owned(s.procs[k := s.procs[k].(pages := [])])
  }

  ghost function Step(s: Sys, op: Op): Sys
    requires Legal(s, op)
  {
    match op
    case Create(pages) => Sys(s.procs + [Proc(s.next, 0, Ready, true, 0, pages, 0)], s.next + 1)
    case Fork(pid, pages) => Sys(s.procs + [Proc(s.next, pid, Ready, true, 0, pages, 0)], s.next + 1)
    case Exec(pid, pages) =>
      var k := Find(s.procs, pid);
      s.(procs := s.procs[k := s.procs[k].(pages := pages)])
    case Exit(pid, status) =>
      var k := Find(s.procs, pid);
      s.(procs := s.procs[k := s.procs[k].(state := Zombie, exitStatus := status, pages := [])])
    case Reap(pid) =>
      var k := Find(s.procs, pid);
      var reaped := s.procs[k].(mainThread := false, tableFrees := s.procs[k].tableFrees + 1);
      s.(procs := if HasChild(s.procs, pid) then s.procs[k := reaped] else Without(s.procs, k))
  }

  // ---------------------------------------------------------------- the invariant

  predicate Older(procs: seq<Proc>, i: nat, j: nat)
    requires i < j < |procs|
  {
    procs[i].pid < procs[j].pid
  }

  predicate Numbered(p: Proc, next: nat) {
    0 < p.pid < next
  }

  /** Listed in order of creation, with pids below the next one to be given. */
  ghost predicate Sorted(s: Sys) {
    && (forall i, j {:trigger Older(s.procs, i, j)} :: 0 <= i < j < |s.procs| ==> Older(s.procs, i, j))
    && (forall i {:trigger Numbered(s.procs[i], s.next)} :: 0 <= i < |s.procs| ==> Numbered(s.procs[i], s.next))
  }

  ghost predicate HasParent(procs: seq<Proc>, p: Proc) {
    p.parent != 0 ==> p.parent < p.pid && Listed(procs, p.parent)
  }

  /** No orphans: the parent of a forked process is listed, and older. */
  ghost predicate Forest(procs: seq<Proc>) {
    forall i {:trigger HasParent(procs, procs[i])} :: 0 <= i < |procs| ==> HasParent(procs, procs[i])
  }

  /** A zombie owns nothing and is some process's child; a page table is freed once, with the main thread. */
  ghost predicate Lifecycle(p: Proc) {
    && (p.state == Zombie ==> p.pages == [] && p.parent != 0)
    && (!p.mainThread ==> p.state == Zombie)
    && p.tableFrees == (if p.mainThread then 0 else 1)
  }

  ghost predicate Inv(s: Sys) {
    && 0 < s.next && Sorted(s) && Forest(s.procs)
    && (forall i {:trigger Lifecycle(s.procs[i])} :: 0 <= i < |s.procs| ==> Lifecycle(s.procs[i]))
    && NoDup(Owned(s.procs))
  }

  // ---------------------------------------------------------------- who owns what

  lemma {:induction false} OwnedConcat(a: seq<Proc>, b: seq<Proc>)
    ensures Owned(a + b) == Owned(a) + Owned(b)
  {
    if a == [] {
      assert a + b == b;
    } else {
      assert (a + b)[1..] == a[1..] + b;
      OwnedConcat(a[1..], b);
    }
  }

  /** The owned frames with process k set apart. */
  lemma OwnedUpdate(procs: seq<Proc>, k: nat, p: Proc)
    requires k < |procs|
    ensures Owned(procs[k := p]) == Owned(procs[..k]) + p.pages + Owned(procs[k + 1..])
  {
    OwnedConcat(procs[..k], [p]);
    OwnedConcat(procs[..k] + [p], procs[k + 1..]);
    assert Owned([p]) == p.pages + Owned([]);
    assert procs[k := p] == procs[..k] + [p] + procs[k + 1..];
  }

  lemma OwnedAt(procs: seq<Proc>, k: nat)
    requires k < |procs|
    ensures Owned(procs) == Owned(procs[..k]) + procs[k].pages + Owned(procs[k + 1..])
  {
    OwnedUpdate(procs, k, procs[k]);
    assert procs[k := procs[k]] == procs;
  }

  lemma OwnedWithout(procs: seq<Proc>, k: nat)
    requires k < |procs|
    ensures Owned(Without(procs, k)) == Owned(procs[..k]) + Owned(procs[k + 1..])
  {
    OwnedConcat(procs[..k], procs[k + 1..]);
  }

  lemma NoDupConcat(a: seq<nat>, b: seq<nat>)
    ensures NoDup(a + b) <==> NoDup(a) && NoDup(b) && forall f :: f in a ==> f !in b
  {
    if NoDup(a + b) {
      forall i, j | 0 <= i < j < |a| ensures a[i] != a[j] {
        assert (a + b)[i] != (a + b)[j];
      }
      forall i, j | 0 <= i < j < |b| ensures b[i] != b[j] {
        assert (a + b)[|a| + i] != (a + b)[|a| + j];
      }
      forall i, j | 0 <= i < |a| && 0 <= j < |b| ensures a[i] != b[j] {
        assert (a + b)[i] != (a + b)[|a| + j];
      }
    }
    if NoDup(a) && NoDup(b) && forall f :: f in a ==> f !in b {
      forall i, j | 0 <= i < j < |a + b| ensures (a + b)[i] != (a + b)[j] {
        if i < |a| <= j {
          assert (a + b)[i] in a && (a + b)[j] in b;
        }
      }
    }
  }

  /** Giving process k other pages, none of which another process owns, keeps all pages distinct. */
  lemma GivePages(procs: seq<Proc>, k: nat, p: Proc)
    requires k < |procs| && NoDup(Owned(procs)) && NoDup(p.pages)
    requires forall f :: f in p.pages ==> f !in Owned(procs[k := procs[k].(pages := [])])
    ensures NoDup(Owned(procs[k := p]))
  {
    var a, b := Owned(procs[..k]), Owned(procs[k + 1..]);
    OwnedAt(procs, k);
    OwnedUpdate(procs, k, p);
    OwnedUpdate(procs, k, procs[k].(pages := []));
    assert a + [] + b == a + b;
    NoDupConcat(a + procs[k].pages, b);
    NoDupConcat(a, procs[k].pages);
    NoDupConcat(a, p.pages);
    NoDupConcat(a + p.pages, b);
    forall f | f in p.pages ensures f !in a && f !in b {
      assert f !in a + b;
    }
  }

  // ---------------------------------------------------------------- every step keeps the invariant

  /** A pid has one place in the list. */
  lemma PidsDiffer(s: Sys, i: nat, j: nat)
    requires Sorted(s) && i < |s.procs| && j < |s.procs| && i != j
    ensures s.procs[i].pid != s.procs[j].pid
  {
    assert if i < j then Older(s.procs, i, j) else Older(s.procs, j, i);
  }

  lemma FindUnique(s: Sys, i: nat)
    requires Sorted(s) && i < |s.procs|
    ensures Find(s.procs, s.procs[i].pid) == i
  {
    assert Listed(s.procs, s.procs[i].pid);
    if Find(s.procs, s.procs[i].pid) != i {
      PidsDiffer(s, Find(s.procs, s.procs[i].pid), i);
    }
  }

  lemma ListedAt(procs: seq<Proc>, i: nat)
    requires i < |procs|
    ensures Listed(procs, procs[i].pid)
  {
  }

  lemma AppendKeepsSorted(s: Sys, p: Proc)
    requires Sorted(s) && p.pid == s.next && 0 < s.next
    ensures Sorted(Sys(s.procs + [p], s.next + 1))
  {
    var s' := Sys(s.procs + [p], s.next + 1);
    forall i | 0 <= i < |s'.procs| ensures Numbered(s'.procs[i], s'.next) {
      assert i < |s.procs| ==> Numbered(s.procs[i], s.next);
    }
    forall i, j | 0 <= i < j < |s'.procs| ensures Older(s'.procs, i, j) {
      assert if j < |s.procs| then Older(s.procs, i, j) else Numbered(s.procs[i], s.next);
    }
  }

  lemma AppendKeepsForest(s: Sys, p: Proc)
    requires Sorted(s) && Forest(s.procs) && p.pid == s.next && (p.parent == 0 || Listed(s.procs, p.parent))
    ensures Forest(s.procs + [p])
  {
    var procs' := s.procs + [p];
    forall i | 0 <= i < |procs'| ensures HasParent(procs', procs'[i]) {
      if procs'[i].parent != 0 {
        assert i < |s.procs| ==> HasParent(s.procs, s.procs[i]);
        var j :| 0 <= j < |s.procs| && s.procs[j].pid == procs'[i].parent;
        assert Numbered(s.procs[j], s.next) && procs'[j] == s.procs[j];
        ListedAt(procs', j);
      }
    }
  }

  lemma AppendKeepsInv(s: Sys, parent: nat, pages: seq<nat>)
    requires Inv(s) && Fresh(s, pages) && (parent == 0 || Listed(s.procs, parent))
    ensures Inv(Sys(s.procs + [Proc(s.next, parent, Ready, true, 0, pages, 0)], s.next + 1))
  {
    var p := Proc(s.next, parent, Ready, true, 0, pages, 0);
    AppendKeepsSorted(s, p);
    AppendKeepsForest(s, p);
    forall i | 0 <= i < |s.procs + [p]| ensures Lifecycle((s.procs + [p])[i]) {
      assert i < |s.procs| ==> Lifecycle(s.procs[i]);
    }
    OwnedConcat(s.procs, [p]);
    assert Owned([p]) == pages + Owned([]) == pages;
    assert forall f :: f in Owned(s.procs) ==> f !in pages;
    NoDupConcat(Owned(s.procs), pages);
  }

  lemma UpdateKeepsForest(procs: seq<Proc>, k: nat, p: Proc)
    requires k < |procs| && p.pid == procs[k].pid && p.parent == procs[k].parent && Forest(procs)
    ensures Forest(procs[k := p])
  {
    var procs' := procs[k := p];
    forall i | 0 <= i < |procs'| ensures HasParent(procs', procs'[i]) {
      assert HasParent(procs, procs[i]);
      if procs[i].parent != 0 {
        ListedAfterUpdate(procs, k, p, procs[i].parent);
      }
    }
  }

  lemma UpdateKeepsSorted(s: Sys, k: nat, p: Proc)
    requires k < |s.procs| && p.pid == s.procs[k].pid && Sorted(s)
    ensures Sorted(s.(procs := s.procs[k := p]))
  {
    var procs' := s.procs[k := p];
    forall i | 0 <= i < |procs'| ensures Numbered(procs'[i], s.next) {
      assert Numbered(s.procs[i], s.next);
    }
    forall i, j | 0 <= i < j < |procs'| ensures Older(procs', i, j) {
      assert Older(s.procs, i, j);
    }
  }

  /** Changing what a process owns or its state, but not its pid or parent. */
  lemma UpdateKeepsInv(s: Sys, k: nat, p: Proc)
    requires Inv(s) && k < |s.procs| && p.pid == s.procs[k].pid && p.parent == s.procs[k].parent
    requires Lifecycle(p) && NoDup(p.pages)
    requires forall f :: f in p.pages ==> f !in Owned(s.procs[k := s.procs[k].(pages := [])])
    ensures Inv(s.(procs := s.procs[k := p]))
  {
    GivePages(s.procs, k, p);
    UpdateKeepsForest(s.procs, k, p);
    UpdateKeepsSorted(s, k, p);
    var procs' := s.procs[k := p];
    forall i | 0 <= i < |procs'| ensures Lifecycle(procs'[i]) {
      assert Lifecycle(s.procs[i]);
    }
  }

  /** Removing process k takes its pid off the list and no other. */
  lemma ListedWithout(s: Sys, k: nat, pid: nat)
    requires Sorted(s) && k < |s.procs|
    ensures Listed(Without(s.procs, k), pid) <==> Listed(s.procs, pid) && pid != s.procs[k].pid
  {
    forall i | 0 <= i < |s.procs| && i != k ensures s.procs[i].pid != s.procs[k].pid {
      PidsDiffer(s, i, k);
    }
    if Listed(s.procs, pid) && pid != s.procs[k].pid {
      StillListed(s.procs, k, pid);
    }
    if Listed(Without(s.procs, k), pid) {
      OnlyListed(s.procs, k, pid);
    }
  }

  lemma StillListed(procs: seq<Proc>, k: nat, pid: nat)
    requires k < |procs| && Listed(procs, pid) && pid != procs[k].pid
    ensures Listed(Without(procs, k), pid)
  {
    var j :| 0 <= j < |procs| && procs[j].pid == pid;
    var i := if j < k then j else j - 1;
    assert Without(procs, k)[i].pid == pid;
  }

  lemma OnlyListed(procs: seq<Proc>, k: nat, pid: nat)
    requires k < |procs| && forall i :: 0 <= i < |procs| && i != k ==> procs[i].pid != procs[k].pid
    requires Listed(Without(procs, k), pid)
    ensures Listed(procs, pid) && pid != procs[k].pid
  {
  }

  lemma RemoveKeepsForest(s: Sys, k: nat)
    requires Sorted(s) && Forest(s.procs) && k < |s.procs| && !HasChild(s.procs, s.procs[k].pid)
    ensures Forest(Without(s.procs, k))
  {
    var procs' := Without(s.procs, k);
    forall i | 0 <= i < |procs'| ensures HasParent(procs', procs'[i]) {
      var j := if i < k then i else i + 1;
      assert procs'[i] == s.procs[j] && HasParent(s.procs, s.procs[j]);
      ListedWithout(s, k, procs'[i].parent);
    }
  }

  lemma RemoveKeepsSorted(s: Sys, k: nat)
    requires Sorted(s) && k < |s.procs|
    ensures Sorted(s.(procs := Without(s.procs, k)))
  {
    var procs' := Without(s.procs, k);
    forall i | 0 <= i < |procs'| ensures Numbered(procs'[i], s.next) {
      assert Numbered(s.procs[if i < k then i else i + 1], s.next);
    }
    forall i, j | 0 <= i < j < |procs'| ensures Older(procs', i, j) {
      assert Older(s.procs, if i < k then i else i + 1, if j < k then j else j + 1);
    }
  }

  lemma OwnedByOthers(procs: seq<Proc>, k: nat)
    requires k < |procs| && procs[k].pages == []
    ensures Owned(Without(procs, k)) == Owned(procs)
  {
    OwnedAt(procs, k);
    OwnedWithout(procs, k);
    EmptyMiddle(Owned(procs[..k]), Owned(procs[k + 1..]));
  }

  lemma EmptyMiddle(a: seq<nat>, b: seq<nat>)
    ensures a + [] + b == a + b
  {
  }

  lemma RemoveKeepsInv(s: Sys, k: nat)
    requires Inv(s) && k < |s.procs| && !HasChild(s.procs, s.procs[k].pid) && s.procs[k].pages == []
    ensures Inv(s.(procs := Without(s.procs, k)))
  {
    RemoveKeepsForest(s, k);
    RemoveKeepsSorted(s, k);
    OwnedByOthers(s.procs, k);
    forall i | 0 <= i < |s.procs| - 1
      ensures Lifecycle(Without(s.procs, k)[i])
    {
      assert Lifecycle(s.procs[if i < k then i else i + 1]);
    }
  }

  lemma StepKeepsInv(s: Sys, op: Op)
    requires Inv(s) && Legal(s, op)
    ensures Inv(Step(s, op))
  {
    match op
    case Create(pages) => AppendKeepsInv(s, 0, pages);
    case Fork(pid, pages) => AppendKeepsInv(s, pid, pages);
    case Exec(pid, pages) =>
      var k := Find(s.procs, pid);
      assert Lifecycle(s.procs[k]);
      UpdateKeepsInv(s, k, s.procs[k].(pages := pages));
    case Exit(pid, status) =>
      var k := Find(s.procs, pid);
      assert Lifecycle(s.procs[k]);
      UpdateKeepsInv(s, k, s.procs[k].(state := Zombie, exitStatus := status, pages := []));
    case Reap(pid) =>
      var k := Find(s.procs, pid);
      var reaped := s.procs[k].(mainThread := false, tableFrees := s.procs[k].tableFrees + 1);
      assert Lifecycle(s.procs[k]);
      if HasChild(s.procs, pid) {
        UpdateKeepsInv(s, k, reaped);
      } else {
        RemoveKeepsInv(s, k);
      }
  }

  // ---------------------------------------------------------------- whole runs

  const BOOT := Sys([], 1)

  ghost predicate LegalRun(s: Sys, ops: seq<Op>)
    decreases |ops|
  {
    ops != [] ==> Legal(s, ops[0]) && LegalRun(Step(s, ops[0]), ops[1..])
  }

  ghost function Run(s: Sys, ops: seq<Op>): Sys
    requires LegalRun(s, ops)
    decreases |ops|
  {
    if ops == [] then s else Run(Step(s, ops[0]), ops[1..])
  }

  /** Every state a run reaches is a sorted forest of processes that share no frame. */
  lemma {:induction false} RunKeepsInv(s: Sys, ops: seq<Op>)
    requires Inv(s) && LegalRun(s, ops)
    ensures Inv(Run(s, ops))
    decreases |ops|
  {
    if ops != [] {
      StepKeepsInv(s, ops[0]);
      RunKeepsInv(Step(s, ops[0]), ops[1..]);
    }
  }

  lemma BootRun(ops: seq<Op>)
    requires LegalRun(BOOT, ops)
    ensures Inv(Run(BOOT, ops))
  {
    RunKeepsInv(BOOT, ops);
  }

  /** The chain of parents of a listed process ends at one made by create_process. */
  function Root(s: Sys, pid: nat): (r: nat)
    requires Inv(s) && Listed(s.procs, pid)
    ensures Listed(s.procs, r) && s.procs[Find(s.procs, r)].parent == 0 && r <= pid
    decreases pid
  {
    var k := Find(s.procs, pid);
    assert HasParent(s.procs, s.procs[k]);
    if s.procs[k].parent == 0 then pid else Root(s, s.procs[k].parent)
  }

  /** Listed, but already waited for: only its page table and main thread are gone. */
  ghost predicate Reaped(s: Sys, pid: nat) {
    Listed(s.procs, pid) && !s.procs[Find(s.procs, pid)].mainThread
  }

  /** What waiting for a zombie does to the list: it goes exactly when nobody names it as parent. */
  lemma ReapRemoves(s: Sys, pid: nat, other: nat)
    requires Inv(s) && Legal(s, Reap(pid))
    ensures Listed(Step(s, Reap(pid)).procs, pid) <==> HasChild(s.procs, pid)
    ensures other != pid ==> (Listed(Step(s, Reap(pid)).procs, other) <==> Listed(s.procs, other))
    ensures HasChild(s.procs, pid) ==> Reaped(Step(s, Reap(pid)), pid)
  {
    var s' := Step(s, Reap(pid));
    StepKeepsInv(s, Reap(pid));
    var k := Find(s.procs, pid);
    if HasChild(s.procs, pid) {
      assert s'.procs[k].pid == pid;
      FindUnique(s', k);
      ListedAfterUpdate(s.procs, k, s'.procs[k], other);
    } else {
      ListedWithout(s, k, pid);
      ListedWithout(s, k, other);
    }
  }

  lemma ListedAfterUpdate(procs: seq<Proc>, k: nat, p: Proc, pid: nat)
    requires k < |procs| && p.pid == procs[k].pid
    ensures Listed(procs[k := p], pid) <==> Listed(procs, pid)
  {
    var procs' := procs[k := p];
    if Listed(procs, pid) {
      var i :| 0 <= i < |procs| && procs[i].pid == pid;
      assert procs'[i].pid == pid;
    }
    if Listed(procs', pid) {
      var i :| 0 <= i < |procs'| && procs'[i].pid == pid;
      assert procs[i].pid == pid;
    }
  }

  /** No step takes a reaped process off the list, not even the last of its children being waited for. */
  lemma ReapedStaysStep(s: Sys, op: Op, pid: nat)
    requires Inv(s) && Legal(s, op) && Reaped(s, pid)
    ensures Reaped(Step(s, op), pid)
  {
    StepKeepsInv(s, op);
    var s' := Step(s, op);
    var k := Find(s.procs, pid);
    var i := if op.Reap? && !HasChild(s.procs, op.pid) && Find(s.procs, op.pid) < k then k - 1 else k;
    KeepsPlace(s, op, k, i);
    FindUnique(s', i);
    ListedAt(s'.procs, i);
  }

  /** Where a reaped process is after a step. */
  lemma KeepsPlace(s: Sys, op: Op, k: nat, i: nat)
    requires Inv(s) && Legal(s, op) && k < |s.procs| && !s.procs[k].mainThread
    requires i == if op.Reap? && !HasChild(s.procs, op.pid) && Find(s.procs, op.pid) < k then k - 1 else k
    ensures i < |Step(s, op).procs| && Step(s, op).procs[i].pid == s.procs[k].pid && !Step(s, op).procs[i].mainThread
  {
  }

  lemma {:induction false} ReapedStays(s: Sys, ops: seq<Op>, pid: nat)
    requires Inv(s) && LegalRun(s, ops) && Reaped(s, pid)
    ensures Reaped(Run(s, ops), pid)
    decreases |ops|
  {
    if ops != [] {
      ReapedStaysStep(s, ops[0], pid);
      StepKeepsInv(s, ops[0]);
      ReapedStays(Step(s, ops[0]), ops[1..], pid);
    }
  }

  const P1 := Proc(1, 0, Ready, true, 0, [], 0)
  const P2 := Proc(2, 1, Ready, true, 0, [], 0)
  const P3 := Proc(3, 2, Ready, true, 0, [], 0)

  /** Where Find finds the pid at place k, for lists numbered from 1. */
  lemma AtPlace(s: Sys, k: nat)
    requires k < |s.procs| && forall i :: 0 <= i <= k ==> s.procs[i].pid == i + 1
    ensures Find(s.procs, k + 1) == k && Listed(s.procs, k + 1)
  {
    ListedAt(s.procs, k);
  }

  ghost predicate Goes(s: Sys, op: Op, s': Sys) {
    Legal(s, op) && Step(s, op) == s'
  }

  lemma RunFirst(s: Sys, op: Op, s': Sys, ops: seq<Op>)
    requires Goes(s, op, s') && LegalRun(s', ops)
    ensures LegalRun(s, [op] + ops) && Run(s, [op] + ops) == Run(s', ops)
  {
    assert ([op] + ops)[1..] == ops;
  }

  lemma ForkGoes(s: Sys, k: nat, s': Sys)
    requires k < |s.procs| && forall i :: 0 <= i <= k ==> s.procs[i].pid == i + 1
    requires s.procs[k].state == Ready && s' == Sys(s.procs + [Proc(s.next, k + 1, Ready, true, 0, [], 0)], s.next + 1)
    ensures Goes(s, Fork(k + 1, []), s')
  {
    AtPlace(s, k);
  }

  /** A process, its child, and the child's child. */
  lemma ThreeGenerations(s: Sys) returns (ops: seq<Op>)
    requires s == Sys([P1, P2, P3], 4)
    ensures LegalRun(BOOT, ops) && Run(BOOT, ops) == s
  {
    var s1, s2 := Sys([P1], 2), Sys([P1, P2], 3);
    assert Goes(BOOT, Create([]), s1);
    ForkGoes(s1, 0, s2);
    ForkGoes(s2, 1, s);
    assert LegalRun(s, []) && Run(s, []) == s;
    RunFirst(s2, Fork(2, []), s, []);
    RunFirst(s1, Fork(1, []), s2, [Fork(2, [])] + []);
    RunFirst(BOOT, Create([]), s1, [Fork(1, [])] + ([Fork(2, [])] + []));
    ops := [Create([])] + ([Fork(1, [])] + ([Fork(2, [])] + []));
  }

  /** The child exits and is waited for while its own child is there. */
  lemma WaitedWithChild(s: Sys, s': Sys) returns (ops: seq<Op>)
    requires s == Sys([P1, P2, P3], 4)
    requires s' == Sys([P1, Proc(2, 1, Zombie, false, 0, [], 1), P3], 4)
    ensures LegalRun(s, ops) && Run(s, ops) == s'
  {
    var z := Sys([P1, P2.(state := Zombie), P3], 4);
    AtPlace(s, 1);
    AtPlace(z, 1);
    assert HasChild(z.procs, 2) by { assert z.procs[2].parent == 2; }
    assert Goes(s, Exit(2, 0), z) && Goes(z, Reap(2), s');
    assert LegalRun(s', []) && Run(s', []) == s';
    RunFirst(z, Reap(2), s', []);
    RunFirst(s, Exit(2, 0), z, [Reap(2)] + []);
    ops := [Exit(2, 0)] + ([Reap(2)] + []);
  }

  /** Then its own child exits and is waited for. */
  lemma LastChildGone(s: Sys, s': Sys) returns (ops: seq<Op>)
    requires s == Sys([P1, Proc(2, 1, Zombie, false, 0, [], 1), P3], 4)
    requires s' == Sys([P1, Proc(2, 1, Zombie, false, 0, [], 1)], 4)
    ensures LegalRun(s, ops) && Run(s, ops) == s'
  {
    var z := s.(procs := s.procs[2 := P3.(state := Zombie)]);
    AtPlace(s, 2);
    AtPlace(z, 2);
    assert Without(z.procs, 2) == s'.procs;
    assert Goes(s, Exit(3, 0), z) && Goes(z, Reap(3), s');
    assert LegalRun(s', []) && Run(s', []) == s';
    RunFirst(z, Reap(3), s', []);
    RunFirst(s, Exit(3, 0), z, [Reap(3)] + []);
    ops := [Exit(3, 0)] + ([Reap(3)] + []);
  }

  lemma {:induction false} RunSplit(s: Sys, a: seq<Op>, b: seq<Op>)
    requires LegalRun(s, a) && LegalRun(Run(s, a), b)
    ensures LegalRun(s, a + b) && Run(s, a + b) == Run(Run(s, a), b)
    decreases |a|
  {
    if a == [] {
      assert a + b == b;
    } else {
      var s' := Step(s, a[0]);
      RunSplit(s', a[1..], b);
      RunFirst(s, a[0], s', a[1..] + b);
      FirstOfBoth(a, b);
    }
  }

  /** A run after which process 2 has been waited for and has no children, and is listed all the same. */
  lemma LeftBehind() returns (ops: seq<Op>)
    ensures LegalRun(BOOT, ops)
    ensures var s := Run(BOOT, ops); Reaped(s, 2) && !HasChild(s.procs, 2)
  {
    var s, w := Sys([P1, P2, P3], 4), Sys([P1, Proc(2, 1, Zombie, false, 0, [], 1), P3], 4);
    var e := Sys([P1, Proc(2, 1, Zombie, false, 0, [], 1)], 4);
    var a := ThreeGenerations(s);
    var b := WaitedWithChild(s, w);
    var c := LastChildGone(w, e);
    RunSplit(BOOT, a, b);
    RunSplit(BOOT, a + b, c);
    AtPlace(e, 1);
    ops := a + b + c;
  }

  /** A pid names one process for ever: once given, it is never given again. */
  lemma PidNotReusedStep(s: Sys, op: Op, pid: nat)
    requires Inv(s) && Legal(s, op) && pid < s.next && Listed(Step(s, op).procs, pid)
    ensures Listed(s.procs, pid) && s.next <= Step(s, op).next
  {
  }

  lemma {:induction false} PidNotReused(s: Sys, ops: seq<Op>, pid: nat)
    requires Inv(s) && LegalRun(s, ops) && pid < s.next && Listed(Run(s, ops).procs, pid)
    ensures Listed(s.procs, pid)
    decreases |ops|
  {
    if ops != [] {
      StepKeepsInv(s, ops[0]);
      NextGrows(s, ops[0]);
      PidNotReused(Step(s, ops[0]), ops[1..], pid);
      PidNotReusedStep(s, ops[0], pid);
    }
  }

  lemma NextGrows(s: Sys, op: Op)
    requires Legal(s, op)
    ensures s.next <= Step(s, op).next
  {
  }

  // ---------------------------------------------------------------- what a wait answers

  /**
    NoThread: the process was waited for before and is still listed; the code would join a thread that is gone.
    Blocked: the caller sleeps until the process has exited.
  */
  datatype WaitResult = NoChild | StillRunning | NoThread | Blocked | Done(pid: nat, wstatus: int)

  /** The first zombie not yet waited for, or the length of the list. */
  function FirstZombie(procs: seq<Proc>): (k: nat)
    ensures k <= |procs|
    ensures k < |procs| ==> procs[k].state == Zombie && procs[k].mainThread
    ensures forall i :: 0 <= i < k ==> !(procs[i].state == Zombie && procs[i].mainThread)
  {
    if procs == [] then 0
    else if procs[0].state == Zombie && procs[0].mainThread then 0
    else FirstZombie(procs[1..]) + 1
  }

  /** The process a wait is about: any zombie for -1, otherwise the one with that pid. */
  function Target(procs: seq<Proc>, pid: int): (k: nat)
    ensures k <= |procs|
  {
    if pid == -1 then FirstZombie(procs) else if pid < 0 then |procs| else Find(procs, pid)
  }

  /** The low byte of the exit code, where the wait page of IEEE Std 1003.1 has it. */
  function WaitStatus(exitStatus: int): (wstatus: int)
    ensures wstatus % 0x100 == 0 && wstatus / 0x100 == exitStatus % 0x100
  {
    exitStatus % 0x100 * 0x100
  }

  function Answer(procs: seq<Proc>, pid: int, nohang: bool): WaitResult {
    var k := Target(procs, pid);
    if k == |procs| then NoChild
    else if nohang && procs[k].state != Zombie then StillRunning
    else if !procs[k].mainThread then NoThread
    else if procs[k].state != Zombie then Blocked
    else Done(procs[k].pid, WaitStatus(procs[k].exitStatus))
  }

  /** What a wait with a pid answers, by the process that has it. */
  lemma AnswerForPid(s: Sys, pid: nat, nohang: bool, k: nat)
    requires Inv(s) && k < |s.procs| && s.procs[k].pid == pid
    ensures var r, p := Answer(s.procs, pid, nohang), s.procs[k];
            && (r.StillRunning? <==> p.state == Ready && nohang) && (r.Blocked? <==> p.state == Ready && !nohang)
            && (r.NoThread? <==> p.state == Zombie && !p.mainThread)
            && (r.Done? <==> p.state == Zombie && p.mainThread) && (r.Done? ==> r.pid == pid) && !r.NoChild?
  {
    FindUnique(s, k);
    assert Lifecycle(s.procs[k]);
  }

  /** And when no process has it, or the pid is negative but not -1. */
  lemma NoSuchChild(s: Sys, pid: int, nohang: bool)
    requires pid != -1 && forall k :: 0 <= k < |s.procs| ==> s.procs[k].pid != pid
    ensures Answer(s.procs, pid, nohang) == NoChild
  {
  }

  /** A wait for any child takes the first zombie that nobody has waited for, and never sleeps. */
  lemma AnswerForAny(procs: seq<Proc>, nohang: bool)
    ensures var r := Answer(procs, -1, nohang);
            && (r.NoChild? <==> forall k :: 0 <= k < |procs| ==> !(procs[k].state == Zombie && procs[k].mainThread))
            && (r.Done? || r.NoChild?)
            && (r.Done? ==> exists k :: 0 <= k < |procs| && procs[k].pid == r.pid && procs[k].state == Zombie
                                        && procs[k].mainThread && forall i :: 0 <= i < k ==>
                                          !(procs[i].state == Zombie && procs[i].mainThread))
  {
  }

  /** A wait that returns a pid is a legal reaping of it, and reports what it exited with. */
  lemma DoneIsReap(s: Sys, pid: int, nohang: bool)
    requires Inv(s) && Answer(s.procs, pid, nohang).Done?
    ensures Legal(s, Reap(Answer(s.procs, pid, nohang).pid))
    ensures var r := Answer(s.procs, pid, nohang);
            && r.wstatus % 0x100 == 0 && r.wstatus / 0x100 == s.procs[Find(s.procs, r.pid)].exitStatus % 0x100
            && (pid != -1 ==> r.pid == pid)
  {
    FindUnique(s, Target(s.procs, pid));
  }

  /**
    A process that exits is found by the next wait for it, with its exit code, and a wait for it never fails before.
  */
  lemma ExitThenWait(s: Sys, pid: nat, status: int, nohang: bool)
    requires Inv(s) && Legal(s, Exit(pid, status))
    ensures var r := Answer(Step(s, Exit(pid, status)).procs, pid, nohang);
            r.Done? && r.pid == pid && r.wstatus % 0x100 == 0 && r.wstatus / 0x100 == status % 0x100
    ensures Answer(s.procs, pid, nohang) == if nohang then StillRunning else Blocked
  {
    var s' := Step(s, Exit(pid, status));
    StepKeepsInv(s, Exit(pid, status));
    var k := Find(s.procs, pid);
    assert s'.procs[k].pid == pid;
    FindUnique(s', k);
    assert Lifecycle(s.procs[k]);
  }
}
