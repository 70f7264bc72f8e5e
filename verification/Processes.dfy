/**
  The kernel's process list, with its PCBs and page frames as the objects the code updates in place
  (new_process, do_fork, exec's page turnover, do_exit, do_waitpid), proved against the steps of ProcessTree.
*/
module Processes {
  import opened Frames
  import opened Sequences
  import opened PTree = ProcessTree
  import opened W = Waits

  /** A process control block, as far as the process list is concerned. */
  class Process {
    const pid: nat
    const parent: Process?
    var state: State
    var mainThread: bool
    var exitStatus: int
    var pages: seq<nat>          // page_list
    ghost var tableFrees: nat    // how often the page table has been freed

    constructor (pid: nat, parent: Process?, pages: seq<nat>)
      ensures this.pid == pid && this.parent == parent && this.pages == pages
      ensures state == Ready && mainThread && exitStatus == 0 && tableFrees == 0
    {
      this.pid, this.parent, this.pages := pid, parent, pages;
      state, mainThread, exitStatus, tableFrees := Ready, true, 0, 0;
    }

    ghost function View(): Proc
      reads this
    {
      Proc(pid, if parent == null then 0 else parent.pid, state, mainThread, exitStatus, pages, tableFrees)
    }
  }

  /** Each frame has as many references as page-list entries name it, and is free exactly when it has none. */
  ghost predicate Counted(free: set<nat>, ref: map<nat, nat>, owned: seq<nat>) {
    && (forall f :: f in owned ==> f in ref)
    && (forall f :: f in ref ==> ref[f] == multiset(owned)[f])
    && (forall f :: f in free <==> f in ref && ref[f] == 0)
  }

  class Kernel {
    var list: seq<Process>       // proc_list
    var pidCurrent: nat
    const frames: FrameTable
    ghost const all: set<nat>    // every frame there is

    ghost function View(): Sys
      reads this, list
    {
      Sys(Views(list), pidCurrent)
    }

    static ghost function Views(list: seq<Process>): seq<Proc>
      reads list
    {
      seq(|list|, i requires 0 <= i < |list| reads list => list[i].View())
    }

    ghost predicate Valid()
      reads this, list, frames
    {
      && (forall i, j :: 0 <= i < j < |list| ==> list[i] != list[j])
      && (forall p :: p in list && p.parent != null ==> p.parent in list)
      && frames.Valid() && frames.refcount.Keys == all && Inv(View())
      && Counted(frames.free, frames.refcount, Owned(Views(list)))
    }

    constructor (frames: FrameTable)
      requires frames.Valid() && Counted(frames.free, frames.refcount, [])
      ensures Valid() && this.frames == frames && View() == BOOT
    {
      list := [];
      pidCurrent := 1;
      this.frames := frames;
      all := frames.refcount.Keys;
    }

    /** The list's view, from that of its members. */
    static lemma ViewsAre(l: seq<Process>, procs: seq<Proc>)
      requires |l| == |procs| && forall i :: 0 <= i < |l| ==> l[i].View() == procs[i]
      ensures Views(l) == procs
    {
    }

    /** find_proc_by_pid. */
    method FindProcByPid(pid: nat) returns (p: Process?)
      ensures var k := Find(Views(list), pid); if k == |list| then p == null else p == list[k]
    {
      for i := 0 to |list|
        invariant forall k :: 0 <= k < i ==> list[k].pid != pid
      {
        if list[i].pid == pid {
          assert Views(list)[i].pid == pid;
          FirstIsFound(Views(list), i, pid);
          return list[i];
        }
      }
      assert forall k :: 0 <= k < |list| ==> Views(list)[k].pid != pid;
      return null;
    }

    static lemma FirstIsFound(procs: seq<Proc>, i: nat, pid: nat)
      requires i < |procs| && procs[i].pid == pid && forall k :: 0 <= k < i ==> procs[k].pid != pid
      ensures Find(procs, pid) == i
    {
    }

    /** find_proc_zombie_to_clean. */
    method FindProcZombieToClean() returns (p: Process?)
      ensures var k := FirstZombie(Views(list)); if k == |list| then p == null else p == list[k]
    {
      for i := 0 to |list|
        invariant forall k :: 0 <= k < i ==> !(list[k].state == Zombie && list[k].mainThread)
      {
        if list[i].state == Zombie && list[i].mainThread {
          assert forall k :: 0 <= k < i ==> Views(list)[k] == list[k].View();
          assert Views(list)[i] == list[i].View();
          return list[i];
        }
      }
      assert forall k :: 0 <= k < |list| ==> Views(list)[k] == list[k].View();
      return null;
    }

    /** find_proc_by_parent. */
    method FindProcByParent(parent: Process) returns (p: Process?)
      ensures p == null <==> !IsParent(list, parent)
      ensures p != null ==> p in list && p.parent == parent
    {
      for i := 0 to |list|
        invariant forall k :: 0 <= k < i ==> list[k].parent != parent
      {
        if list[i].parent == parent {
          return list[i];
        }
      }
      return null;
    }

    /** Listed processes with the same pid are the same object. */
    lemma SamePid(p: Process?, q: Process)
      requires Valid() && q in list && (p != null ==> p in list) && p != q
      ensures (if p == null then 0 else p.pid) != q.pid
    {
      var j :| 0 <= j < |list| && list[j] == q;
      assert Views(list)[j].pid == q.pid && Numbered(View().procs[j], View().next);
      if p != null {
        var i :| 0 <= i < |list| && list[i] == p;
        assert Views(list)[i].pid == p.pid;
        FindUnique(View(), i);
        FindUnique(View(), j);
      }
    }

    static ghost predicate IsParent(l: seq<Process>, p: Process) {
      exists q :: q in l && q.parent == p
    }

    /** A listed process is some process's parent exactly when its pid is. */
    lemma ParentByPid(parent: Process)
      requires Valid() && parent in list
      ensures HasChild(Views(list), parent.pid) <==> IsParent(list, parent)
    {
      if q :| q in list && q.parent == parent {
        var i :| 0 <= i < |list| && list[i] == q;
        assert Views(list)[i].parent == parent.pid;
      }
      if HasChild(Views(list), parent.pid) {
        var i :| 0 <= i < |list| && Views(list)[i].parent == parent.pid;
        assert list[i] in list;
        if list[i].parent != parent {
          SamePid(list[i].parent, parent);
        }
      }
    }

    /** remove_proc: nothing happens for a process that is not listed. */
    method RemoveProc(p: Process)
      requires forall i, j :: 0 <= i < j < |list| ==> list[i] != list[j]
      modifies this`list
      ensures p !in old(list) ==> list == old(list)
      ensures forall k :: 0 <= k < |old(list)| && old(list)[k] == p ==> list == old(list)[..k] + old(list)[k + 1..]
      ensures forall i, j :: 0 <= i < j < |list| ==> list[i] != list[j]
    {
      var i := 0;
      while i < |list|
        invariant 0 <= i <= |list| && list == old(list)
        invariant p !in list[..i]
      {
        if list[i] == p {
          list := list[..i] + list[i + 1..];
          return;
        }
        i := i + 1;
      }
    }

    /** new_process and the frames of its first pages: stack pages for create_process, copies for fork. */
    method AddProcess(parent: Process?, nr_pages: nat) returns (ok: bool, p: Process)
      requires Valid() && (parent != null ==> parent in list)
      modifies this, frames`free, frames`refcount
      ensures !ok ==> frames.free == {}
      ensures ok ==> Valid() && fresh(p) && list == old(list) + [p] && |p.pages| == nr_pages
      ensures ok ==> p.pid == old(pidCurrent) && Fresh(old(View()), p.pages)
      ensures ok ==> var forkedFrom := if parent == null then 0 else parent.pid;
                     var child := Proc(old(pidCurrent), forkedFrom, Ready, true, 0, p.pages, 0);
                     View() == Sys(old(View()).procs + [child], old(pidCurrent) + 1)
    {
      ghost var s, free0, ref0 := View(), frames.free, frames.refcount;
      p := new Process(pidCurrent, parent, []);
      pidCurrent := pidCurrent + 1;
      var fs;
      ok, fs := frames.TakeFrames(nr_pages);
      if ok {
        p.pages := fs;
        list := list + [p];
        assert Views(list) == s.procs + [p.View()];
        TakenAreFresh(s, free0, ref0, frames.free, frames.refcount, fs);
        if parent != null {
          ParentListed(old(list), parent);
        }
        AppendKeepsInv(s, if parent == null then 0 else parent.pid, fs);
        AppendCounted(s.procs, p.View(), free0, ref0, frames.free, frames.refcount);
      }
    }

    /** The list without repetition, its references counted, and p in place k. */
    ghost predicate Tallied(p: Process, k: nat)
      reads this, list, frames
    {
      && frames.Valid() && frames.refcount.Keys == all && k < |list| && list[k] == p
      && (forall i, j :: 0 <= i < j < |list| ==> list[i] != list[j])
      && Counted(frames.free, frames.refcount, Owned(Views(list)))
    }

    /** release_proc_pages. */
    method ReleasePages(p: Process, ghost k: nat)
      requires Tallied(p, k) && NoDup(Owned(Views(list)))
      modifies p`pages, frames`free, frames`refcount
      ensures Tallied(p, k) && p.pages == []
      ensures Views(list) == old(Views(list))[k := old(p.View()).(pages := [])]
    {
      DropOwned(frames, p.pages, Views(list), k);
      ClearPageList(p, k);
    }

    /** Drop the references of one process's page list. */
    static method DropOwned(frames: FrameTable, pages: seq<nat>, ghost procs: seq<Proc>, ghost k: nat)
      requires frames.Valid() && Counted(frames.free, frames.refcount, Owned(procs)) && NoDup(Owned(procs))
      requires k < |procs| && pages == procs[k].pages
      modifies frames`free, frames`refcount
      ensures frames.Valid() && frames.refcount.Keys == old(frames.refcount.Keys)
      ensures Counted(frames.free, frames.refcount, Owned(procs[k := procs[k].(pages := [])]))
    {
      ghost var free0, ref0 := frames.free, frames.refcount;
      OwnsItsPages(procs, k, free0, ref0);
      frames.DropAll(pages);
      ReleasedCounted(procs, k, free0, ref0, frames.free, frames.refcount);
    }

    /** The page list of process k becomes empty. */
    method ClearPageList(p: Process, ghost k: nat)
      requires k < |list| && list[k] == p && forall i, j :: 0 <= i < j < |list| ==> list[i] != list[j]
      modifies p`pages
      ensures p.pages == [] && Views(list) == old(Views(list))[k := old(p.View()).(pages := [])]
    {
      ghost var gone := Views(list)[k := p.View().(pages := [])];
      p.pages := [];
      forall i | 0 <= i < |list| ensures list[i].View() == gone[i] {
        assert i == k || list[i] != p;
      }
      ViewsAre(list, gone);
    }

    /** Take nr_pages frames for a process that has none. */
    method TakePages(p: Process, nr_pages: nat, ghost k: nat) returns (ok: bool)
      requires Tallied(p, k) && p.pages == []
      modifies p`pages, frames`free, frames`refcount
      ensures !ok ==> frames.free == {}
      ensures ok ==> Tallied(p, k) && |p.pages| == nr_pages && NoDup(p.pages)
      ensures ok ==> Views(list) == old(Views(list))[k := p.View()] && p.View() == old(p.View()).(pages := p.pages)
      ensures ok ==> forall f :: f in p.pages ==> f !in old(Owned(Views(list)))
    {
      ghost var procs, free1, ref1 := Views(list), frames.free, frames.refcount;
      assert procs[k := procs[k].(pages := [])] == procs;
      var fs;
      ok, fs := frames.TakeFrames(nr_pages);
      if ok {
        p.pages := fs;
        forall i | 0 <= i < |list| ensures list[i].View() == procs[k := p.View()][i] {
          assert i == k || list[i] != p;
        }
        ViewsAre(list, procs[k := p.View()]);
        UpdateCounted(procs, k, p.View(), free1, ref1, frames.free, frames.refcount);
        TakenAreFresh(Sys(procs, 1), free1, ref1, frames.free, frames.refcount, fs);
      }
    }

    lemma IndexOf(p: Process) returns (k: nat)
      requires Valid() && p in list
      ensures k < |list| && list[k] == p && Find(Views(list), p.pid) == k && Views(list)[k] == p.View()
    {
      k :| 0 <= k < |list| && list[k] == p;
      assert Views(list)[k].pid == p.pid;
      FindUnique(View(), k);
    }

    /** do_fork: a child with a frame for each page of its parent. */
    method DoFork(parent: Process) returns (ok: bool, pid: nat)
      requires Valid() && parent in list && parent.state == Ready
      modifies this, frames`free, frames`refcount
      ensures !ok ==> frames.free == {}
      ensures ok ==> Valid() && pid == old(pidCurrent)
      ensures ok ==> |list| == |old(list)| + 1 && |list[|old(list)|].pages| == |parent.pages|
      ensures ok ==> var op := Op.Fork(parent.pid, list[|old(list)|].pages);
                     Legal(old(View()), op) && View() == Step(old(View()), op)
    {
      ghost var k := IndexOf(parent);
      var child;
      ok, child := AddProcess(parent, |parent.pages|);
      pid := child.pid;
      ParentListed(old(list), parent);
    }

    /** create_process: a process without a parent, with its stack pages. */
    method CreateProcess(stackPages: nat) returns (ok: bool)
      requires Valid()
      modifies this, frames`free, frames`refcount
      ensures !ok ==> frames.free == {}
      ensures ok ==> Valid() && |list| == |old(list)| + 1 && |list[|old(list)|].pages| == stackPages
      ensures ok ==> var op := Op.Create(list[|old(list)|].pages);
                     Legal(old(View()), op) && View() == Step(old(View()), op)
    {
      var p;
      ok, p := AddProcess(null, stackPages);
    }

    /** The frames of exec: all the old ones go, nr_pages new ones come. */
    method TurnOverPages(p: Process, nr_pages: nat, ghost k: nat) returns (ok: bool)
      requires Tallied(p, k) && NoDup(Owned(Views(list)))
      modifies p`pages, frames`free, frames`refcount
      ensures !ok ==> frames.free == {}
      ensures ok ==> Tallied(p, k) && |p.pages| == nr_pages && NoDup(p.pages)
      ensures ok ==> Views(list) == old(Views(list))[k := old(p.View()).(pages := p.pages)]
      ensures ok ==> forall f :: f in p.pages ==> f !in Owned(old(Views(list))[k := old(p.View()).(pages := [])])
    {
      ReleasePages(p, k);
      ok := TakePages(p, nr_pages, k);
    }

    method DoExec(p: Process, nr_pages: nat) returns (ok: bool)
      requires Valid() && p in list && p.state == Ready
      modifies p`pages, frames`free, frames`refcount
      ensures !ok ==> frames.free == {}
      ensures ok ==> Valid() && |p.pages| == nr_pages
      ensures ok ==> Legal(old(View()), Op.Exec(p.pid, p.pages)) && View() == Step(old(View()), Op.Exec(p.pid, p.pages))
    {
      ghost var s := View();
      ghost var k := IndexOf(p);
      ParentListed(list, p);
      ok := TurnOverPages(p, nr_pages, k);
      if ok {
        StepKeepsInv(s, Op.Exec(p.pid, p.pages));
      }
    }

    /** What do_exit changes: the pages go, and the zombie keeps its exit code. */
    method Retire(p: Process, exit_status: int, ghost k: nat)
      requires Tallied(p, k) && NoDup(Owned(Views(list)))
      modifies p, frames`free, frames`refcount
      ensures Tallied(p, k)
      ensures Views(list) ==
                old(Views(list))[k := old(p.View()).(state := Zombie, exitStatus := exit_status, pages := [])]
    {
      ghost var procs := Views(list);
      ReleasePages(p, k);
      ghost var q := p.View();
      p.state := Zombie;
      p.exitStatus := exit_status;
      forall i | 0 <= i < |list| ensures list[i].View() == procs[k := p.View()][i] {
        assert i == k || list[i] != p;
      }
      ViewsAre(list, procs[k := p.View()]);
      SameOwned(procs, k, q, p.View());
    }

    /** do_exit; false for a process without parent, where the code stops the kernel. */
    method DoExit(p: Process, exit_status: int) returns (ok: bool)
      requires Valid() && p in list && p.state == Ready
      modifies p, frames`free, frames`refcount
      ensures ok <==> p.parent != null
      ensures !ok ==> Valid() && View() == old(View())
      ensures ok ==> Valid()
      ensures ok ==> Legal(old(View()), Op.Exit(p.pid, exit_status))
      ensures ok ==> View() == Step(old(View()), Op.Exit(p.pid, exit_status))
    {
      if p.parent == null {
        return false;
      }
      ghost var s := View();
      ghost var k := IndexOf(p);
      ghost var j := IndexOf(p.parent);
      assert Numbered(s.procs[j], s.next);
      ParentListed(list, p);
      StepKeepsInv(s, Op.Exit(p.pid, exit_status));
      Retire(p, exit_status, k);
      return true;
    }

    /** thread_join on an exited process, then reset_l1pgtable with removal: main thread and page table go. */
    method Detach(p: Process)
      requires forall i, j :: 0 <= i < j < |list| ==> list[i] != list[j]
      modifies p`mainThread, p`tableFrees
      ensures !p.mainThread && p.tableFrees == old(p.tableFrees) + 1
      ensures p !in list ==> Views(list) == old(Views(list))
      ensures forall k :: 0 <= k < |list| && list[k] == p ==>
                Views(list) == old(Views(list))[k := Detached(old(p.View()))]
    {
      ghost var procs := Views(list);
      p.mainThread := false;
      p.tableFrees := p.tableFrees + 1;
      if p !in list {
        ViewsAre(list, procs);
      } else {
        ghost var k :| 0 <= k < |list| && list[k] == p;
        forall i | 0 <= i < |list| ensures list[i].View() == procs[k := p.View()][i] {
          assert i == k || list[i] != p;
        }
        ViewsAre(list, procs[k := p.View()]);
      }
    }

    static function Detached(p: Proc): Proc {
      p.(mainThread := false, tableFrees := p.tableFrees + 1)
    }

    /** A listed process other than p, whose parent is listed and is not p, still has its parent listed without p. */
    static lemma ParentsKept(l: seq<Process>, k: nat, l': seq<Process>)
      requires k < |l| && l' == l[..k] + l[k + 1..]
      requires forall q :: q in l && q.parent != null ==> q.parent in l && q.parent != l[k]
      ensures forall q :: q in l' && q.parent != null ==> q.parent in l'
    {
    }

    static lemma ViewsWithout(l: seq<Process>, k: nat, l': seq<Process>)
      requires k < |l| && l' == l[..k] + l[k + 1..]
      ensures Views(l') == Without(Views(l), k)
    {
    }

    /** Reaping takes no frame from anybody: the zombie has none. */
    static lemma ReapKeepsOwned(s: Sys, k: nat)
      requires Inv(s) && k < |s.procs| && s.procs[k].state == Zombie && s.procs[k].mainThread
      ensures Unreaped(s, s.procs[k].pid) && HasExited(s, s.procs[k].pid)
      ensures Inv(Continue(s, s.procs[k].pid)) && Owned(Continue(s, s.procs[k].pid).procs) == Owned(s.procs)
    {
      FindUnique(s, k);
      ContinueIsReap(s, s.procs[k].pid);
      StepKeepsInv(s, Reap(s.procs[k].pid));
      assert Lifecycle(s.procs[k]);
      OwnedByOthers(s.procs, k);
      SameOwned(s.procs, k, Detached(s.procs[k]), s.procs[k]);
      assert s.procs[k := s.procs[k]] == s.procs;
    }

    /** Where p is in the list, or its length. */
    static ghost predicate IsAt(l: seq<Process>, p: Process, k: nat) {
      && (forall i, j :: 0 <= i < j < |l| ==> l[i] != l[j])
      && if p in l then k < |l| && l[k] == p else k == |l|
    }

    /** The list after find_proc_by_parent and remove_proc: p goes if it is nobody's parent. */
    static ghost function Left(l: seq<Process>, p: Process, k: nat): seq<Process>
      requires IsAt(l, p, k)
    {
      if k == |l| || IsParent(l, p) then l else l[..k] + l[k + 1..]
    }

    method UnlistIfChildless(p: Process, ghost k: nat)
      requires IsAt(list, p, k)
      modifies this`list
      ensures list == Left(old(list), p, k)
    {
      var other := FindProcByParent(p);
      if other == null {
        RemoveProc(p);
      }
    }

    /** The views after the page table is freed and the list left so. */
    static ghost function LeftViews(procs: seq<Proc>, k: nat, isParent: bool): seq<Proc> {
      if |procs| <= k then procs else if isParent then procs[k := Detached(procs[k])] else Without(procs, k)
    }

    method DetachAndUnlist(p: Process, ghost k: nat)
      requires IsAt(list, p, k)
      modifies this`list, p`mainThread, p`tableFrees
      ensures !p.mainThread && p.tableFrees == old(p.tableFrees) + 1 && list == Left(old(list), p, k)
      ensures Views(list) == LeftViews(old(Views(list)), k, IsParent(old(list), p))
    {
      ghost var procs, l := Views(list), list;
      Detach(p);
      UnlistIfChildless(p, k);
      if k < |l| && !IsParent(l, p) {
        WithoutUpdated(procs, k, Detached(old(p.View())));
        ViewsWithout(l, k, list);
      }
    }

    /** What the invariant asks of the list itself, still asked when p has left it. */
    static lemma LeftKeepsList(l: seq<Process>, p: Process, k: nat)
      requires IsAt(l, p, k) && forall q :: q in l && q.parent != null ==> q.parent in l
      ensures var l' := Left(l, p, k);
              && (forall i, j :: 0 <= i < j < |l'| ==> l'[i] != l'[j])
              && (forall q :: q in l' && q.parent != null ==> q.parent in l')
    {
      if k < |l| && !IsParent(l, p) {
        ParentsKept(l, k, Left(l, p, k));
      }
    }

    static lemma ContinueLeaves(s: Sys, k: nat)
      requires Inv(s) && k < |s.procs|
      ensures var pid := s.procs[k].pid;
              Continue(s, pid) == s.(procs := LeftViews(s.procs, k, HasChild(s.procs, pid)))
    {
      FindUnique(s, k);
    }

    /**
      do_waitpid from the free of the page table on, with the process found before the caller slept. It may have been
      waited for meanwhile, and may be off the list.
    */
    method FinishWait(p: Process)
      requires Valid() && if p in list then p.state == Zombie else !Listed(Views(list), p.pid)
      modifies this`list, p`mainThread, p`tableFrees
      ensures View() == Continue(old(View()), p.pid)
      ensures p.tableFrees == old(p.tableFrees) + 1 && !p.mainThread
      ensures p in old(list) && old(p.mainThread) ==> Valid()
    {
      ghost var s, l, k := View(), list, |list|;
      if p in list {
        k := IndexOf(p);
        ParentByPid(p);
        ContinueLeaves(s, k);
        if p.mainThread {
          ReapKeepsOwned(s, k);
        }
      }
      LeftKeepsList(l, p, k);
      DetachAndUnlist(p, k);
    }

    /** Whom a wait is about. */
    method FindTarget(pid: int) returns (p: Process?)
      ensures var k := Target(Views(list), pid); if k == |list| then p == null else p == list[k]
    {
      if pid == -1 {
        p := FindProcZombieToClean();
      } else if 0 <= pid {
        p := FindProcByPid(pid);
      } else {
        p := null;
      }
    }

    /** do_waitpid, without ptrace. Blocked is a call that has not returned yet, NoThread one that cannot. */
    method DoWaitpid(pid: int, nohang: bool) returns (r: WaitResult, child: Process?)
      requires Valid()
      modifies this`list, list
      ensures Valid()
      ensures r == Answer(old(View()).procs, pid, nohang)
      ensures r.Done? ==> child != null && r.pid == child.pid && r.wstatus % 0x100 == 0
                          && r.wstatus / 0x100 == child.exitStatus % 0x100
      ensures !r.Done? ==> View() == old(View())
      ensures r.Blocked? ==> child in list && child.View() == View().procs[Target(View().procs, pid)]
      ensures r.Done? ==> Legal(old(View()), Reap(r.pid)) && View() == Step(old(View()), Reap(r.pid))
    {
      child := FindTarget(pid);
      if child == null {
        return NoChild, child;
      }
      ghost var k := IndexOf(child);
      if nohang && child.state != Zombie {
        return StillRunning, child;
      }
      if !child.mainThread {
        return NoThread, child;
      }
      if child.state != Zombie {
        return Blocked, child;
      }
      r := Done(child.pid, WaitStatus(child.exitStatus));
      ReapKeepsOwned(View(), k);
      ContinueIsReap(View(), child.pid);
      FinishWait(child);
    }

    static lemma WithoutUpdated(procs: seq<Proc>, k: nat, p: Proc)
      requires k < |procs|
      ensures Without(procs[k := p], k) == Without(procs, k)
    {
    }

    lemma ParentListed(l: seq<Process>, parent: Process)
      requires parent in l
      ensures Listed(Views(l), parent.pid)
    {
      var i :| 0 <= i < |l| && l[i] == parent;
      assert Views(l)[i].pid == parent.pid;
    }
  }

  // ---------------------------------------------------------------- counting references

  lemma {:induction false} ElemsCount(fs: seq<nat>)
    requires NoDup(fs)
    ensures |Elems(fs)| == |fs|
  {
    if fs != [] {
      var rest, last := fs[..|fs| - 1], fs[|fs| - 1];
      ElemsCount(rest);
      assert last !in rest;
      assert fs == rest + [last] && Elems(fs) == Elems(rest) + {last};
    }
  }

  /** Between kernel calls no frame is lost or shared: the free ones and all page lists together are all there is. */
  lemma FramesConserved(kernel: Kernel)
    requires kernel.Valid()
    ensures |kernel.frames.free| + |Owned(kernel.View().procs)| == |kernel.all|
    ensures forall f :: f in kernel.all ==>
              kernel.frames.refcount[f] == (if f in Owned(kernel.View().procs) then 1 else 0)
    ensures forall f :: f in kernel.all ==> (f in kernel.frames.free <==> f !in Owned(kernel.View().procs))
  {
    var owned := Owned(kernel.View().procs);
    assert owned == Owned(Kernel.Views(kernel.list));
    forall f ensures f in kernel.all ==> kernel.frames.refcount[f] == (if f in owned then 1 else 0) {
      NoDupOnce(owned, f);
    }
    ElemsCount(owned);
    assert kernel.frames.free !! Elems(owned);
    assert kernel.frames.free + Elems(owned) == kernel.all;
  }

  lemma {:induction false} NoDupOnce(fs: seq<nat>, f: nat)
    requires NoDup(fs)
    ensures multiset(fs)[f] == if f in fs then 1 else 0
  {
    if fs != [] {
      assert fs == fs[..|fs| - 1] + [fs[|fs| - 1]];
      assert NoDup(fs[..|fs| - 1]);
      NoDupOnce(fs[..|fs| - 1], f);
    }
  }

  /** Frames just taken were free, so no process owns them. */
  lemma TakenAreFresh(s: Sys, free: set<nat>, ref: map<nat, nat>, free': set<nat>, ref': map<nat, nat>, fs: seq<nat>)
    requires Counted(free, ref, Owned(s.procs)) && Took(free, ref, free', ref', fs)
    ensures Fresh(s, fs)
  {
  }

  lemma TakeCounted(owned: seq<nat>, owned': seq<nat>, fs: seq<nat>, free: set<nat>, ref: map<nat, nat>,
                    free': set<nat>, ref': map<nat, nat>)
    requires Counted(free, ref, owned) && Took(free, ref, free', ref', fs)
    requires multiset(owned') == multiset(owned) + multiset(fs)
    ensures Counted(free', ref', owned')
  {
    forall f | f in ref'
      ensures ref'[f] == multiset(owned')[f] && (f in free' <==> ref'[f] == 0)
    {
      NoDupOnce(fs, f);
    }
    forall f | f in owned'
      ensures f in ref'
    {
      assert multiset(owned')[f] > 0;
    }
  }

  lemma AppendCounted(procs: seq<Proc>, p: Proc, free: set<nat>, ref: map<nat, nat>, free': set<nat>,
                      ref': map<nat, nat>)
    requires Counted(free, ref, Owned(procs)) && Took(free, ref, free', ref', p.pages)
    ensures Counted(free', ref', Owned(procs + [p]))
  {
    OwnedConcat(procs, [p]);
    assert Owned([p]) == p.pages + Owned([]) == p.pages;
    TakeCounted(Owned(procs), Owned(procs + [p]), p.pages, free, ref, free', ref');
  }

  /** The pages of one process are distinct frames, each in use. */
  lemma OwnsItsPages(procs: seq<Proc>, k: nat, free: set<nat>, ref: map<nat, nat>)
    requires k < |procs| && NoDup(Owned(procs)) && Counted(free, ref, Owned(procs))
    ensures NoDup(procs[k].pages) && forall f :: f in procs[k].pages ==> f in ref && ref[f] > 0
  {
    OwnedAt(procs, k);
    NoDupConcat(Owned(procs[..k]) + procs[k].pages, Owned(procs[k + 1..]));
    NoDupConcat(Owned(procs[..k]), procs[k].pages);
    forall f | f in procs[k].pages
      ensures f in ref && ref[f] > 0
    {
      assert f in Owned(procs);
      assert multiset(Owned(procs))[f] > 0;
    }
  }

  /** Process k's pages, as against everybody else's. */
  lemma SplitOwned(procs: seq<Proc>, k: nat, p: Proc)
    requires k < |procs|
    ensures multiset(Owned(procs[k := p])) == multiset(Owned(procs[k := procs[k].(pages := [])])) + multiset(p.pages)
  {
    var a, b := Owned(procs[..k]), Owned(procs[k + 1..]);
    OwnedUpdate(procs, k, procs[k].(pages := []));
    OwnedUpdate(procs, k, p);
    EmptyMiddle(a, b);
  }

  lemma DropCounted(owned: seq<nat>, rest: seq<nat>, pages: seq<nat>, free: set<nat>, ref: map<nat, nat>,
                    free': set<nat>, ref': map<nat, nat>)
    requires Counted(free, ref, owned) && NoDup(pages) && multiset(owned) == multiset(rest) + multiset(pages)
    requires ref'.Keys == ref.Keys
    requires forall f :: f in ref ==> ref[f] == ref'[f] + (if f in pages then 1 else 0)
    requires forall f :: f in free' <==> f in free || (f in pages && f in ref' && ref'[f] == 0)
    ensures Counted(free', ref', rest)
  {
    forall f | f in ref'
      ensures ref'[f] == multiset(rest)[f] && (f in free' <==> ref'[f] == 0)
    {
      NoDupOnce(pages, f);
    }
    forall f | f in rest
      ensures f in ref'
    {
      assert multiset(rest)[f] > 0 && multiset(owned)[f] > 0;
      assert f in owned;
    }
    forall f | f in free'
      ensures f in ref'
    {
      if f !in free {
        NoDupOnce(pages, f);
      }
    }
  }

  lemma ReleasedCounted(procs: seq<Proc>, k: nat, free: set<nat>, ref: map<nat, nat>, free': set<nat>,
                        ref': map<nat, nat>)
    requires k < |procs| && NoDup(Owned(procs)) && Counted(free, ref, Owned(procs))
    requires ref'.Keys == ref.Keys
    requires forall f :: f in ref ==> ref[f] == ref'[f] + (if f in procs[k].pages then 1 else 0)
    requires forall f :: f in free' <==> f in free || (f in procs[k].pages && f in ref' && ref'[f] == 0)
    ensures Counted(free', ref', Owned(procs[k := procs[k].(pages := [])]))
  {
    OwnsItsPages(procs, k, free, ref);
    SplitOwned(procs, k, procs[k]);
    assert procs[k := procs[k]] == procs;
    DropCounted(Owned(procs), Owned(procs[k := procs[k].(pages := [])]), procs[k].pages, free, ref, free', ref');
  }

  lemma UpdateCounted(procs: seq<Proc>, k: nat, p: Proc, free: set<nat>, ref: map<nat, nat>, free': set<nat>,
                      ref': map<nat, nat>)
    requires k < |procs| && Counted(free, ref, Owned(procs[k := procs[k].(pages := [])]))
    requires Took(free, ref, free', ref', p.pages)
    ensures Counted(free', ref', Owned(procs[k := p]))
  {
    SplitOwned(procs, k, p);
    TakeCounted(Owned(procs[k := procs[k].(pages := [])]), Owned(procs[k := p]), p.pages, free, ref, free', ref');
  }

  lemma SameOwned(procs: seq<Proc>, k: nat, p: Proc, q: Proc)
    requires k < |procs| && p.pages == q.pages
    ensures Owned(procs[k := p]) == Owned(procs[k := q])
  {
    OwnedUpdate(procs, k, p);
    OwnedUpdate(procs, k, q);
  }
}
