/**
  The memory of all processes together, over whole runs of kernel calls: the process list of ProcessTree, one page
  table for each process not yet waited for, and the second-level tables they share the heap with. Each call does to
  page tables what the methods of UserSpace, Exec, ForkLaws and UnmapPages are proved to do.
*/
module Isolation {
  import opened Word32
  import opened PageTable
  import opened UnmapPages
  import opened Sequences
  import opened Frames
  import opened UserSpace
  import opened ForkLaws
  import opened Tree = ProcessTree
  import E = Exec
  import F = Fork

  /** `kernel` is what every new page table is a copy of: the kernel entries, with an empty user part. */
  datatype World = World(sys: Sys, t: Tables, kernel: seq<Word>, l1: map<nat, seq<Word>>)

  /** A kernel call and the page tables it leaves: `l` is the caller's afterwards, or the new process's. */
  datatype Event =
    | CreateEvent(l: seq<Word>, t: Tables, pages: seq<nat>)
    | ExecEvent(pid: nat, l: seq<Word>, t: Tables, lay: Layout, pages: seq<nat>)
    | ForkEvent(pid: nat, l: seq<Word>, g: Generation, ti: nat, tj: nat)
    | ExitEvent(pid: nat, status: int)
    | ReapEvent(pid: nat, t: Tables)

  function Call(e: Event): Op {
    match e
    case CreateEvent(_, _, pages) => Create(pages)
    case ExecEvent(pid, _, _, _, pages) => Exec(pid, pages)
    case ForkEvent(pid, _, g, _, _) => Fork(pid, g.fs)
    case ExitEvent(pid, status) => Exit(pid, status)
    case ReapEvent(pid, _) => Reap(pid)
  }

  /** The stack of a new process, just below the page of arguments, behind tables of its own. */
  ghost predicate CreatesTables(kernel: seq<Word>, t: Tables, l: seq<Word>, t': Tables, pages: seq<nat>) {
    && E.SameKernelPart(kernel, l) && Wf(l, t') && |pages| < USER_PAGES
    && PagesMapped(kernel, t, l, t', USER_PAGES - 1 - |pages|, pages) && Beside(t, l, t')
  }

  lemma PageIs(v: nat)
    ensures v * PAGE_SIZE / PAGE_SIZE == v && v * PAGE_SIZE % PAGE_SIZE == 0
  {
  }

  /** The memory part of create_process: a new page table, and the stack. */
  method CreateMemory(heap: Heap, frames: FrameTable, sys: array<Word>, stackPages: nat) returns (ok: bool, pcb: Pcb)
    requires heap.Valid() && frames.Valid() && Wf(sys[..], heap.tables) && stackPages < USER_PAGES
    modifies heap, frames`free, frames`refcount
    ensures fresh(pcb)
    ensures !ok ==> heap.pool == {} || frames.free == {}
    ensures ok ==> heap.Valid() && frames.Valid() && pcb.pgtable.Length == 4096
    ensures ok ==> pcb.pageCount == |pcb.pages| == stackPages && pcb.stackTop == KERNEL_VIRT_ADDR - PAGE_SIZE
    ensures ok ==> CreatesTables(KernelEntries(sys[..]), old(heap.tables), pcb.pgtable[..], heap.tables, pcb.pages)
    ensures ok ==> Took(old(frames.free), old(frames.refcount), frames.free, frames.refcount, pcb.pages)
  {
    var pgtable := NewPageTable(sys);
    KernelCopyWf(sys[..], heap.tables);
    pcb := new Pcb(pgtable);
    pcb.pageCount := stackPages;
    pcb.stackTop := KERNEL_VIRT_ADDR - PAGE_SIZE;
    PageIs(USER_PAGES - 1 - stackPages);
    ok := AllocatePage(heap, frames, pcb, pcb.stackTop - pcb.pageCount * PAGE_SIZE, pcb.pageCount, heap.tables);
    assert pcb.pages[0..] == pcb.pages;
  }

  /** The tables of the user part of l are freed. */
  ghost predicate FreesTables(l: seq<Word>, t: Tables, t': Tables) {
    && WfTables(t') && E.TablesKept(l, t, t')
    && forall a :: a in t' ==> a in t && !UserReaches(l, a)
  }

  ghost predicate Does(w: World, e: Event) {
    && Legal(w.sys, Call(e))
    && match e
       case CreateEvent(l, t, pages) => CreatesTables(w.kernel, w.t, l, t, pages)
       case ExecEvent(pid, l, t, lay, pages) => pid in w.l1 && E.TablesReplaced(w.l1[pid], w.t, l, t, lay, pages)
       case ForkEvent(pid, l, g, ti, tj) =>
         && pid in w.l1 && g.Valid() && g.s.l == w.l1[pid] && g.s.m.t == w.t
         && F.TablesForked(w.l1[pid], w.kernel, w.t, l, g.c, g.m.t, ti, tj)
       case ExitEvent(_, _) => true
       case ReapEvent(pid, t) => pid in w.l1 && FreesTables(w.l1[pid], w.t, t)
  }

  ghost function After(w: World, e: Event): World
    requires Does(w, e)
  {
    var sys := Step(w.sys, Call(e));
    match e
    case CreateEvent(l, t, _) => World(sys, t, w.kernel, w.l1[w.sys.next := l])
    case ExecEvent(pid, l, t, _, _) => World(sys, t, w.kernel, w.l1[pid := l])
    case ForkEvent(pid, l, g, _, _) => World(sys, g.m.t, w.kernel, w.l1[pid := l][w.sys.next := g.c])
    case ExitEvent(_, _) => w.(sys := sys)
    case ReapEvent(pid, t) => World(sys, t, w.kernel, w.l1 - {pid})
  }

  /** A fork that leaves some page table, or the kernel's, with an entry for a freed table. */
  ghost predicate Dangling(w: World, e: Event)
    requires Does(w, e)
  {
    e.ForkEvent? &&
    (F.Dangles(w.l1[e.pid][e.ti], w.t, w.kernel, e.tj) ||
     exists q :: q in w.l1 && q != e.pid && F.Dangles(w.l1[e.pid][e.ti], w.t, w.l1[q], e.tj))
  }

  // ---------------------------------------------------------------- the invariant

  /** The mapped user pages of a process lead to frames of its page list, no two to the same one. */
  ghost predicate OwnFrames(l: seq<Word>, t: Tables, pages: seq<nat>) {
    && |l| == 4096
    && (forall x: F.PageNo :: x.InUser() && LeafAt(l, t, x.i, x.j) != Fault ==> LeafAt(l, t, x.i, x.j).frame in pages)
    && (forall x: F.PageNo, y: F.PageNo :: x.InUser() && y.InUser() && x != y && LeafAt(l, t, x.i, x.j) != Fault
                                           && LeafAt(l, t, y.i, y.j) != Fault ==>
          LeafAt(l, t, x.i, x.j).frame != LeafAt(l, t, y.i, y.j).frame)
  }

  /** In order, and with user tables that the kernel part of nobody leads to. */
  ghost predicate TableOk(w: World, p: nat)
    requires p in w.l1 && |w.kernel| == 4096
  {
    p < w.sys.next && Wf(w.l1[p], w.t) && F.Apart(w.kernel, w.l1[p])
  }

  ghost predicate PairOk(w: World, p: nat, q: nat)
    requires p in w.l1 && q in w.l1
  {
    |w.l1[p]| == |w.l1[q]| == 4096 && F.Apart(w.l1[q], w.l1[p])
  }

  ghost predicate ProcOk(w: World, p: nat)
    requires Listed(w.sys.procs, p)
  {
    var proc := w.sys.procs[Find(w.sys.procs, p)];
    && (proc.mainThread ==> p in w.l1)
    && (proc.state == Ready ==> p in w.l1 && OwnFrames(w.l1[p], w.t, proc.pages))
  }

  ghost predicate MemInv(w: World) {
    && Inv(w.sys)
    && |w.kernel| == 4096 && Wf(w.kernel, w.t) && (forall i :: 0 <= i < USER_ENTRIES ==> w.kernel[i] == 0)
    && (forall p :: p in w.l1 ==> TableOk(w, p))
    && (forall p, q :: p in w.l1 && q in w.l1 && p != q ==> PairOk(w, p, q))
    && (forall p :: Listed(w.sys.procs, p) ==> ProcOk(w, p))
  }

  // ---------------------------------------------------------------- isolation

  lemma OwnedApart(procs: seq<Proc>, j: nat, k: nat, f: nat)
    requires NoDup(Owned(procs)) && j < k < |procs| && f in procs[j].pages
    ensures f !in procs[k].pages
  {
    OwnedAt(procs, k);
    OwnedAt(procs[..k], j);
    assert procs[..k][j] == procs[j];
    NoDupConcat(Owned(procs[..k]) + procs[k].pages, Owned(procs[k + 1..]));
    NoDupConcat(Owned(procs[..k]), procs[k].pages);
    assert f in Owned(procs[..k]);
  }

  /** No two user pages of running processes lead to the same frame, and each leads to one of its process's list. */
  lemma Isolated(w: World, p: nat, x: F.PageNo, q: nat, y: F.PageNo)
    requires MemInv(w) && Running(w.sys, p) && Running(w.sys, q) && x.InUser() && y.InUser() && (p, x) != (q, y)
    ensures p in w.l1 && q in w.l1 && |w.l1[p]| == |w.l1[q]| == 4096
    ensures var leaf := LeafAt(w.l1[p], w.t, x.i, x.j);
            leaf != Fault ==> leaf.frame in w.sys.procs[Find(w.sys.procs, p)].pages
                              && (LeafAt(w.l1[q], w.t, y.i, y.j) != Fault ==>
                                    leaf.frame != LeafAt(w.l1[q], w.t, y.i, y.j).frame)
  {
    assert ProcOk(w, p) && ProcOk(w, q);
    var j, k := Find(w.sys.procs, p), Find(w.sys.procs, q);
    var a, b := LeafAt(w.l1[p], w.t, x.i, x.j), LeafAt(w.l1[q], w.t, y.i, y.j);
    if p != q && a != Fault && b != Fault {
      if j < k {
        OwnedApart(w.sys.procs, j, k, a.frame);
      } else {
        OwnedApart(w.sys.procs, k, j, b.frame);
      }
    }
  }

  // ---------------------------------------------------------------- one process after a call

  /** What a call makes of a process that was listed before it. */
  function ProcAfter(op: Op, p: Proc): Proc {
    match op
    case Exec(pid, pages) => if p.pid == pid then p.(pages := pages) else p
    case Exit(pid, status) =>
      if p.pid == pid then p.(state := Zombie, exitStatus := status, pages := []) else p
    case Reap(pid) => if p.pid == pid then p.(mainThread := false, tableFrees := p.tableFrees + 1) else p
    case _ => p
  }

  /** The one a call adds. */
  function NewProc(s: Sys, op: Op): Proc {
    Proc(s.next, if op.Fork? then op.pid else 0, Ready, true, 0, if op.Fork? || op.Create? then op.pages else [], 0)
  }

  /** A listed process after a call is the new one, or what has become of one listed before. */
  lemma ProcAt(s: Sys, op: Op, p: nat)
    requires Inv(s) && Legal(s, op) && Listed(Step(s, op).procs, p)
    ensures var proc := Step(s, op).procs[Find(Step(s, op).procs, p)];
            if p == s.next then (op.Create? || op.Fork?) && proc == NewProc(s, op)
            else Listed(s.procs, p) && proc == ProcAfter(op, s.procs[Find(s.procs, p)])
  {
    var s' := Step(s, op);
    var k := Find(s'.procs, p);
    var gone := op.Reap? && !HasChild(s.procs, op.pid);
    var i := if gone && Find(s.procs, op.pid) <= k then k + 1 else k;
    if i < |s.procs| {
      FindUnique(s, i);
      ListedAt(s.procs, i);
      assert Numbered(s.procs[i], s.next);
      CameFrom(s, op, k, i);
    }
  }

  lemma CameFrom(s: Sys, op: Op, k: nat, i: nat)
    requires Inv(s) && Legal(s, op) && i < |s.procs| && k < |Step(s, op).procs|
    requires i == if op.Reap? && !HasChild(s.procs, op.pid) && Find(s.procs, op.pid) <= k then k + 1 else k
    ensures Step(s, op).procs[k] == ProcAfter(op, s.procs[i])
  {
    if op.Exec? || op.Exit? || op.Reap? {
      if i != Find(s.procs, op.pid) {
        PidsDiffer(s, i, Find(s.procs, op.pid));
      }
    }
  }

  // ---------------------------------------------------------------- one page table after a call

  ghost predicate SameLeaves(l: seq<Word>, t: Tables, l': seq<Word>, t': Tables) {
    && |l| == |l'| == 4096
    && forall i, j :: 0 <= i < USER_ENTRIES && 0 <= j < 256 ==> LeafAt(l', t', i, j) == LeafAt(l, t, i, j)
  }

  lemma StillOwn(l: seq<Word>, t: Tables, l': seq<Word>, t': Tables, pages: seq<nat>)
    requires OwnFrames(l, t, pages) && SameLeaves(l, t, l', t')
    ensures OwnFrames(l', t', pages)
  {
  }

  lemma ChildOwns(g: Generation)
    requires g.Valid()
    ensures OwnFrames(g.c, g.m.t, g.fs)
  {
    forall x: F.PageNo | x.InUser() && LeafAt(g.c, g.m.t, x.i, x.j) != Fault
      ensures LeafAt(g.c, g.m.t, x.i, x.j).frame in g.fs
    {
      var k := CopiedAt(g.s, g.c, g.m, g.ps, g.fs, x);
    }
    forall x: F.PageNo, y: F.PageNo | x.InUser() && y.InUser() && x != y && LeafAt(g.c, g.m.t, x.i, x.j) != Fault
                                      && LeafAt(g.c, g.m.t, y.i, y.j) != Fault
      ensures LeafAt(g.c, g.m.t, x.i, x.j).frame != LeafAt(g.c, g.m.t, y.i, y.j).frame
    {
      ChildFramesDiffer(g.s, g.c, g.m, g.ps, g.fs, x, y);
    }
  }

  lemma ImageOwns(l: seq<Word>, t: Tables, lay: Layout, pages: seq<nat>)
    requires |l| == 4096 && lay.Fits() && Laid(l, t, lay, pages) && NoDup(pages)
    ensures OwnFrames(l, t, pages)
  {
    forall x: F.PageNo, y: F.PageNo | x.InUser() && y.InUser() && x != y && LeafAt(l, t, x.i, x.j) != Fault
                                      && LeafAt(l, t, y.i, y.j) != Fault
      ensures LeafAt(l, t, x.i, x.j).frame != LeafAt(l, t, y.i, y.j).frame
    {
      SlotsAreDistinct(lay, 256 * x.i + x.j, 256 * y.i + y.j);
    }
  }

  lemma StackOwns(kernel: seq<Word>, t: Tables, l: seq<Word>, t': Tables, v: nat, pages: seq<nat>)
    requires |kernel| == |l| == 4096 && forall i :: 0 <= i < USER_ENTRIES ==> kernel[i] == 0
    requires PagesMapped(kernel, t, l, t', v, pages) && NoDup(pages)
    ensures OwnFrames(l, t', pages)
  {
  }

  /** The user tables of c are new, its kernel part is a copy: it and any other page table keep apart. */
  lemma NewApart(t: Tables, kernel: seq<Word>, c: seq<Word>, o: seq<Word>)
    requires E.SameKernelPart(kernel, c) && Wf(o, t) && F.Apart(kernel, o)
    requires forall i :: 0 <= i < USER_ENTRIES && IsTable(c[i]) ==> TableAddr(c[i]) !in t
    ensures F.Apart(o, c) && F.Apart(c, o)
  {
    forall i | 0 <= i < 4096 && IsTable(o[i]) ensures TableAddr(o[i]) in t {
      assert WfEntry(o[i], t);
    }
    forall i, k | 0 <= i < USER_ENTRIES && IsTable(o[i]) && 0 <= k < 4096 && IsTable(c[k])
      ensures TableAddr(c[k]) != TableAddr(o[i])
    {
      assert !Reached(kernel, TableAddr(o[i]));
      assert k < USER_ENTRIES || kernel[k] == c[k];
    }
  }

  /** A new image keeps apart from everything the old one did. */
  lemma ReplacedApart(l: seq<Word>, t: Tables, l': seq<Word>, t': Tables, lay: Layout, pages: seq<nat>, o: seq<Word>)
    requires E.TablesReplaced(l, t, l', t', lay, pages) && Wf(o, t) && F.Apart(o, l) && F.Apart(l, o)
    ensures F.Apart(o, l') && F.Apart(l', o)
  {
    forall i | 0 <= i < 4096 && IsTable(o[i])
      ensures TableAddr(o[i]) in t && !UserReaches(l, TableAddr(o[i])) && !UserReaches(l', TableAddr(o[i]))
    {
      assert WfEntry(o[i], t) && Reached(o, TableAddr(o[i]));
    }
    forall i, k | 0 <= i < USER_ENTRIES && IsTable(o[i]) && 0 <= k < 4096 && IsTable(l'[k])
      ensures TableAddr(l'[k]) != TableAddr(o[i])
    {
      assert !Reached(l, TableAddr(o[i])) && !UserReaches(l', TableAddr(o[i]));
      assert k < USER_ENTRIES || l'[k] == l[k];
    }
  }

  /** With an entry less a page table reaches no more. */
  lemma ShrunkApart(l: seq<Word>, l': seq<Word>, ti: nat, o: seq<Word>)
    requires |l| == |o| == 4096 && USER_ENTRIES <= ti < 4096 && (l' == l || l' == l[ti := 0])
    requires F.Apart(o, l) && F.Apart(l, o)
    ensures F.Apart(o, l') && F.Apart(l', o)
  {
    forall a | Reached(l', a) ensures Reached(l, a) {
      var k :| 0 <= k < 4096 && IsTable(l'[k]) && TableAddr(l'[k]) == a;
      assert l[k] == l'[k];
    }
  }

  /** A page table apart from l does not see the tables behind the user part of l go. */
  lemma KeptBeside(l: seq<Word>, t: Tables, t': Tables, o: seq<Word>)
    requires E.TablesKept(l, t, t') && WfTables(t') && Wf(o, t) && |l| == 4096 && F.Apart(o, l)
    ensures Wf(o, t') && SameLeaves(o, t, o, t')
  {
    forall i | 0 <= i < 4096 && IsTable(o[i]) ensures !UserReaches(l, TableAddr(o[i])) {
      assert Reached(o, TableAddr(o[i]));
    }
    E.Isolated(l, t, t', o);
  }

  /** Nor does it see a fork of l, but for a table its kernel part loses. */
  lemma KeptByFork(l: seq<Word>, c0: seq<Word>, t: Tables, l': seq<Word>, c: seq<Word>, t': Tables, ti: nat, tj: nat,
                   o: seq<Word>)
    requires F.TablesForked(l, c0, t, l', c, t', ti, tj) && Wf(o, t) && F.Apart(l, o)
    ensures Wf(o, t') <==> !F.Dangles(l[ti], t, o, tj)
    ensures SameLeaves(o, t, o, t')
  {
    forall k | 0 <= k < USER_ENTRIES && IsTable(o[k]) ensures !F.LeadsTo(l[ti], TableAddr(o[k])) {
      assert !Reached(l, TableAddr(o[k]));
    }
    BystanderKept(l[ti], t, t', tj, o);
  }

  // ---------------------------------------------------------------- every call

  /** The page tables, but for the invariant of the process list. */
  ghost predicate TablesInv(w: World) {
    && |w.kernel| == 4096 && Wf(w.kernel, w.t) && (forall i :: 0 <= i < USER_ENTRIES ==> w.kernel[i] == 0)
    && (forall p :: p in w.l1 ==> TableOk(w, p))
    && (forall p, q :: p in w.l1 && q in w.l1 && p != q ==> PairOk(w, p, q))
  }

  lemma CreatedBystander(w: World, e: Event, q: nat)
    requires MemInv(w) && e.CreateEvent? && Does(w, e) && q in w.l1
    ensures TableOk(After(w, e), q) && SameLeaves(w.l1[q], w.t, w.l1[q], e.t)
    ensures F.Apart(w.l1[q], e.l) && F.Apart(e.l, w.l1[q])
  {
    assert TableOk(w, q);
    KeptBeside(w.kernel, w.t, e.t, w.l1[q]);
    NewApart(w.t, w.kernel, e.l, w.l1[q]);
  }

  lemma CreatedNew(w: World, e: Event)
    requires MemInv(w) && e.CreateEvent? && Does(w, e)
    ensures Wf(w.kernel, e.t) && Wf(e.l, e.t) && F.Apart(w.kernel, e.l)
  {
    KeptBeside(w.kernel, w.t, e.t, w.kernel);
    NewApart(w.t, w.kernel, e.l, w.kernel);
  }

  lemma CreatedOwns(kernel: seq<Word>, t: Tables, l: seq<Word>, t': Tables, pages: seq<nat>)
    requires CreatesTables(kernel, t, l, t', pages) && NoDup(pages)
    requires forall i :: 0 <= i < USER_ENTRIES ==> kernel[i] == 0
    ensures OwnFrames(l, t', pages)
  {
    StackOwns(kernel, t, l, t', USER_PAGES - 1 - |pages|, pages);
  }

  lemma CreateKeepsTables(w: World, e: Event)
    requires MemInv(w) && e.CreateEvent? && Does(w, e)
    ensures TablesInv(After(w, e)) && OwnFrames(e.l, e.t, e.pages)
    ensures forall q :: q in w.l1 ==> SameLeaves(w.l1[q], w.t, w.l1[q], e.t)
  {
    var w' := After(w, e);
    CreatedNew(w, e);
    CreatedOwns(w.kernel, w.t, e.l, e.t, e.pages);
    forall q | q in w.l1
      ensures TableOk(w', q) && F.Apart(w.l1[q], e.l) && F.Apart(e.l, w.l1[q])
      ensures SameLeaves(w.l1[q], w.t, w.l1[q], e.t)
    {
      CreatedBystander(w, e, q);
      assert TableOk(w, q);
    }
    forall p, q | p in w'.l1 && q in w'.l1 && p != q ensures PairOk(w', p, q) {
      assert p in w.l1 && q in w.l1 ==> PairOk(w, p, q);
    }
  }

  lemma ExecKeepsTables(w: World, e: Event)
    requires MemInv(w) && e.ExecEvent? && Does(w, e)
    ensures TablesInv(After(w, e)) && OwnFrames(e.l, e.t, e.pages)
    ensures forall q :: q in w.l1 && q != e.pid ==> SameLeaves(w.l1[q], w.t, w.l1[q], e.t)
  {
    var w', l := After(w, e), w.l1[e.pid];
    assert TableOk(w, e.pid);
    ImageOwns(e.l, e.t, e.lay, e.pages);
    KeptBeside(l, w.t, e.t, w.kernel);
    ReplacedApart(l, w.t, e.l, e.t, e.lay, e.pages, w.kernel);
    forall q | q in w.l1 && q != e.pid
      ensures TableOk(w', q) && F.Apart(w.l1[q], e.l) && F.Apart(e.l, w.l1[q])
      ensures SameLeaves(w.l1[q], w.t, w.l1[q], e.t)
    {
      assert TableOk(w, q) && PairOk(w, q, e.pid) && PairOk(w, e.pid, q);
      KeptBeside(l, w.t, e.t, w.l1[q]);
      ReplacedApart(l, w.t, e.l, e.t, e.lay, e.pages, w.l1[q]);
    }
    forall p, q | p in w'.l1 && q in w'.l1 && p != q ensures PairOk(w', p, q) {
      assert PairOk(w, p, q);
    }
  }

  lemma ReapKeepsTables(w: World, e: Event)
    requires MemInv(w) && e.ReapEvent? && Does(w, e)
    ensures TablesInv(After(w, e))
    ensures forall q :: q in w.l1 && q != e.pid ==> SameLeaves(w.l1[q], w.t, w.l1[q], e.t)
  {
    var w', l := After(w, e), w.l1[e.pid];
    assert TableOk(w, e.pid);
    KeptBeside(l, w.t, e.t, w.kernel);
    forall q | q in w.l1 && q != e.pid
      ensures TableOk(w', q) && SameLeaves(w.l1[q], w.t, w.l1[q], e.t)
    {
      assert TableOk(w, q) && PairOk(w, e.pid, q);
      KeptBeside(l, w.t, e.t, w.l1[q]);
    }
    forall p, q | p in w'.l1 && q in w'.l1 && p != q ensures PairOk(w', p, q) {
      assert PairOk(w, p, q);
    }
  }

  /** What fork leaves of the parent's page table and gives the child. */
  lemma ForkedPair(w: World, e: Event)
    requires MemInv(w) && e.ForkEvent? && Does(w, e)
    ensures Wf(e.l, e.g.m.t) && F.Apart(w.kernel, e.l)
    ensures SameLeaves(w.l1[e.pid], w.t, e.l, e.g.m.t) && OwnFrames(e.g.c, e.g.m.t, e.g.fs)
    ensures F.Apart(w.kernel, e.g.c) && F.Apart(e.l, e.g.c) && F.Apart(e.g.c, e.l)
    ensures Wf(e.g.c, e.g.m.t) <==> !F.Dangles(w.l1[e.pid][e.ti], w.t, w.kernel, e.tj)
  {
    var l := w.l1[e.pid];
    assert TableOk(w, e.pid);
    ChildOwns(e.g);
    ShrunkApart(l, e.l, e.ti, w.kernel);
    NewApart(w.t, w.kernel, e.g.c, w.kernel);
    NewApart(w.t, w.kernel, e.g.c, l);
    ShrunkApart(l, e.l, e.ti, e.g.c);
  }

  /** And of another process's. */
  lemma ForkedBystander(w: World, e: Event, q: nat)
    requires MemInv(w) && e.ForkEvent? && Does(w, e) && q in w.l1 && q != e.pid
    ensures SameLeaves(w.l1[q], w.t, w.l1[q], e.g.m.t) && F.Apart(w.kernel, w.l1[q])
    ensures F.Apart(e.l, w.l1[q]) && F.Apart(w.l1[q], e.l)
    ensures F.Apart(e.g.c, w.l1[q]) && F.Apart(w.l1[q], e.g.c)
    ensures Wf(w.l1[q], e.g.m.t) <==> !F.Dangles(w.l1[e.pid][e.ti], w.t, w.l1[q], e.tj)
  {
    var l, o := w.l1[e.pid], w.l1[q];
    assert TableOk(w, q) && PairOk(w, e.pid, q) && PairOk(w, q, e.pid);
    KeptByFork(l, w.kernel, w.t, e.l, e.g.c, e.g.m.t, e.ti, e.tj, o);
    ShrunkApart(l, e.l, e.ti, o);
    NewApart(w.t, w.kernel, e.g.c, o);
  }

  lemma ForkKeepsApart(w: World, e: Event, p: nat, q: nat)
    requires MemInv(w) && e.ForkEvent? && Does(w, e) && p != q && p in After(w, e).l1 && q in After(w, e).l1
    ensures PairOk(After(w, e), p, q)
  {
    ForkedPair(w, e);
    if p in w.l1 && p != e.pid {
      ForkedBystander(w, e, p);
    }
    if q in w.l1 && q != e.pid {
      ForkedBystander(w, e, q);
    }
    if p in w.l1 && q in w.l1 {
      assert PairOk(w, p, q);
    }
  }

  lemma ForkKeepsTable(w: World, e: Event, p: nat)
    requires MemInv(w) && e.ForkEvent? && Does(w, e) && p in After(w, e).l1
    ensures p == e.pid ==> TableOk(After(w, e), p)
    ensures p == w.sys.next ==>
              (TableOk(After(w, e), p) <==> !F.Dangles(w.l1[e.pid][e.ti], w.t, w.kernel, e.tj))
    ensures p != e.pid && p != w.sys.next ==>
              (TableOk(After(w, e), p) <==> !F.Dangles(w.l1[e.pid][e.ti], w.t, w.l1[p], e.tj))
  {
    assert TableOk(w, e.pid);
    ForkedPair(w, e);
    if p in w.l1 && p != e.pid {
      assert TableOk(w, p);
      ForkedBystander(w, e, p);
    }
  }

  /** A fork keeps all page tables in order, and apart from each other, exactly when it leaves none dangling. */
  lemma ForkKeepsTables(w: World, e: Event)
    requires MemInv(w) && e.ForkEvent? && Does(w, e)
    ensures TablesInv(After(w, e)) <==> !Dangling(w, e)
  {
    var w' := After(w, e);
    KeptByFork(w.l1[e.pid], w.kernel, w.t, e.l, e.g.c, e.g.m.t, e.ti, e.tj, w.kernel);
    forall p | p in w'.l1
      ensures p == e.pid ==> TableOk(w', p)
      ensures p == w.sys.next ==> (TableOk(w', p) <==> !F.Dangles(w.l1[e.pid][e.ti], w.t, w.kernel, e.tj))
      ensures p != e.pid && p != w.sys.next ==>
                (TableOk(w', p) <==> !F.Dangles(w.l1[e.pid][e.ti], w.t, w.l1[p], e.tj))
    {
      ForkKeepsTable(w, e, p);
    }
    forall p, q | p in w'.l1 && q in w'.l1 && p != q ensures PairOk(w', p, q) {
      ForkKeepsApart(w, e, p, q);
    }
    assert forall q :: q in w.l1 ==> TableOk(w, q);
  }

  /** A process the call is not about. */
  lemma BystanderOk(w: World, e: Event, p: nat)
    requires MemInv(w) && Does(w, e) && Listed(w.sys.procs, p) && Listed(After(w, e).sys.procs, p)
    requires var s, s' := w.sys, After(w, e).sys; s'.procs[Find(s'.procs, p)] == s.procs[Find(s.procs, p)]
    requires p in w.l1 ==> p in After(w, e).l1 && SameLeaves(w.l1[p], w.t, After(w, e).l1[p], After(w, e).t)
    ensures ProcOk(After(w, e), p)
  {
    assert ProcOk(w, p);
    var proc := w.sys.procs[Find(w.sys.procs, p)];
    if proc.state == Ready {
      StillOwn(w.l1[p], w.t, After(w, e).l1[p], After(w, e).t, proc.pages);
    }
  }

  lemma ForkKeepsProc(w: World, e: Event, p: nat)
    requires MemInv(w) && e.ForkEvent? && Does(w, e) && Listed(After(w, e).sys.procs, p)
    ensures ProcOk(After(w, e), p)
  {
    ProcAt(w.sys, Call(e), p);
    ForkedPair(w, e);
    if p != w.sys.next {
      if p in w.l1 && p != e.pid {
        assert TableOk(w, p);
        ForkedBystander(w, e, p);
      }
      BystanderOk(w, e, p);
    }
  }

  lemma ExitKeepsProc(w: World, e: Event, p: nat)
    requires MemInv(w) && e.ExitEvent? && Does(w, e) && Listed(After(w, e).sys.procs, p)
    ensures ProcOk(After(w, e), p)
  {
    ProcAt(w.sys, Call(e), p);
    if p == e.pid {
      assert ProcOk(w, p);
    } else {
      if p in w.l1 {
        assert TableOk(w, p);
      }
      BystanderOk(w, e, p);
    }
  }

  lemma CreateKeepsProc(w: World, e: Event, p: nat)
    requires MemInv(w) && e.CreateEvent? && Does(w, e) && Listed(After(w, e).sys.procs, p)
    ensures ProcOk(After(w, e), p)
  {
    ProcAt(w.sys, Call(e), p);
    CreateKeepsTables(w, e);
    if p != w.sys.next {
      BystanderOk(w, e, p);
    }
  }

  lemma ExecKeepsProc(w: World, e: Event, p: nat)
    requires MemInv(w) && e.ExecEvent? && Does(w, e) && Listed(After(w, e).sys.procs, p)
    ensures ProcOk(After(w, e), p)
  {
    ProcAt(w.sys, Call(e), p);
    ExecKeepsTables(w, e);
    if p != e.pid {
      BystanderOk(w, e, p);
    }
  }

  lemma ReapKeepsProc(w: World, e: Event, p: nat)
    requires MemInv(w) && e.ReapEvent? && Does(w, e) && Listed(After(w, e).sys.procs, p)
    ensures ProcOk(After(w, e), p)
  {
    ProcAt(w.sys, Call(e), p);
    ReapKeepsTables(w, e);
    if p != e.pid {
      BystanderOk(w, e, p);
    }
  }

  /** Whoever runs after a call has its mapped pages in its own list, once each. */
  lemma CallKeepsProc(w: World, e: Event, p: nat)
    requires MemInv(w) && Does(w, e) && Listed(After(w, e).sys.procs, p)
    ensures ProcOk(After(w, e), p)
  {
    match e
    case CreateEvent(_, _, _) => CreateKeepsProc(w, e, p);
    case ExecEvent(_, _, _, _, _) => ExecKeepsProc(w, e, p);
    case ForkEvent(_, _, _, _, _) => ForkKeepsProc(w, e, p);
    case ExitEvent(_, _) => ExitKeepsProc(w, e, p);
    case ReapEvent(_, _) => ReapKeepsProc(w, e, p);
  }

  lemma ExitKeepsTables(w: World, e: Event)
    requires MemInv(w) && e.ExitEvent? && Does(w, e)
    ensures TablesInv(After(w, e))
  {
    forall p | p in w.l1 ensures TableOk(After(w, e), p) {
      assert TableOk(w, p);
    }
    forall p, q | p in w.l1 && q in w.l1 && p != q ensures PairOk(After(w, e), p, q) {
      assert PairOk(w, p, q);
    }
  }

  lemma CallKeepsTables(w: World, e: Event)
    requires MemInv(w) && Does(w, e)
    ensures TablesInv(After(w, e)) <==> !Dangling(w, e)
  {
    match e
    case CreateEvent(_, _, _) => CreateKeepsTables(w, e);
    case ExecEvent(_, _, _, _, _) => ExecKeepsTables(w, e);
    case ForkEvent(_, _, _, _, _) => ForkKeepsTables(w, e);
    case ExitEvent(_, _) => ExitKeepsTables(w, e);
    case ReapEvent(_, _) => ReapKeepsTables(w, e);
  }

  /** A call keeps the whole invariant if and only if it is not a fork that leaves a page table dangling. */
  lemma CallKeepsMemInv(w: World, e: Event)
    requires MemInv(w) && Does(w, e)
    ensures MemInv(After(w, e)) <==> !Dangling(w, e)
  {
    StepKeepsInv(w.sys, Call(e));
    CallKeepsTables(w, e);
    forall p | Listed(After(w, e).sys.procs, p) ensures ProcOk(After(w, e), p) {
      CallKeepsProc(w, e, p);
    }
  }

  // ---------------------------------------------------------------- whole runs

  ghost predicate CanRun(w: World, es: seq<Event>)
    decreases |es|
  {
    es != [] ==> Does(w, es[0]) && CanRun(After(w, es[0]), es[1..])
  }

  ghost function RunAll(w: World, es: seq<Event>): World
    requires CanRun(w, es)
    decreases |es|
  {
    if es == [] then w else RunAll(After(w, es[0]), es[1..])
  }

  ghost predicate NeverDangling(w: World, es: seq<Event>)
    requires CanRun(w, es)
    decreases |es|
  {
    es != [] ==> !Dangling(w, es[0]) && NeverDangling(After(w, es[0]), es[1..])
  }

  /** Every world on the way meets the invariant. */
  ghost predicate AlwaysInv(w: World, es: seq<Event>)
    requires CanRun(w, es)
    decreases |es|
  {
    MemInv(w) && (es != [] ==> AlwaysInv(After(w, es[0]), es[1..]))
  }

  /** A run keeps to the invariant throughout if and only if no fork of it leaves a page table dangling. */
  lemma {:induction false} RunKeepsMemInv(w: World, es: seq<Event>)
    requires MemInv(w) && CanRun(w, es)
    ensures AlwaysInv(w, es) <==> NeverDangling(w, es)
    ensures NeverDangling(w, es) ==> MemInv(RunAll(w, es))
    decreases |es|
  {
    if es != [] {
      CallKeepsMemInv(w, es[0]);
      if !Dangling(w, es[0]) {
        RunKeepsMemInv(After(w, es[0]), es[1..]);
      }
    }
  }

  /** No process yet. */
  ghost predicate Initial(w: World) {
    && w.sys == BOOT && w.l1 == map[] && |w.kernel| == 4096 && Wf(w.kernel, w.t)
    && forall i :: 0 <= i < USER_ENTRIES ==> w.kernel[i] == 0
  }

  /** After any such run from boot no two running processes, or pages, share a user frame. */
  lemma IsolatedFromBoot(w: World, es: seq<Event>, p: nat, x: F.PageNo, q: nat, y: F.PageNo)
    requires Initial(w) && CanRun(w, es) && NeverDangling(w, es) && x.InUser() && y.InUser() && (p, x) != (q, y)
    requires Running(RunAll(w, es).sys, p) && Running(RunAll(w, es).sys, q)
    ensures var e := RunAll(w, es);
            && p in e.l1 && q in e.l1 && |e.l1[p]| == |e.l1[q]| == 4096
            && var a, b := LeafAt(e.l1[p], e.t, x.i, x.j), LeafAt(e.l1[q], e.t, y.i, y.j);
               && (a != Fault ==> a.frame in e.sys.procs[Find(e.sys.procs, p)].pages)
               && (a != Fault && b != Fault ==> a.frame != b.frame)
  {
    RunKeepsMemInv(w, es);
    Isolated(RunAll(w, es), p, x, q, y);
  }

  /** A start, and the first process, with one page of stack in frame 1 behind the table at 0x400. */
  lemma OneProcess(w: World, e: Event)
    requires w == World(BOOT, map[], seq(4096, i => 0), map[])
    requires e.CreateEvent? && e.pages == [1] && e.l == seq(4096, i => if i == USER_ENTRIES - 1 then 0x401 else 0)
    requires e.t == map[0x400 := seq(256, j => if j == 254 then 0x107E else 0)]
    ensures Initial(w) && Does(w, e) && !Dangling(w, e)
    ensures var w' := After(w, e);
            Running(w'.sys, 1) && 1 in w'.l1
            && LeafAt(w'.l1[1], w'.t, USER_ENTRIES - 1, 254) == SmallPage(1, L2_DCACHE_WRITEALLOC)
  {
    var top := USER_ENTRIES - 1;
    assert IsTable(e.l[top]) && TableAddr(e.l[top]) == 0x400;
    assert PageLeaf(0x107E) == SmallPage(1, L2_DCACHE_WRITEALLOC) && PageLeaf(0) == Fault;
    forall i, j | 0 <= i < 4096 && 0 <= j < 256
      ensures LeafAt(e.l, e.t, i, j) ==
              (if i == top && j == 254 then SmallPage(1, L2_DCACHE_WRITEALLOC) else LeafAt(w.kernel, w.t, i, j))
    {
    }
    assert USER_PAGES - 1 - |e.pages| == 256 * top + 254;
    assert LeafAt(e.l, e.t, top, 254) != Fault;
    assert UserReaches(e.l, 0x400) && InUse(e.l, e.t, top);
    assert After(w, e).sys.procs[0].pid == 1;
  }
}
