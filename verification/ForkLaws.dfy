/** What fork leaves: the child's pages and layout over any number of forks, and everybody else's (mmu.c, process.c). */
module ForkLaws {
  import opened Word32
  import opened PageTable
  import opened PageTableLaws
  import opened UnmapPages
  import opened Frames
  import opened Sequences
  import opened UserSpace
  import opened Fork

  // ---------------------------------------------------------------- the child's pages

  lemma CopiedAt(s: Start, c: seq<Word>, m: Memory, ps: seq<PageNo>, fs: seq<nat>, p: PageNo) returns (k: nat)
    requires |s.l| == |c| == 4096 && Forked(s, c, m, ps, fs) && p.InUser() && LeafAt(c, m.t, p.i, p.j) != Fault
    ensures k < |ps| == |fs| && ps[k] == p && PageCopied(s, c, m.t, m.ram, p, fs[k])
    ensures LeafAt(c, m.t, p.i, p.j) == SmallPage(fs[k], L2_DCACHE_WRITEALLOC)
  {
    assert PageNo(p.i, p.j) == p;
    k :| 0 <= k < |ps| && ps[k] == p;
    assert PageCopied(s, c, m.t, m.ram, ps[k], fs[k]);
  }

  /** Parent and child map the same user pages; each of the child's is a fresh frame with the same bytes. */
  lemma ChildMirrorsParent(s: Start, c: seq<Word>, m: Memory, ps: seq<PageNo>, fs: seq<nat>, p: PageNo)
    requires |s.l| == |c| == 4096 && Forked(s, c, m, ps, fs) && p.InUser()
    ensures LeafAt(c, m.t, p.i, p.j) == Fault <==> LeafAt(s.l, s.m.t, p.i, p.j) == Fault
    ensures LeafAt(c, m.t, p.i, p.j) != Fault ==>
              var f := LeafAt(c, m.t, p.i, p.j).frame;
              && f in s.m.free && f in m.ram && LeafAt(s.l, s.m.t, p.i, p.j).frame in s.m.ram
              && m.ram[f] == s.m.ram[LeafAt(s.l, s.m.t, p.i, p.j).frame]
    ensures forall f :: f in s.m.ram && f !in s.m.free ==> f in m.ram && m.ram[f] == s.m.ram[f]
  {
    if PageNo(p.i, p.j) in ps {
      var k :| 0 <= k < |ps| && ps[k] == PageNo(p.i, p.j);
      assert PageCopied(s, c, m.t, m.ram, ps[k], fs[k]) && fs[k] in fs;
    }
  }

  /** No two user pages of the child share a frame. */
  lemma ChildFramesDiffer(s: Start, c: seq<Word>, m: Memory, ps: seq<PageNo>, fs: seq<nat>, p: PageNo, q: PageNo)
    requires |s.l| == |c| == 4096 && Forked(s, c, m, ps, fs) && p != q && p.InUser() && q.InUser()
    requires LeafAt(c, m.t, p.i, p.j) != Fault && LeafAt(c, m.t, q.i, q.j) != Fault
    ensures LeafAt(c, m.t, p.i, p.j).frame != LeafAt(c, m.t, q.i, q.j).frame
  {
    var x := CopiedAt(s, c, m, ps, fs, p);
    var y := CopiedAt(s, c, m, ps, fs, q);
    TwoFrames(ps, fs, x, y);
  }

  lemma TwoFrames(ps: seq<PageNo>, fs: seq<nat>, x: nat, y: nat)
    requires |ps| == |fs| && NoDup(fs) && x < |ps| && y < |ps| && ps[x] != ps[y]
    ensures fs[x] != fs[y]
  {
  }

  /** No table the child has been given is empty, if none of the parent's is. */
  lemma ChildTablesInUse(s: Start, c0: seq<Word>, c: seq<Word>, m: Memory, ps: seq<PageNo>, fs: seq<nat>)
    requires Wf(s.l, s.m.t) && |c0| == |c| == 4096 && Forked(s, c, m, ps, fs) && Attached(s.l, c0, c, USER_ENTRIES)
    requires (forall i :: 0 <= i < USER_ENTRIES ==> c0[i] == 0) && NoEmptyUserTable(s.l, s.m.t)
    ensures NoEmptyUserTable(c, m.t)
  {
    forall i | 0 <= i < USER_ENTRIES && IsTable(c[i])
      ensures InUse(c, m.t, i)
    {
      assert s.l[i] != 0 && WfEntry(s.l[i], s.m.t);
      var j :| 0 <= j < 256 && LeafAt(s.l, s.m.t, i, j) != Fault by {
        if IsSect(s.l[i]) {
          assert LeafAt(s.l, s.m.t, i, 0) != Fault;
        } else {
          assert InUse(s.l, s.m.t, i);
        }
      }
      ChildMirrorsParent(s, c, m, ps, fs, PageNo(i, j));
    }
  }

  // ---------------------------------------------------------------- counting the pages of a layout

  lemma HasMember(q: seq<nat>)
    requires q != []
    ensures exists x: nat :: x in q
  {
    assert q[0] in q;
  }

  /** A duplicate-free list of all numbers below n has n elements. */
  lemma {:induction false} AllBelow(q: seq<nat>, n: nat)
    requires NoDup(q) && forall x: nat :: x in q <==> x < n
    ensures |q| == n
  {
    if n == 0 {
      if q != [] {
        HasMember(q);
      }
    } else {
      var top: nat := n - 1;
      assert top in q;
      var k :| 0 <= k < |q| && q[k] == top;
      var rest := q[..k] + q[k + 1..];
      forall x: nat
        ensures x in rest <==> x < n - 1
      {
        if x in q && x != n - 1 {
          var y :| 0 <= y < |q| && q[y] == x;
          assert if y < k then rest[y] == x else rest[y - 1] == x;
        }
      }
      AllBelow(rest, n - 1);
    }
  }

  function SlotOf(lay: Layout, p: PageNo): int {
    lay.Slot(256 * p.i + p.j)
  }

  /** The copied pages are those of the layout. */
  ghost predicate CopiedLayout(lay: Layout, ps: seq<PageNo>) {
    && NoDup(ps)
    && (forall k :: 0 <= k < |ps| ==> ps[k].InUser() && 0 <= SlotOf(lay, ps[k]) < lay.PageCount())
    && (forall i, j :: 0 <= i < USER_ENTRIES && 0 <= j < 256 && SlotOf(lay, PageNo(i, j)) != -1 ==> PageNo(i, j) in ps)
  }

  lemma SlotInRange(lay: Layout, p: nat)
    requires lay.Fits() && lay.Slot(p) != -1
    ensures 0 <= lay.Slot(p) < lay.PageCount()
  {
  }

  lemma ForkedLayout(s: Start, c: seq<Word>, m: Memory, ps: seq<PageNo>, fs: seq<nat>, lay: Layout)
    requires |s.l| == |c| == 4096 && Forked(s, c, m, ps, fs) && lay.Fits() && MapsLayout(s.l, s.m.t, lay)
    ensures CopiedLayout(lay, ps)
  {
    forall k | 0 <= k < |ps|
      ensures ps[k].InUser() && 0 <= SlotOf(lay, ps[k]) < lay.PageCount()
    {
      assert PageCopied(s, c, m.t, m.ram, ps[k], fs[k]);
      assert LeafAt(s.l, s.m.t, ps[k].i, ps[k].j) != Fault;
      SlotInRange(lay, 256 * ps[k].i + ps[k].j);
    }
    forall i, j | 0 <= i < USER_ENTRIES && 0 <= j < 256 && SlotOf(lay, PageNo(i, j)) != -1
      ensures PageNo(i, j) in ps
    {
      assert LeafAt(s.l, s.m.t, i, j) != Fault;
    }
  }

  lemma LayoutCount(lay: Layout, ps: seq<PageNo>)
    requires lay.Fits() && CopiedLayout(lay, ps)
    ensures |ps| == lay.PageCount()
  {
    var q: seq<nat> := seq(|ps|, k requires 0 <= k < |ps| => SlotOf(lay, ps[k]));
    forall x, y | 0 <= x < y < |q|
      ensures q[x] != q[y]
    {
      assert ps[x] != ps[y];
      SlotsAreDistinct(lay, 256 * ps[x].i + ps[x].j, 256 * ps[y].i + ps[y].j);
    }
    forall x: nat
      ensures x in q <==> x < lay.PageCount()
    {
      if x < lay.PageCount() {
        var p := PageInSlot(lay, x);
        assert SlotOf(lay, p) == x;
        var k :| 0 <= k < |ps| && ps[k] == p;
        assert q[k] == x;
      }
    }
    AllBelow(q, lay.PageCount());
  }

  lemma PageInSlot(lay: Layout, x: nat) returns (page: PageNo)
    requires lay.Fits() && x < lay.PageCount()
    ensures page.InUser() && SlotOf(lay, page) == x
  {
    var p: nat :=
      if x < lay.stackPages then lay.ArgsPage() - lay.stackPages + x
      else if x < lay.stackPages + lay.imagePages then lay.entryPage + x - lay.stackPages
      else if x < lay.stackPages + lay.imagePages + lay.heapPages then
        lay.HeapStart() + x - lay.stackPages - lay.imagePages
      else lay.ArgsPage();
    page := PageNo(p / 256, p % 256);
    assert 256 * page.i + page.j == p;
  }

  // ---------------------------------------------------------------- the layout over any number of forks

  /** If the parent maps the pages of a layout so does the child, and its page list has one frame for each. */
  lemma ForkKeepsLayout(s: Start, c: seq<Word>, m: Memory, ps: seq<PageNo>, fs: seq<nat>, lay: Layout)
    requires |s.l| == |c| == 4096 && Forked(s, c, m, ps, fs) && lay.Fits() && MapsLayout(s.l, s.m.t, lay)
    ensures MapsLayout(c, m.t, lay) && |fs| == lay.PageCount() && |m.pages| == |s.m.pages| + lay.PageCount()
  {
    ForkedLayout(s, c, m, ps, fs, lay);
    LayoutCount(lay, ps);
    forall i, j | 0 <= i < USER_ENTRIES && 0 <= j < 256
      ensures LeafAt(c, m.t, i, j) != Fault <==> lay.Slot(256 * i + j) != -1
    {
      ChildMirrorsParent(s, c, m, ps, fs, PageNo(i, j));
    }
  }

  /** One fork: where it starts, and the child's page table and the memory when it is done. */
  datatype Generation = Generation(s: Start, c: seq<Word>, m: Memory, ps: seq<PageNo>, fs: seq<nat>) {
    ghost predicate Valid() {
      |s.l| == |c| == 4096 && s.m.pages == [] && Forked(s, c, m, ps, fs)
    }
  }

  /** The child of g forks, at some later time when it has the same user pages mapped. */
  ghost predicate Parents(g: Generation, h: Generation)
    requires g.Valid() && h.Valid()
  {
    forall i, j :: 0 <= i < USER_ENTRIES && 0 <= j < 256 ==>
      (LeafAt(h.s.l, h.s.m.t, i, j) == Fault <==> LeafAt(g.c, g.m.t, i, j) == Fault)
  }

  ghost predicate Lineage(gs: seq<Generation>) {
    && (forall k :: 0 <= k < |gs| ==> gs[k].Valid())
    && (forall k :: 0 < k < |gs| ==> Parents(gs[k - 1], gs[k]))
  }

  /**
    However often an exec'd process and its descendants fork, each child has the layout of the first parent, page
    for page.
  */
  lemma {:induction false} ForksKeepLayout(gs: seq<Generation>, lay: Layout, k: nat)
    requires Lineage(gs) && k < |gs| && lay.Fits() && MapsLayout(gs[0].s.l, gs[0].s.m.t, lay)
    ensures MapsLayout(gs[k].c, gs[k].m.t, lay) && |gs[k].m.pages| == lay.PageCount()
  {
    var g := gs[k];
    if k > 0 {
      ForksKeepLayout(gs, lay, k - 1);
      assert Parents(gs[k - 1], g);
      forall i, j | 0 <= i < USER_ENTRIES && 0 <= j < 256
        ensures LeafAt(g.s.l, g.s.m.t, i, j) != Fault <==> lay.Slot(256 * i + j) != -1
      {
      }
    }
    ForkKeepsLayout(g.s, g.c, g.m, g.ps, g.fs, lay);
  }

  /** For the parent every address translates as before, but for those of the transitional page, which fault. */
  lemma ParentTranslates(l: seq<Word>, c0: seq<Word>, t: Tables, l': seq<Word>, c: seq<Word>, t': Tables, ti: nat,
                         tj: nat, va: Word)
    requires TablesForked(l, c0, t, l', c, t', ti, tj)
    ensures Translate(l', t', va) == if va / PAGE_SIZE == 256 * ti + tj then -1 else Translate(l, t, va)
  {
    PageOf(va);
  }

  // ---------------------------------------------------------------- everybody else

  /**
    A page table of another process, whose user part does not use the transitional table: fork changes no leaf of
    it behind any other table, and it stays well formed exactly when its kernel part is not left dangling.
  */
  lemma BystanderKept(e: Word, t: Tables, t': Tables, tj: nat, o: seq<Word>)
    requires TablesKept(e, t, t', tj) && WfTables(t') && Wf(o, t)
    requires forall k :: 0 <= k < USER_ENTRIES && IsTable(o[k]) ==> !LeadsTo(e, TableAddr(o[k]))
    ensures forall i, j :: 0 <= i < 4096 && 0 <= j < 256 && !(IsTable(o[i]) && LeadsTo(e, TableAddr(o[i]))) ==>
              LeafAt(o, t', i, j) == LeafAt(o, t, i, j)
    ensures Wf(o, t') <==> !Dangles(e, t, o, tj)
  {
    forall k | 0 <= k < 4096 && !(IsTable(o[k]) && LeadsTo(e, TableAddr(o[k])))
      ensures WfEntry(o[k], t') && forall j :: 0 <= j < 256 ==> LeafAt(o, t', k, j) == LeafAt(o, t, k, j)
    {
      assert WfEntry(o[k], t);
      if IsTable(o[k]) {
        assert KeptTable(e, t, t', tj, TableAddr(o[k]));
      }
    }
    KernelPart(e, t, t', tj, o, o);
  }

  /** A page table with one kernel table, of which only page 0 is mapped: where the transitional page is, it dangles. */
  lemma LeftDangling(o: seq<Word>, t: Tables)
    requires o == seq(4096, i => if i == USER_ENTRIES then 0x401 else 0) && t == OneTable()
    ensures Wf(o, t) && Dangles(o[USER_ENTRIES], t, o, 0)
  {
    assert IsTable(o[USER_ENTRIES]) && TableAddr(o[USER_ENTRIES]) == 0x400;
    assert !OtherWord(t[0x400], 0);
  }

  // ---------------------------------------------------------------- the process control block

  /** A first-level table with the kernel entries of sys and an empty user part. */
  function KernelEntries(sys: seq<Word>): (l: seq<Word>)
    requires |sys| == 4096
    ensures |l| == 4096 && forall i :: 0 <= i < 4096 ==> l[i] == if i < USER_ENTRIES then 0 else sys[i]
  {
    seq(4096, i requires 0 <= i < 4096 => if i < USER_ENTRIES then 0 else sys[i])
  }

  /** new_l1pgtable and pgtable_copy_kernel_area. */
  method NewPageTable(sys: array<Word>) returns (pgtable: array<Word>)
    requires sys.Length == 4096
    ensures fresh(pgtable) && pgtable.Length == 4096 && pgtable[..] == KernelEntries(sys[..])
  {
    pgtable := new Word[4096](i => 0);
    var i1 := USER_ENTRIES;
    while i1 < 4096
      invariant USER_ENTRIES <= i1 <= 4096
      invariant forall i :: 0 <= i < 4096 ==> pgtable[i] == if USER_ENTRIES <= i < i1 then sys[i] else 0
    {
      pgtable[i1] := sys[i1];
      i1 := i1 + 1;
    }
  }

  lemma KernelCopyWf(sys: seq<Word>, t: Tables)
    requires Wf(sys, t)
    ensures Wf(KernelEntries(sys), t)
  {
    forall i | 0 <= i < 4096 ensures WfEntry(KernelEntries(sys)[i], t) {
      assert WfEntry(sys[i], t);
    }
  }

  /** duplicate_process: the memory fields of the child, with no page yet. */
  method DuplicateProcess(sys: array<Word>, parent: Pcb, ghost t: Tables) returns (child: Pcb)
    requires Wf(sys[..], t)
    ensures fresh(child) && fresh(child.pgtable) && child.pages == [] && child.pgtable.Length == 4096
    ensures child.pageCount == parent.pageCount && child.stackTop == parent.stackTop
    ensures child.heapBase == parent.heapBase && child.heapPointer == parent.heapPointer
    ensures child.pgtable[..] == KernelEntries(sys[..]) && Wf(child.pgtable[..], t)
  {
    var pgtable := NewPageTable(sys);
    KernelCopyWf(sys[..], t);
    child := new Pcb(pgtable);
    child.pageCount := parent.pageCount;
    child.stackTop := parent.stackTop;
    child.heapBase := parent.heapBase;
    child.heapPointer := parent.heapPointer;
  }

  /** The pages a process has: those of the layout, as many as its page count says and its page list names. */
  ghost predicate HasLayout(pcb: Pcb, t: Tables, lay: Layout)
    reads pcb, pcb.pgtable
  {
    && pcb.pgtable.Length == 4096 && MapsLayout(pcb.pgtable[..], t, lay)
    && |pcb.pages| == pcb.pageCount == lay.PageCount()
    && pcb.heapBase == lay.HeapStart() * PAGE_SIZE
  }

  /** duplicate_user_space, for a parent with a layout: both have it afterwards. */
  method CopyLayout(heap: Heap, frames: FrameTable, from: array<Word>, child: Pcb, ti: nat, tj: nat, ghost lay: Layout)
    returns (ok: bool, ghost g: Generation)
    requires heap.Valid() && frames.Valid() && from != child.pgtable && child.pages == []
    requires Wf(from[..], heap.tables) && Wf(child.pgtable[..], heap.tables)
    requires USER_ENTRIES <= ti < 4096 && tj < 256 && !IsSect(from[ti])
    requires forall k :: 0 <= k < USER_ENTRIES ==> child.pgtable[k] == 0
    requires lay.Fits() && MapsLayout(from[..], heap.tables, lay)
    requires Start(from[..], View(heap, frames, child)).Owned()
    modifies heap, frames, from, child.pgtable, child`pages
    ensures !ok ==> heap.pool == {} || frames.free == {} || !NoUserSections(old(from[..]))
    ensures ok ==> heap.Valid() && frames.Valid() && child.pgtable.Length == 4096
    ensures ok ==> MapsLayout(from[..], heap.tables, lay) && MapsLayout(child.pgtable[..], heap.tables, lay)
    ensures ok ==> |child.pages| == lay.PageCount()
    ensures ok ==> TablesForked(old(from[..]), old(child.pgtable[..]), old(heap.tables), from[..], child.pgtable[..],
                                heap.tables, ti, tj)
    ensures ok ==> g.Valid() && g.s == old(Start(from[..], View(heap, frames, child))) && g.fs == child.pages
    ensures ok ==> g.c == child.pgtable[..] && g.m == View(heap, frames, child)
    ensures ok && NoEmptyUserTable(old(from[..]), old(heap.tables)) ==> NoEmptyUserTable(child.pgtable[..], heap.tables)
  {
    ghost var s, c0 := Start(from[..], View(heap, frames, child)), child.pgtable[..];
    ghost var mapped := SomePageMapped(s.l, s.m.t, lay);
    assert ParentLeaf(heap, from, mapped.i, mapped.j) != Fault;
    ghost var ps, fs;
    ok, ps, fs := DuplicateUserSpace(heap, frames, from, child.pgtable, child, ti, tj);
    g := Generation(s, child.pgtable[..], View(heap, frames, child), ps, fs);
    if ok {
      BothHaveLayout(s, g.c, g.m, ps, fs, from[..], ti, tj, lay);
      if NoEmptyUserTable(s.l, s.m.t) {
        ChildTablesInUse(s, c0, g.c, g.m, ps, fs);
      }
    }
  }

  /** The memory part of do_fork: a child of a process with a layout has that layout, and the parent keeps it. */
  method ForkProcess(heap: Heap, frames: FrameTable, sys: array<Word>, parent: Pcb, ti: nat, tj: nat, ghost lay: Layout)
    returns (ok: bool, child: Pcb, ghost g: Generation)
    requires heap.Valid() && frames.Valid() && Wf(sys[..], heap.tables) && Wf(parent.pgtable[..], heap.tables)
    requires USER_ENTRIES <= ti < 4096 && tj < 256 && !IsSect(parent.pgtable[ti])
    requires lay.Fits() && HasLayout(parent, heap.tables, lay)
    requires Start(parent.pgtable[..], View(heap, frames, parent)).Owned()
    modifies heap, frames, parent.pgtable
    ensures fresh(child)
    ensures !ok ==> heap.pool == {} || frames.free == {} || !NoUserSections(old(parent.pgtable[..]))
    ensures ok ==> heap.Valid() && frames.Valid()
    ensures ok ==> HasLayout(child, heap.tables, lay) && child.heapPointer == parent.heapPointer
    ensures ok ==> HasLayout(parent, heap.tables, lay)
    ensures ok ==> TablesForked(old(parent.pgtable[..]), KernelEntries(old(sys[..])), old(heap.tables),
                                parent.pgtable[..], child.pgtable[..], heap.tables, ti, tj)
    ensures ok ==> g.Valid() && g.s.l == old(parent.pgtable[..]) && g.s.m.t == old(heap.tables)
    ensures ok ==> g.c == child.pgtable[..] && g.m == View(heap, frames, child) && g.fs == child.pages
    ensures ok && NoEmptyUserTable(old(parent.pgtable[..]), old(heap.tables)) ==>
              NoEmptyUserTable(child.pgtable[..], heap.tables)
  {
    child := DuplicateProcess(sys, parent, heap.tables);
    ok, g := CopyLayout(heap, frames, parent.pgtable, child, ti, tj, lay);
  }

  lemma SomePageMapped(l: seq<Word>, t: Tables, lay: Layout) returns (p: PageNo)
    requires |l| == 4096 && lay.Fits() && MapsLayout(l, t, lay)
    ensures p.InUser() && LeafAt(l, t, p.i, p.j) != Fault
  {
    p := PageInSlot(lay, 0);
  }

  lemma BothHaveLayout(s: Start, c: seq<Word>, m: Memory, ps: seq<PageNo>, fs: seq<nat>, l: seq<Word>, ti: nat,
                       tj: nat, lay: Layout)
    requires |s.l| == |c| == |l| == 4096 && Forked(s, c, m, ps, fs) && s.m.pages == []
    requires lay.Fits() && MapsLayout(s.l, s.m.t, lay) && USER_ENTRIES <= ti && OnlyLeaf(s.l, s.m.t, l, m.t, ti, tj)
    ensures MapsLayout(c, m.t, lay) && |m.pages| == lay.PageCount() && MapsLayout(l, m.t, lay)
  {
    ForkKeepsLayout(s, c, m, ps, fs, lay);
  }
}
