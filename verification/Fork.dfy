/** fork: copying the user memory of the running parent into a child, frame by frame (duplicate_user_space). */
module Fork {
  import opened Word32
  import opened PageTable
  import opened MapPages
  import opened UnmapPages
  import opened Frames
  import opened Sequences
  import opened UserSpace

  // ---------------------------------------------------------------- states

  /** The second-level tables and the free blocks, the frames, and the child's page list. */
  datatype Memory = Memory(t: Tables, pool: set<Word>, free: set<nat>, ref: map<nat, nat>, ram: map<nat, seq<Byte>>,
                           pages: seq<nat>)

  ghost function View(heap: Heap, frames: FrameTable, child: Pcb): Memory
    reads heap, frames, child`pages
  {
    Memory(heap.tables, heap.pool, frames.free, frames.refcount, frames.ram, child.pages)
  }

  /** The parent's page table and the memory when fork starts. */
  datatype Start = Start(l: seq<Word>, m: Memory) {
    /** The parent's user pages lead to frames in use. */
    ghost predicate Owned() {
      |l| == 4096 &&
      forall i, j :: 0 <= i < USER_ENTRIES && 0 <= j < 256 && LeafAt(l, m.t, i, j) != Fault ==>
        LeafAt(l, m.t, i, j).frame in m.ram && LeafAt(l, m.t, i, j).frame !in m.free
    }
  }

  /** One user page, by its first- and second-level index. */
  datatype PageNo = PageNo(i: nat, j: nat) {
    predicate InUser() { i < USER_ENTRIES && j < 256 }
  }

  // ---------------------------------------------------------------- two page tables over one heap

  /** No user table of the child is one the parent uses. */
  ghost predicate Apart(l: seq<Word>, c: seq<Word>)
    requires |l| == |c| == 4096
  {
    forall i :: 0 <= i < USER_ENTRIES && IsTable(c[i]) ==> !Reached(l, TableAddr(c[i]))
  }

  ghost predicate SameUserLeaves(c: seq<Word>, t: Tables, t': Tables)
    requires |c| == 4096
  {
    forall i, j :: 0 <= i < USER_ENTRIES && 0 <= j < 256 ==> LeafAt(c, t', i, j) == LeafAt(c, t, i, j)
  }

  /** Every leaf but that of page (ti, tj) is the same. */
  ghost predicate OnlyLeaf(l: seq<Word>, t: Tables, l': seq<Word>, t': Tables, ti: nat, tj: nat)
    requires |l| == |l'| == 4096
  {
    forall i, j :: 0 <= i < 4096 && 0 <= j < 256 && !(i == ti && j == tj) ==> LeafAt(l', t', i, j) == LeafAt(l, t, i, j)
  }

  /** Entry e leads to the table at a. */
  predicate LeadsTo(e: Word, a: Word) {
    IsTable(e) && TableAddr(e) == a
  }

  /**
    The tables there were when fork started are all there, with the same words but perhaps in the one behind the
    parent's entry ti; the child's user tables are new, and so is any table the parent has been given at ti.
  */
  ghost predicate Secluded(s: Start, e: Word, c: seq<Word>, t: Tables, ti: nat)
    requires |s.l| == |c| == 4096 && ti < 4096
  {
    && (forall a :: a in s.m.t ==> a in t && (t[a] == s.m.t[a] || LeadsTo(s.l[ti], a)))
    && (forall i :: 0 <= i < USER_ENTRIES && IsTable(c[i]) ==> TableAddr(c[i]) !in s.m.t)
    && (if IsTable(s.l[ti]) then e == s.l[ti] else IsTable(e) ==> TableAddr(e) !in s.m.t)
  }

  /** A table there was not when fork started is behind a user entry of the child, or behind the parent's entry ti. */
  ghost predicate Accounted(s: Start, e: Word, c: seq<Word>, t: Tables) {
    forall a :: a in t && a !in s.m.t ==> UserReaches(c, a) || LeadsTo(e, a)
  }

  /** Both page tables are in order, and page (ti, _) of the parent can be mapped. */
  ghost predicate PairWf(s: Start, l: seq<Word>, c: seq<Word>, t: Tables, ti: nat) {
    && Wf(l, t) && Wf(c, t) && USER_ENTRIES <= ti < 4096 && !IsSect(l[ti]) && Apart(l, c)
    && |s.l| == 4096 && Secluded(s, l[ti], c, t, ti) && Accounted(s, l[ti], c, t)
  }

  ghost predicate Pair(heap: Heap, from: array<Word>, to: array<Word>, ti: nat, s: Start)
    reads heap, from, to
  {
    heap.Valid() && from != to && PairWf(s, from[..], to[..], heap.tables, ti)
  }

  lemma WfGrows(c: seq<Word>, t: Tables, t': Tables)
    requires Wf(c, t) && WfTables(t')
    requires forall i :: 0 <= i < 4096 && IsTable(c[i]) ==> TableAddr(c[i]) in t'
    ensures Wf(c, t')
  {
  }

  /** Mapping page (ti, tj) in the parent touches none of the child's user tables. */
  lemma CreateKeepsChild(l: seq<Word>, t: Tables, l': seq<Word>, t': Tables, c: seq<Word>, ti: nat, tj: nat, f: nat)
    requires Wf(l, t) && Wf(l', t') && Wf(c, t) && ti < 4096 && tj < 256 && f < PAGE_COUNT && Apart(l, c)
    requires var v := 256 * ti + tj; Created(l, t, l', t', v, v + 1, v + 1, f * 4096, false)
    ensures Wf(c, t') && Apart(l', c) && SameUserLeaves(c, t, t')
  {
    WfGrows(c, t, t');
    var v := 256 * ti + tj;
    assert forall k :: 0 <= k < 4096 && k != ti ==> l'[k] == l[k];
    forall i | 0 <= i < USER_ENTRIES && IsTable(c[i])
      ensures t'[TableAddr(c[i])] == t[TableAddr(c[i])] && !Reached(l', TableAddr(c[i]))
    {
      assert WfEntry(c[i], t);
      assert !Reached(l, TableAddr(c[i]));
    }
  }

  /** It writes no other table there was when fork started than the one behind entry ti. */
  lemma CreateSecluded(s: Start, l: seq<Word>, t: Tables, l': seq<Word>, t': Tables, c: seq<Word>, ti: nat, tj: nat,
                       f: nat)
    requires Wf(l, t) && Wf(l', t') && ti < 4096 && tj < 256 && f < PAGE_COUNT && |s.l| == |c| == 4096
    requires Secluded(s, l[ti], c, t, ti)
    requires var v := 256 * ti + tj; Created(l, t, l', t', v, v + 1, v + 1, f * 4096, false)
    ensures Secluded(s, l'[ti], c, t', ti)
  {
    var v := 256 * ti + tj;
    assert Touches(ti, v, v + 1) && !SectionChunk(ti, v, v + 1, f * 4096);
    forall a | a in s.m.t
      ensures a in t' && (t'[a] == s.m.t[a] || LeadsTo(s.l[ti], a))
    {
      assert a in t && (t[a] == s.m.t[a] || LeadsTo(s.l[ti], a));
      if t'[a] != t[a] {
        var i :| 0 <= i < 4096 && Touches(i, v, v + 1) && IsTable(l[i]) && TableAddr(l[i]) == a;
        assert i == ti;
      }
    }
  }

  /** A table it takes from the heap is behind entry ti. */
  lemma CreateAccounted(s: Start, l: seq<Word>, t: Tables, l': seq<Word>, t': Tables, c: seq<Word>, ti: nat, tj: nat,
                        f: nat)
    requires Wf(l, t) && Wf(l', t') && ti < 4096 && tj < 256 && f < PAGE_COUNT
    requires Accounted(s, l[ti], c, t)
    requires var v := 256 * ti + tj; Created(l, t, l', t', v, v + 1, v + 1, f * 4096, false)
    ensures Accounted(s, l'[ti], c, t')
  {
    var v := 256 * ti + tj;
    assert Touches(ti, v, v + 1) && !SectionChunk(ti, v, v + 1, f * 4096);
    forall a | a in t' && a !in s.m.t
      ensures UserReaches(c, a) || LeadsTo(l'[ti], a)
    {
      if a !in t {
        var i :| 0 <= i < 4096 && IsTable(l'[i]) && TableAddr(l'[i]) == a;
        assert i == ti by {
          assert WfEntry(l[i], t);
        }
      }
    }
  }

  /** Writing a table that a page table does not reach leaves its walk alone. */
  lemma UnreachedWrite(l: seq<Word>, t: Tables, t': Tables, a: Word)
    requires Wf(l, t) && WfTables(t') && !Reached(l, a)
    requires forall b :: b in t && b != a ==> b in t' && t'[b] == t[b]
    ensures Wf(l, t')
    ensures forall i, j :: 0 <= i < 4096 && 0 <= j < 256 ==> LeafAt(l, t', i, j) == LeafAt(l, t, i, j)
  {
  }

  // ---------------------------------------------------------------- one page

  /** Page p of the child leads to frame f, and its other user pages are as they were. */
  ghost predicate ChildPageSet(c: seq<Word>, t: Tables, t': Tables, p: PageNo, f: nat)
    requires |c| == 4096
  {
    forall k, m :: 0 <= k < USER_ENTRIES && 0 <= m < 256 ==>
      LeafAt(c, t', k, m) == (if k == p.i && m == p.j then SmallPage(f, L2_DCACHE_WRITEALLOC) else LeafAt(c, t, k, m))
  }

  lemma StoredChildPage(l: seq<Word>, c: seq<Word>, t: Tables, t': Tables, p: PageNo, f: nat)
    requires Wf(l, t) && Wf(c, t) && WfTables(t') && Apart(l, c)
    requires p.InUser() && IsTable(c[p.i]) && TableAddr(c[p.i]) in t && f < PAGE_COUNT
    requires t' == t[TableAddr(c[p.i]) := Put(t[TableAddr(c[p.i])], p.j, PageDescriptor(f, false))]
    ensures Wf(c, t') && Wf(l, t') && ChildPageSet(c, t, t', p, f)
    ensures forall k, m :: 0 <= k < 4096 && 0 <= m < 256 ==> LeafAt(l, t', k, m) == LeafAt(l, t, k, m)
  {
    UnreachedWrite(l, t, t', TableAddr(c[p.i]));
    forall k | 0 <= k < 4096 && IsTable(c[k]) ensures TableAddr(c[k]) in t' {
      assert WfEntry(c[k], t);
    }
    WfGrows(c, t, t');
    OtherEntriesKeepTheirLeaves(c, t, c, t', p.i);
    forall m | 0 <= m < 256
      ensures LeafAt(c, t', p.i, m) == (if m == p.j then SmallPage(f, L2_DCACHE_WRITEALLOC) else LeafAt(c, t, p.i, m))
    {
      assert t'[TableAddr(c[p.i])][m] == if m == p.j then PageDescriptor(f, false) else t[TableAddr(c[p.i])][m];
    }
  }

  /** In the parent only page (ti, tj) and its first-level entry, which now has a table, may differ. */
  ghost predicate ParentStep(l: seq<Word>, t: Tables, l': seq<Word>, t': Tables, ti: nat, tj: nat)
    requires |l| == |l'| == 4096 && ti < 4096
  {
    OnlyLeaf(l, t, l', t', ti, tj) && l' == l[ti := l'[ti]] && IsTable(l'[ti])
  }

  /** Map frame f in the parent at (ti, tj), where its contents will be written. */
  method MapTransitional(heap: Heap, from: array<Word>, ghost to: array<Word>, ti: nat, tj: nat, f: nat, ghost s: Start)
    returns (ok: bool)
    requires Pair(heap, from, to, ti, s) && tj < 256 && f < FRAME_COUNT
    modifies heap, from
    ensures !ok ==> heap.pool == {}
    ensures ok ==> Pair(heap, from, to, ti, s)
    ensures ok ==> LeafAt(from[..], heap.tables, ti, tj) == SmallPage(f, L2_DCACHE_WRITEALLOC)
    ensures ok ==> ParentStep(old(from[..]), old(heap.tables), from[..], heap.tables, ti, tj)
    ensures ok ==> SameUserLeaves(to[..], old(heap.tables), heap.tables)
    ensures ok ==> Conserved(old(heap.tables), old(heap.pool), heap.tables, heap.pool)
  {
    var v := 256 * ti + tj;
    ok := MapOnePage(heap, from, v, f);
    if ok {
      CreatedParentStep(old(from[..]), old(heap.tables), from[..], heap.tables, ti, tj, f);
      CreateKeepsChild(old(from[..]), old(heap.tables), from[..], heap.tables, to[..], ti, tj, f);
      CreateSecluded(s, old(from[..]), old(heap.tables), from[..], heap.tables, to[..], ti, tj, f);
      CreateAccounted(s, old(from[..]), old(heap.tables), from[..], heap.tables, to[..], ti, tj, f);
    }
  }

  lemma CreatedParentStep(l: seq<Word>, t: Tables, l': seq<Word>, t': Tables, ti: nat, tj: nat, f: nat)
    requires Wf(l, t) && Wf(l', t') && USER_ENTRIES <= ti < 4096 && tj < 256 && f < FRAME_COUNT
    requires var v := 256 * ti + tj; Created(l, t, l', t', v, v + 1, v + 1, f * 4096, false)
    ensures ParentStep(l, t, l', t', ti, tj) && !IsSect(l'[ti])
    ensures LeafAt(l', t', ti, tj) == SmallPage(f, L2_DCACHE_WRITEALLOC)
  {
    var v := 256 * ti + tj;
    CreatedOnePage(l, t, l', t', v, f);
    assert forall k :: 0 <= k < 4096 && k != ti ==> l'[k] == l[k];
    assert Touches(ti, v, v + 1) && !SectionChunk(ti, v, v + 1, f * 4096);
  }

  /** Enter frame f in the child's table for page p. */
  method EnterInChild(heap: Heap, ghost from: array<Word>, to: array<Word>, p: PageNo, ghost ti: nat, f: nat,
                      ghost s: Start)
    requires Pair(heap, from, to, ti, s) && p.InUser() && f < FRAME_COUNT && IsTable(to[p.i])
    modifies heap`tables
    ensures Pair(heap, from, to, ti, s) && heap.tables.Keys == old(heap.tables.Keys)
    ensures ChildPageSet(to[..], old(heap.tables), heap.tables, p, f)
    ensures forall k, m :: 0 <= k < 4096 && 0 <= m < 256 ==>
              LeafAt(from[..], heap.tables, k, m) == LeafAt(from[..], old(heap.tables), k, m)
  {
    assert WfEntry(to[p.i], heap.tables);
    heap.Store(TableAddr(to[p.i]), p.j, PageDescriptor(f, false));
    StoredChildPage(from[..], to[..], old(heap.tables), heap.tables, p, f);
  }

  /** The two page-table writes of one copied page. */
  method MapBoth(heap: Heap, from: array<Word>, to: array<Word>, p: PageNo, ti: nat, tj: nat, f: nat, ghost s: Start)
    returns (ok: bool)
    requires Pair(heap, from, to, ti, s) && p.InUser() && tj < 256 && f < FRAME_COUNT && IsTable(to[p.i])
    modifies heap, from
    ensures !ok ==> heap.pool == {}
    ensures ok ==> Pair(heap, from, to, ti, s)
    ensures ok ==> LeafAt(from[..], heap.tables, ti, tj) == SmallPage(f, L2_DCACHE_WRITEALLOC)
    ensures ok ==> ParentStep(old(from[..]), old(heap.tables), from[..], heap.tables, ti, tj)
    ensures ok ==> ChildPageSet(to[..], old(heap.tables), heap.tables, p, f)
    ensures ok ==> Conserved(old(heap.tables), old(heap.pool), heap.tables, heap.pool)
  {
    ok := MapTransitional(heap, from, to, ti, tj, f, s);
    if ok {
      EnterInChild(heap, from, to, p, ti, f, s);
    }
  }

  /** The parent's leaf for page (i, j). */
  ghost function ParentLeaf(heap: Heap, from: array<Word>, i: nat, j: nat): Leaf
    requires from.Length == 4096 && i < 4096 && j < 256
    reads heap, from
  {
    LeafAt(from[..], heap.tables, i, j)
  }

  /** A frame was taken for page p of the child, with the contents of frame src, and added to its page list. */
  ghost predicate FrameStep(c: seq<Word>, m: Memory, m': Memory, p: PageNo, src: nat)
    requires |c| == 4096
  {
    && |m'.pages| == |m.pages| + 1 && src in m.ram
    && var f := m'.pages[|m.pages|];
       && m'.pages == m.pages + [f]
       && f in m.free && m'.free == m.free - {f}
       && f in m.ref && m'.ref == m.ref[f := m.ref[f] + 1]
       && f in m.ram && m'.ram == m.ram[f := m.ram[src]]
       && ChildPageSet(c, m.t, m'.t, p, f)
  }

  /** Frame f, which was free, has a reference in the child's page list. */
  ghost predicate TookFor(m: Memory, m': Memory, f: nat) {
    && f in m.free && f in m.ref && f in m.ram
    && m' == m.(free := m.free - {f}, ref := m.ref[f := m.ref[f] + 1], pages := m.pages + [f])
  }

  /** Then it is mapped and written. */
  lemma TakenStep(c: seq<Word>, m: Memory, m1: Memory, m': Memory, p: PageNo, src: nat, f: nat)
    requires |c| == 4096 && TookFor(m, m1, f) && src in m.ram
    requires m' == m1.(t := m'.t, pool := m'.pool, ram := m1.ram[f := m1.ram[src]]) && ChildPageSet(c, m.t, m'.t, p, f)
    ensures FrameStep(c, m, m', p, src)
  {
    assert m'.pages[|m.pages|] == f;
  }

  /**
    Copy page p of the running parent: take a frame for the child, map it in the parent at (ti, tj), enter it in
    the child's table, and copy the contents through the parent's walk.
  */
  method CopyUserPage(heap: Heap, frames: FrameTable, from: array<Word>, to: array<Word>, child: Pcb,
                      p: PageNo, ti: nat, tj: nat, ghost s: Start)
    returns (ok: bool)
    requires Pair(heap, from, to, ti, s) && frames.Valid() && p.InUser() && tj < 256
    requires IsTable(to[p.i]) && ParentLeaf(heap, from, p.i, p.j) != Fault
    requires var f := ParentLeaf(heap, from, p.i, p.j).frame; f in frames.ram && f !in frames.free
    modifies heap, frames, from, child`pages
    ensures !ok ==> heap.pool == {} || frames.free == {}
    ensures ok ==> Pair(heap, from, to, ti, s) && frames.Valid()
    ensures ok ==> ParentStep(old(from[..]), old(heap.tables), from[..], heap.tables, ti, tj)
    ensures ok ==> FrameStep(to[..], old(View(heap, frames, child)), View(heap, frames, child), p,
                             old(ParentLeaf(heap, from, p.i, p.j).frame))
    ensures ok ==> Conserved(old(heap.tables), old(heap.pool), heap.tables, heap.pool)
  {
    ghost var m, src := View(heap, frames, child), ParentLeaf(heap, from, p.i, p.j).frame;
    var f := TakeForChild(heap, frames, child);
    if f == 0 {
      return false;
    }
    ghost var m1 := View(heap, frames, child);
    assert ParentLeaf(heap, from, p.i, p.j).frame == src;
    ok := MapAndCopy(heap, frames, from, to, child, p, ti, tj, f, s);
    if ok {
      TakenStep(to[..], m, m1, View(heap, frames, child), p, src, f);
    }
  }

  /** A free frame, with its first reference in the child's page list; 0 if there is none. */
  method TakeForChild(ghost heap: Heap, frames: FrameTable, child: Pcb) returns (f: nat)
    requires frames.Valid()
    modifies frames`free, frames`refcount, child`pages
    ensures f == 0 ==> frames.free == {}
    ensures f != 0 ==> frames.Valid() && f < FRAME_COUNT
    ensures f != 0 ==> TookFor(old(View(heap, frames, child)), View(heap, frames, child), f)
  {
    f := frames.GetFreePage();
    if f != 0 {
      AddPageToProc(frames, child, f);
    }
  }

  /** Both mappings of the frame, and the memcpy through the parent's. */
  method MapAndCopy(heap: Heap, frames: FrameTable, from: array<Word>, to: array<Word>, ghost child: Pcb, p: PageNo,
                    ti: nat, tj: nat, f: nat, ghost s: Start)
    returns (ok: bool)
    requires Pair(heap, from, to, ti, s) && frames.Valid() && p.InUser() && tj < 256 && f < FRAME_COUNT
    requires f in frames.ram
    requires IsTable(to[p.i]) && ParentLeaf(heap, from, p.i, p.j) != Fault
    requires ParentLeaf(heap, from, p.i, p.j).frame in frames.ram
    modifies heap, frames`ram, from
    ensures !ok ==> heap.pool == {}
    ensures ok ==> Pair(heap, from, to, ti, s) && frames.Valid()
    ensures ok ==> ParentStep(old(from[..]), old(heap.tables), from[..], heap.tables, ti, tj)
    ensures ok ==> ChildPageSet(to[..], old(heap.tables), heap.tables, p, f)
    ensures ok ==> var m, src := old(View(heap, frames, child)), old(ParentLeaf(heap, from, p.i, p.j).frame);
                   View(heap, frames, child) == m.(t := heap.tables, pool := heap.pool, ram := m.ram[f := m.ram[src]])
    ensures ok ==> Conserved(old(heap.tables), old(heap.pool), heap.tables, heap.pool)
  {
    ok := MapBoth(heap, from, to, p, ti, tj, f, s);
    if ok {
      CopyThroughWalk(heap, frames, from, p, ti, tj);
    }
  }

  /** The memcpy, between the frames the parent's walk finds for the page and for the transitional address. */
  method CopyThroughWalk(heap: Heap, frames: FrameTable, from: array<Word>, p: PageNo, ti: nat, tj: nat)
    requires frames.Valid() && from.Length == 4096 && p.InUser() && ti < 4096 && tj < 256
    requires ParentLeaf(heap, from, p.i, p.j) != Fault && ParentLeaf(heap, from, p.i, p.j).frame in frames.ram
    requires ParentLeaf(heap, from, ti, tj) != Fault && ParentLeaf(heap, from, ti, tj).frame in frames.ram
    modifies frames`ram
    ensures frames.Valid()
    ensures var dst, src := ParentLeaf(heap, from, ti, tj).frame, ParentLeaf(heap, from, p.i, p.j).frame;
            frames.ram == old(frames.ram)[dst := old(frames.ram)[src]]
  {
    var dst, src := LeafAt(from[..], heap.tables, ti, tj), LeafAt(from[..], heap.tables, p.i, p.j);
    frames.CopyFrame(dst.frame, src.frame);
  }

  // ---------------------------------------------------------------- all pages

  /** The child's page p leads to f, which holds what the parent's frame for p held. */
  ghost predicate PageCopied(s: Start, c: seq<Word>, t: Tables, ram: map<nat, seq<Byte>>, p: PageNo, f: nat)
    requires |s.l| == |c| == 4096
  {
    && p.InUser()
    && LeafAt(s.l, s.m.t, p.i, p.j) != Fault
    && LeafAt(c, t, p.i, p.j) == SmallPage(f, L2_DCACHE_WRITEALLOC)
    && LeafAt(s.l, s.m.t, p.i, p.j).frame in s.m.ram
    && f in ram && ram[f] == s.m.ram[LeafAt(s.l, s.m.t, p.i, p.j).frame]
  }

  /** The child's user pages are ps, copied into the frames fs in the same order; no other frame's contents changed. */
  ghost predicate Copied(s: Start, c: seq<Word>, t: Tables, ram: map<nat, seq<Byte>>, ps: seq<PageNo>, fs: seq<nat>)
    requires |s.l| == |c| == 4096
  {
    && |ps| == |fs| && NoDup(ps)
    && (forall k :: 0 <= k < |ps| ==> PageCopied(s, c, t, ram, ps[k], fs[k]))
    && (forall i, j :: 0 <= i < USER_ENTRIES && 0 <= j < 256 && LeafAt(c, t, i, j) != Fault ==> PageNo(i, j) in ps)
    && ram.Keys == s.m.ram.Keys && (forall f :: f in ram && f !in fs ==> ram[f] == s.m.ram[f])
  }

  lemma CopiedMore(s: Start, c: seq<Word>, m: Memory, ps: seq<PageNo>, fs: seq<nat>, t': Tables, p: PageNo, f: nat,
                   src: nat)
    requires |s.l| == |c| == 4096 && Copied(s, c, m.t, m.ram, ps, fs) && p.InUser() && p !in ps
    requires LeafAt(s.l, s.m.t, p.i, p.j) != Fault && LeafAt(s.l, s.m.t, p.i, p.j).frame == src
    requires src in s.m.ram && src !in fs && f in m.ram && f !in fs
    requires ChildPageSet(c, m.t, t', p, f)
    ensures Copied(s, c, t', m.ram[f := m.ram[src]], ps + [p], fs + [f])
  {
    var ram', ps', fs' := m.ram[f := m.ram[src]], ps + [p], fs + [f];
    forall k | 0 <= k < |ps'|
      ensures PageCopied(s, c, t', ram', ps'[k], fs'[k])
    {
      if k < |ps| {
        assert PageCopied(s, c, m.t, m.ram, ps[k], fs[k]);
        assert ps[k] in ps && fs[k] in fs;
      }
    }
    forall i, j | 0 <= i < USER_ENTRIES && 0 <= j < 256 && LeafAt(c, t', i, j) != Fault
      ensures PageNo(i, j) in ps'
    {
      if i == p.i && j == p.j {
        assert ps'[|ps|] == PageNo(i, j);
      }
    }
  }

  /** Pages are visited in order; before (qi, qj) exactly the parent's mapped pages have been copied. */
  ghost predicate Scanned(s: Start, ps: seq<PageNo>, qi: nat, qj: nat)
    requires |s.l| == 4096
  {
    && (forall i, j | 0 <= i < USER_ENTRIES && 0 <= j < 256 && Before(i, j, qi, qj) ::
          LeafAt(s.l, s.m.t, i, j) != Fault ==> PageNo(i, j) in ps)
    && (forall p :: p in ps ==> Before(p.i, p.j, qi, qj))
  }

  predicate Before(i: nat, j: nat, qi: nat, qj: nat) {
    i < qi || (i == qi && j < qj)
  }

  /** What the parent looks like while it is copied, once any page has been. */
  ghost predicate ParentKept(s: Start, l: seq<Word>, t: Tables, ti: nat, tj: nat, any: bool)
    requires |s.l| == |l| == 4096 && ti < 4096
  {
    && OnlyLeaf(s.l, s.m.t, l, t, ti, tj) && l == s.l[ti := l[ti]]
    && (if any then IsTable(l[ti]) else l[ti] == s.l[ti])
  }

  ghost predicate ChildKept(s: Start, c: seq<Word>, m: Memory, ps: seq<PageNo>, fs: seq<nat>)
    requires |s.l| == |c| == 4096
  {
    && m.pages == s.m.pages + fs && Took(s.m.free, s.m.ref, m.free, m.ref, fs)
    && Copied(s, c, m.t, m.ram, ps, fs)
  }

  lemma ParentKeptStep(s: Start, l: seq<Word>, t: Tables, l': seq<Word>, t': Tables, ti: nat, tj: nat, any: bool)
    requires |s.l| == |l| == |l'| == 4096 && ti < 4096
    requires ParentKept(s, l, t, ti, tj, any) && ParentStep(l, t, l', t', ti, tj)
    ensures ParentKept(s, l', t', ti, tj, true)
  {
  }

  lemma ChildKeptStep(s: Start, c: seq<Word>, m: Memory, m': Memory, ps: seq<PageNo>, fs: seq<nat>, p: PageNo)
    requires |s.l| == |c| == 4096 && s.Owned() && ChildKept(s, c, m, ps, fs)
    requires p.InUser() && p !in ps && LeafAt(s.l, s.m.t, p.i, p.j) != Fault
    requires FrameStep(c, m, m', p, LeafAt(s.l, s.m.t, p.i, p.j).frame)
    ensures ChildKept(s, c, m', ps + [p], fs + [m'.pages[|m.pages|]])
  {
    var f, src := m'.pages[|m.pages|], LeafAt(s.l, s.m.t, p.i, p.j).frame;
    assert src in s.m.ram && src !in fs;
    CopiedMore(s, c, m, ps, fs, m'.t, p, f, src);
    TookMore(s.m.free, s.m.ref, m.free, m.ref, fs, f);
  }

  /** What fork works on: the heap and the frames, both page tables, the child, and the transitional page (ti, tj). */
  datatype Copying = Copying(heap: Heap, frames: FrameTable, from: array<Word>, to: array<Word>, child: Pcb, ti: nat,
                             tj: nat)

  /** The pages copied so far, and the frames they were copied to. */
  datatype Done = Done(ps: seq<PageNo>, fs: seq<nat>)

  ghost predicate Progress(x: Copying, s: Start, d: Done)
    reads x.heap, x.frames, x.from, x.to, x.child`pages
  {
    && Pair(x.heap, x.from, x.to, x.ti, s) && x.frames.Valid() && x.tj < 256 && s.Owned()
    && ParentKept(s, x.from[..], x.heap.tables, x.ti, x.tj, d.ps != [])
    && ChildKept(s, x.to[..], View(x.heap, x.frames, x.child), d.ps, d.fs)
    && Conserved(s.m.t, s.m.pool, x.heap.tables, x.heap.pool)
  }

  /** Copy one mapped page. */
  method CopyOne(x: Copying, p: PageNo, ghost s: Start, ghost d: Done) returns (ok: bool, ghost d': Done)
    requires Progress(x, s, d)
    requires p.InUser() && IsTable(x.to[p.i]) && p !in d.ps && ParentLeaf(x.heap, x.from, p.i, p.j) != Fault
    modifies x.heap, x.frames, x.from, x.child`pages
    ensures !ok ==> x.heap.pool == {} || x.frames.free == {}
    ensures ok ==> Progress(x, s, d') && d'.ps == d.ps + [p]
  {
    ghost var l, m := x.from[..], View(x.heap, x.frames, x.child);
    SourceFrame(s, l, x.to[..], m, d.ps, d.fs, p, x.ti, x.tj);
    d' := d;
    ok := CopyUserPage(x.heap, x.frames, x.from, x.to, x.child, p, x.ti, x.tj, s);
    if ok {
      d' := Done(d.ps + [p], d.fs + [x.child.pages[|m.pages|]]);
      ParentKeptStep(s, l, m.t, x.from[..], x.heap.tables, x.ti, x.tj, d.ps != []);
      ChildKeptStep(s, x.to[..], m, View(x.heap, x.frames, x.child), d.ps, d.fs, p);
    }
  }

  /** The parent's frame for a user page is the one it had at the start, and is not one given to the child. */
  lemma SourceFrame(s: Start, l: seq<Word>, c: seq<Word>, m: Memory, ps: seq<PageNo>, fs: seq<nat>, p: PageNo,
                    ti: nat, tj: nat)
    requires |s.l| == |l| == |c| == 4096 && USER_ENTRIES <= ti < 4096 && s.Owned()
    requires ParentKept(s, l, m.t, ti, tj, ps != []) && ChildKept(s, c, m, ps, fs) && p.InUser()
    ensures LeafAt(l, m.t, p.i, p.j) == LeafAt(s.l, s.m.t, p.i, p.j)
    ensures LeafAt(l, m.t, p.i, p.j) != Fault ==>
              LeafAt(l, m.t, p.i, p.j).frame in m.ram && LeafAt(l, m.t, p.i, p.j).frame !in m.free
  {
  }

  /** The second-level entry for page (i, j), which is zero exactly when the page is not mapped. */
  method ReadL2(heap: Heap, from: array<Word>, i: nat, j: nat) returns (d: Word)
    requires heap.Valid() && Wf(from[..], heap.tables) && i < 4096 && j < 256 && IsTable(from[i])
    ensures d == 0 <==> ParentLeaf(heap, from, i, j) == Fault
  {
    assert WfEntry(from[i], heap.tables);
    d := heap.tables[TableAddr(from[i])][j];
  }

  /** One round of the loop over a second-level table. */
  method CopyIfMapped(x: Copying, i: nat, j: nat, ghost s: Start, ghost d: Done) returns (ok: bool, ghost d': Done)
    requires Progress(x, s, d) && i < USER_ENTRIES && j < 256
    requires IsTable(s.l[i]) && IsTable(x.to[i]) && Scanned(s, d.ps, i, j)
    modifies x.heap, x.frames, x.from, x.child`pages
    ensures !ok ==> x.heap.pool == {} || x.frames.free == {}
    ensures ok ==> Progress(x, s, d') && Scanned(s, d'.ps, i, j + 1)
  {
    ok, d' := true, d;
    var p := PageNo(i, j);
    SourceFrame(s, x.from[..], x.to[..], View(x.heap, x.frames, x.child), d.ps, d.fs, p, x.ti, x.tj);
    UserEntryKept(s, x.from[..], x.heap.tables, x.ti, x.tj, d.ps != [], i);
    var l2pte := ReadL2(x.heap, x.from, i, j);
    if l2pte != 0 {
      ScannedOne(s, d.ps, p);
      ok, d' := CopyOne(x, p, s, d);
    } else {
      ScannedNone(s, d.ps, p);
    }
  }

  /** Copy every mapped page under one first-level entry. */
  method CopyTable(x: Copying, i: nat, ghost s: Start, ghost d: Done) returns (ok: bool, ghost d': Done)
    requires Progress(x, s, d) && i < USER_ENTRIES
    requires IsTable(s.l[i]) && IsTable(x.to[i]) && Scanned(s, d.ps, i, 0)
    modifies x.heap, x.frames, x.from, x.child`pages
    ensures !ok ==> x.heap.pool == {} || x.frames.free == {}
    ensures ok ==> Progress(x, s, d') && Scanned(s, d'.ps, i + 1, 0)
  {
    ok, d' := true, d;
    var j := 0;
    while j < 256
      invariant 0 <= j <= 256 && ok
      invariant Progress(x, s, d') && Scanned(s, d'.ps, i, j)
    {
      ok, d' := CopyIfMapped(x, i, j, s, d');
      if !ok {
        return;
      }
      j := j + 1;
    }
    ScannedRow(s, d'.ps, i);
  }

  lemma ScannedOne(s: Start, ps: seq<PageNo>, p: PageNo)
    requires |s.l| == 4096 && Scanned(s, ps, p.i, p.j)
    ensures p !in ps && Scanned(s, ps + [p], p.i, p.j + 1)
  {
    forall i, j |
      0 <= i < USER_ENTRIES && 0 <= j < 256 && Before(i, j, p.i, p.j + 1) && LeafAt(s.l, s.m.t, i, j) != Fault
      ensures PageNo(i, j) in ps + [p]
    {
      assert !Before(i, j, p.i, p.j) ==> PageNo(i, j) == p;
    }
  }

  lemma ScannedNone(s: Start, ps: seq<PageNo>, p: PageNo)
    requires |s.l| == 4096 && Scanned(s, ps, p.i, p.j) && p.InUser() && LeafAt(s.l, s.m.t, p.i, p.j) == Fault
    ensures Scanned(s, ps, p.i, p.j + 1)
  {
  }

  lemma ScannedRow(s: Start, ps: seq<PageNo>, i: nat)
    requires |s.l| == 4096 && Scanned(s, ps, i, 256)
    ensures Scanned(s, ps, i + 1, 0)
  {
  }

  lemma ScannedEmptyRow(s: Start, ps: seq<PageNo>, i: nat)
    requires |s.l| == 4096 && Scanned(s, ps, i, 0) && i < USER_ENTRIES
    requires forall j :: 0 <= j < 256 ==> LeafAt(s.l, s.m.t, i, j) == Fault
    ensures Scanned(s, ps, i + 1, 0)
  {
  }

  /** An empty table attached to an empty entry of the child changes no walk. */
  lemma AttachedTable(l: seq<Word>, c: seq<Word>, t: Tables, c': seq<Word>, t': Tables, i: nat)
    requires Wf(l, t) && Wf(c, t) && Wf(c', t') && Apart(l, c)
    requires i < USER_ENTRIES && c[i] == 0 && TableReady(c, t, c', t', i)
    ensures Wf(l, t') && Apart(l, c')
    ensures forall k, m :: 0 <= k < 4096 && 0 <= m < 256 ==> LeafAt(l, t', k, m) == LeafAt(l, t, k, m)
    ensures forall k, m :: 0 <= k < 4096 && 0 <= m < 256 ==> LeafAt(c', t', k, m) == LeafAt(c, t, k, m)
  {
    var a := TableAddr(c'[i]);
    forall k | 0 <= k < 4096 && IsTable(l[k])
      ensures TableAddr(l[k]) != a
    {
      assert WfEntry(l[k], t);
    }
    UnreachedWrite(l, t, t', a);
    OtherEntriesKeepTheirLeaves(c, t, c', t', i);
    forall m | 0 <= m < 256
      ensures LeafAt(c', t', i, m) == Fault
    {
      assert t'[a][m] == 0;
    }
  }

  lemma CopiedSameLeaves(s: Start, c: seq<Word>, t: Tables, c': seq<Word>, t': Tables, ram: map<nat, seq<Byte>>,
                         ps: seq<PageNo>, fs: seq<nat>)
    requires |s.l| == |c| == |c'| == 4096 && Copied(s, c, t, ram, ps, fs)
    requires forall i, j :: 0 <= i < USER_ENTRIES && 0 <= j < 256 ==> LeafAt(c', t', i, j) == LeafAt(c, t, i, j)
    ensures Copied(s, c', t', ram, ps, fs)
  {
  }

  /** It is a new table behind a user entry of the child. */
  lemma AttachedPair(s: Start, l: seq<Word>, c: seq<Word>, t: Tables, c': seq<Word>, t': Tables, i: nat, ti: nat)
    requires PairWf(s, l, c, t, ti) && Wf(c', t')
    requires i < USER_ENTRIES && c[i] == 0 && TableReady(c, t, c', t', i)
    ensures PairWf(s, l, c', t', ti)
  {
    AttachedTable(l, c, t, c', t', i);
    forall a | a in t' && a !in s.m.t
      ensures UserReaches(c', a) || LeadsTo(l[ti], a)
    {
      if a in t && UserReaches(c, a) {
        var k :| 0 <= k < USER_ENTRIES && IsTable(c[k]) && TableAddr(c[k]) == a;
        assert c'[k] == c[k];
      } else if a !in t {
        assert LeadsTo(c'[i], a);
      }
    }
  }

  /** Give the child a second-level table for entry i. */
  method AttachTable(x: Copying, i: nat, ghost s: Start, ghost d: Done) returns (ok: bool)
    requires Progress(x, s, d) && i < USER_ENTRIES && x.to[i] == 0
    modifies x.heap, x.to
    ensures !ok ==> x.heap.pool == {}
    ensures ok ==> Progress(x, s, d) && IsTable(x.to[i])
    ensures ok ==> forall k :: 0 <= k < 4096 && k != i ==> x.to[k] == old(x.to[k])
  {
    ghost var c, t := x.to[..], x.heap.tables;
    ok := EnsureTable(x.heap, x.to, i);
    if ok {
      AttachedPair(s, x.from[..], c, t, x.to[..], x.heap.tables, i, x.ti);
      AttachedTable(x.from[..], c, t, x.to[..], x.heap.tables, i);
      CopiedSameLeaves(s, c, t, x.to[..], x.heap.tables, x.frames.ram, d.ps, d.fs);
    }
  }

  /** The child has copies, in frames of its own, of exactly the parent's user pages. */
  ghost predicate Forked(s: Start, c: seq<Word>, m: Memory, ps: seq<PageNo>, fs: seq<nat>)
    requires |s.l| == |c| == 4096
  {
    && m.pages == s.m.pages + fs && Took(s.m.free, s.m.ref, m.free, m.ref, fs)
    && Copied(s, c, m.t, m.ram, ps, fs)
    && forall i, j | 0 <= i < USER_ENTRIES && 0 <= j < 256 ::
         PageNo(i, j) in ps <==> LeafAt(s.l, s.m.t, i, j) != Fault
  }

  /** Up to entry n the child has a table where the parent has one; its other entries are as they were in c0. */
  ghost predicate Attached(l: seq<Word>, c0: seq<Word>, c: seq<Word>, n: nat)
    requires |l| == |c0| == |c| == 4096
  {
    forall k :: 0 <= k < 4096 ==> if k < n && l[k] != 0 then IsTable(c[k]) else c[k] == c0[k]
  }

  /** The first i entries are done. */
  ghost predicate EntriesDone(x: Copying, c0: seq<Word>, s: Start, d: Done, i: nat)
    reads x.heap, x.frames, x.from, x.to, x.child`pages
  {
    Progress(x, s, d) && Scanned(s, d.ps, i, 0) && |c0| == 4096 && Attached(s.l, c0, x.to[..], i)
  }

  /** One round of duplicate_user_space's outer loop. */
  method CopyEntry(x: Copying, i: nat, ghost c0: seq<Word>, ghost s: Start, ghost d: Done)
    returns (ok: bool, ghost d': Done)
    requires EntriesDone(x, c0, s, d, i) && i < USER_ENTRIES && c0[i] == 0
    modifies x.heap, x.frames, x.from, x.to, x.child`pages
    ensures !ok ==> x.heap.pool == {} || x.frames.free == {} || !NoUserSections(s.l)
    ensures ok ==> EntriesDone(x, c0, s, d', i + 1)
  {
    d' := d;
    UserEntryKept(s, x.from[..], x.heap.tables, x.ti, x.tj, d.ps != [], i);
    if x.from[i] == 0 {
      assert forall j :: 0 <= j < 256 ==> LeafAt(s.l, s.m.t, i, j) == Fault;
      ScannedEmptyRow(s, d.ps, i);
      return true, d;
    }
    if IsSect(x.from[i]) {
      return false, d;
    }
    assert WfEntry(x.from[i], x.heap.tables);
    ok := AttachTable(x, i, s, d);
    if ok {
      ok, d' := CopyTable(x, i, s, d);
    }
  }

  /** The parent's user entries are those it had at the start. */
  lemma UserEntryKept(s: Start, l: seq<Word>, t: Tables, ti: nat, tj: nat, any: bool, i: nat)
    requires |s.l| == |l| == 4096 && USER_ENTRIES <= ti < 4096 && ParentKept(s, l, t, ti, tj, any) && i < USER_ENTRIES
    ensures l[i] == s.l[i]
  {
  }

  /** The double loop of duplicate_user_space. */
  method CopyAllTables(x: Copying, ghost c0: seq<Word>, ghost s: Start, ghost d: Done)
    returns (ok: bool, ghost d': Done)
    requires EntriesDone(x, c0, s, d, 0) && forall k :: 0 <= k < USER_ENTRIES ==> c0[k] == 0
    modifies x.heap, x.frames, x.from, x.to, x.child`pages
    ensures !ok ==> x.heap.pool == {} || x.frames.free == {} || !NoUserSections(s.l)
    ensures ok ==> EntriesDone(x, c0, s, d', USER_ENTRIES)
  {
    ok, d' := true, d;
    var i := 0;
    while i < USER_ENTRIES
      invariant 0 <= i <= USER_ENTRIES && ok
      invariant EntriesDone(x, c0, s, d', i)
    {
      ok, d' := CopyEntry(x, i, c0, s, d');
      if !ok {
        return;
      }
      i := i + 1;
    }
  }

  lemma AllScanned(s: Start, c: seq<Word>, m: Memory, ps: seq<PageNo>, fs: seq<nat>)
    requires |s.l| == |c| == 4096 && Copied(s, c, m.t, m.ram, ps, fs) && Scanned(s, ps, USER_ENTRIES, 0)
    ensures forall i, j :: 0 <= i < USER_ENTRIES && 0 <= j < 256 ==>
              (PageNo(i, j) in ps <==> LeafAt(s.l, s.m.t, i, j) != Fault)
  {
  }

  // ---------------------------------------------------------------- taking the transitional mapping down

  lemma ParentRestored(l0: seq<Word>, t0: Tables, l: seq<Word>, t: Tables, l': seq<Word>, t': Tables, ti: nat, tj: nat)
    requires |l0| == |l| == |l'| == 4096 && ti < 4096 && tj < 256
    requires OnlyLeaf(l0, t0, l, t, ti, tj) && ReleasedLeaves(l, t, l', t', 256 * ti + tj, 256 * ti + tj + 1)
    ensures OnlyLeaf(l0, t0, l', t', ti, tj) && LeafAt(l', t', ti, tj) == Fault
  {
  }

  /** Only the table behind entry ti is written or freed. */
  lemma ReleasedTableOnly(l: seq<Word>, t: Tables, l': seq<Word>, t': Tables, ti: nat, tj: nat, a: Word)
    requires Wf(l, t) && Wf(l', t') && ti < 4096 && tj < 256 && a in t && !LeadsTo(l[ti], a)
    requires var v := 256 * ti + tj; Released(l, t, l', t', v, v + 1, v + 1)
    ensures a in t' && t'[a] == t[a]
  {
    var v := 256 * ti + tj;
    assert !PartlyReaches(l, a, v, v + 1, v + 1);
  }

  /** Unmapping the transitional page leaves the child's user pages alone. */
  lemma ReleaseKeepsChild(l: seq<Word>, t: Tables, l': seq<Word>, t': Tables, c: seq<Word>, ti: nat, tj: nat)
    requires Wf(l, t) && Wf(l', t') && Wf(c, t) && ti < 4096 && tj < 256 && Apart(l, c)
    requires var v := 256 * ti + tj; Released(l, t, l', t', v, v + 1, v + 1)
    ensures SameUserLeaves(c, t, t')
    ensures forall i :: 0 <= i < USER_ENTRIES ==> WfEntry(c[i], t')
  {
    forall i | 0 <= i < USER_ENTRIES
      ensures WfEntry(c[i], t') && (IsTable(c[i]) ==> t'[TableAddr(c[i])] == t[TableAddr(c[i])])
    {
      assert WfEntry(c[i], t);
      if IsTable(c[i]) {
        assert !Reached(l, TableAddr(c[i]));
        ReleasedTableOnly(l, t, l', t', ti, tj, TableAddr(c[i]));
      }
    }
  }

  /** The transitional table goes exactly when no other page of it is mapped. */
  lemma ReleasedTransitional(l: seq<Word>, t: Tables, l': seq<Word>, t': Tables, ti: nat, tj: nat)
    requires Wf(l, t) && Wf(l', t') && ti < 4096 && tj < 256 && IsTable(l[ti])
    requires var v := 256 * ti + tj; Released(l, t, l', t', v, v + 1, v + 1)
    ensures TableAddr(l[ti]) in t' <==> exists j :: 0 <= j < 256 && j != tj && LeafAt(l, t, ti, j) != Fault
    ensures TableAddr(l[ti]) in t' ==> l'[ti] == l[ti]
  {
    var v := 256 * ti + tj;
    assert Touches(ti, v, v + 1) && !FullChunk(ti, v, v + 1);
    forall j | 0 <= j < 256
      ensures LeafAt(l', t', ti, j) == if j == tj then Fault else LeafAt(l, t, ti, j)
    {
      assert LeafAt(l', t', ti, j) == (if v <= 256 * ti + j < v + 1 then Fault else LeafAt(l, t, ti, j));
    }
    if l'[ti] != 0 {
      var k :| 0 <= k < 256 && t'[TableAddr(l'[ti])][k] != 0;
      assert LeafAt(l', t', ti, k) != Fault;
    }
  }

  /** Take the transitional mapping down again. */
  method ReleaseTransitional(heap: Heap, from: array<Word>, ghost to: array<Word>, ti: nat, tj: nat, ghost s: Start)
    requires Pair(heap, from, to, ti, s) && tj < 256 && IsTable(from[ti])
    modifies heap, from
    ensures heap.Valid() && Wf(from[..], heap.tables)
    ensures var v := 256 * ti + tj;
            Released(old(from[..]), old(heap.tables), from[..], heap.tables, v, v + 1, v + 1)
    ensures Conserved(old(heap.tables), old(heap.pool), heap.tables, heap.pool)
  {
    var v := 256 * ti + tj;
    OnePageRequestAt(v);
    ReleaseMapping(heap, from, v * 4096, PAGE_SIZE);
  }

  /** The tables behind the user entries of l are those there were not in base. */
  ghost predicate OwnTables(base: Tables, l: seq<Word>, t: Tables)
    requires |l| == 4096
  {
    && (forall i :: 0 <= i < USER_ENTRIES && IsTable(l[i]) ==> TableAddr(l[i]) in t && TableAddr(l[i]) !in base)
    && (forall a :: a in t && a !in base ==> UserReaches(l, a))
  }

  /** A table taken for the transitional page alone is freed with it. */
  lemma FreshTransitionalGoes(s: Start, l: seq<Word>, t: Tables, l': seq<Word>, t': Tables, c: seq<Word>, ti: nat,
                              tj: nat)
    requires Wf(s.l, s.m.t) && PairWf(s, l, c, t, ti) && Wf(l', t') && tj < 256 && IsTable(l[ti]) && !IsSect(s.l[ti])
    requires OnlyLeaf(s.l, s.m.t, l, t, ti, tj) && TableAddr(l[ti]) !in s.m.t
    requires var v := 256 * ti + tj; Released(l, t, l', t', v, v + 1, v + 1)
    ensures TableAddr(l[ti]) !in t'
  {
    assert WfEntry(s.l[ti], s.m.t);
    ReleasedTransitional(l, t, l', t', ti, tj);
    forall j | 0 <= j < 256 && j != tj
      ensures LeafAt(l, t, ti, j) == Fault
    {
      assert LeafAt(s.l, s.m.t, ti, j) == LeafAt(l, t, ti, j);
    }
  }

  /** So all the new tables are the child's. */
  lemma NewTablesReached(s: Start, l: seq<Word>, t: Tables, l': seq<Word>, t': Tables, c: seq<Word>, ti: nat, tj: nat)
    requires Wf(s.l, s.m.t) && PairWf(s, l, c, t, ti) && Wf(l', t') && tj < 256 && IsTable(l[ti]) && !IsSect(s.l[ti])
    requires OnlyLeaf(s.l, s.m.t, l, t, ti, tj)
    requires var v := 256 * ti + tj; Released(l, t, l', t', v, v + 1, v + 1)
    ensures forall a :: a in t' && a !in s.m.t ==> UserReaches(c, a)
  {
    if TableAddr(l[ti]) !in s.m.t {
      FreshTransitionalGoes(s, l, t, l', t', c, ti, tj);
    }
    forall a | a in t' && a !in s.m.t
      ensures UserReaches(c, a)
    {
      assert a in t;
    }
  }

  lemma ChildsAreNew(s: Start, e: Word, c: seq<Word>, t: Tables, t': Tables, ti: nat)
    requires |s.l| == |c| == 4096 && ti < 4096 && Secluded(s, e, c, t, ti)
    requires forall i :: 0 <= i < USER_ENTRIES ==> WfEntry(c[i], t')
    ensures forall i :: 0 <= i < USER_ENTRIES && IsTable(c[i]) ==> TableAddr(c[i]) in t' && TableAddr(c[i]) !in s.m.t
  {
    forall i | 0 <= i < USER_ENTRIES && IsTable(c[i])
      ensures TableAddr(c[i]) in t'
    {
      assert WfEntry(c[i], t');
    }
  }

  /** And the child's tables are new. */
  lemma OnlyChildsTables(s: Start, l: seq<Word>, t: Tables, l': seq<Word>, t': Tables, c: seq<Word>, ti: nat, tj: nat)
    requires Wf(s.l, s.m.t) && PairWf(s, l, c, t, ti) && Wf(l', t') && tj < 256 && IsTable(l[ti]) && !IsSect(s.l[ti])
    requires OnlyLeaf(s.l, s.m.t, l, t, ti, tj)
    requires var v := 256 * ti + tj; Released(l, t, l', t', v, v + 1, v + 1)
    ensures OwnTables(s.m.t, c, t')
  {
    ReleaseKeepsChild(l, t, l', t', c, ti, tj);
    NewTablesReached(s, l, t, l', t', c, ti, tj);
    ChildsAreNew(s, l[ti], c, t, t', ti);
  }

  // ---------------------------------------------------------------- what everybody else sees

  /** Some word but the one of page (ti, tj) is in use. */
  ghost predicate OtherWord(w: seq<Word>, tj: nat) {
    exists j :: 0 <= j < |w| && j != tj && w[j] != 0
  }

  /**
    The table at a is as before; the one that e leads to keeps every word but tj, and is freed if all of those are
    0.
  */
  ghost predicate KeptTable(e: Word, t: Tables, t': Tables, tj: nat, a: Word)
    requires a in t
  {
    if LeadsTo(e, a) then
      && (a in t' <==> OtherWord(t[a], tj))
      && (a in t' ==> |t'[a]| == |t[a]| && forall j :: 0 <= j < |t[a]| && j != tj ==> t'[a][j] == t[a][j])
    else a in t' && t'[a] == t[a]
  }

  /** Every table there was is kept, but for the transitional page in the one behind e. */
  ghost predicate TablesKept(e: Word, t: Tables, t': Tables, tj: nat) {
    forall a :: a in t ==> KeptTable(e, t, t', tj, a)
  }

  lemma LeafWord(d: Word, d': Word)
    requires PageWord(d) && PageWord(d')
    ensures PageLeaf(d) == PageLeaf(d') ==> d == d'
    ensures PageLeaf(d) == Fault <==> d == 0
  {
  }

  lemma TransitionalKept(s: Start, l: seq<Word>, t: Tables, l': seq<Word>, t': Tables, c: seq<Word>, ti: nat, tj: nat,
                         a: Word)
    requires Wf(s.l, s.m.t) && PairWf(s, l, c, t, ti) && Wf(l', t') && tj < 256 && IsTable(l[ti])
    requires OnlyLeaf(s.l, s.m.t, l, t, ti, tj)
    requires var v := 256 * ti + tj; Released(l, t, l', t', v, v + 1, v + 1)
    requires a in s.m.t && LeadsTo(s.l[ti], a)
    ensures KeptTable(s.l[ti], s.m.t, t', tj, a)
  {
    ReleasedTransitional(l, t, l', t', ti, tj);
    forall j | 0 <= j < 256 && j != tj
      ensures t[a][j] == s.m.t[a][j] && (s.m.t[a][j] == 0 <==> LeafAt(l, t, ti, j) == Fault)
    {
      assert LeafAt(l, t, ti, j) == LeafAt(s.l, s.m.t, ti, j);
      LeafWord(t[a][j], s.m.t[a][j]);
    }
    if a in t' {
      forall j | 0 <= j < 256 && j != tj
        ensures t'[a][j] == t[a][j]
      {
        var v := 256 * ti + tj;
        assert LeafAt(l', t', ti, j) == (if v <= 256 * ti + j < v + 1 then Fault else LeafAt(l, t, ti, j));
        LeafWord(t'[a][j], t[a][j]);
      }
    }
  }

  /** After fork all tables there were are kept, but for the transitional page. */
  lemma AllTablesKept(s: Start, l: seq<Word>, t: Tables, l': seq<Word>, t': Tables, c: seq<Word>, ti: nat, tj: nat)
    requires Wf(s.l, s.m.t) && PairWf(s, l, c, t, ti) && Wf(l', t') && tj < 256 && IsTable(l[ti])
    requires OnlyLeaf(s.l, s.m.t, l, t, ti, tj)
    requires var v := 256 * ti + tj; Released(l, t, l', t', v, v + 1, v + 1)
    ensures TablesKept(s.l[ti], s.m.t, t', tj)
  {
    forall a | a in s.m.t
      ensures KeptTable(s.l[ti], s.m.t, t', tj, a)
    {
      if LeadsTo(s.l[ti], a) {
        TransitionalKept(s, l, t, l', t', c, ti, tj, a);
      } else {
        ReleasedTableOnly(l, t, l', t', ti, tj, a);
      }
    }
  }

  /** A kernel entry of page table o leads to the transitional table, and no other page of that table is mapped. */
  ghost predicate Dangles(e: Word, t: Tables, o: seq<Word>, tj: nat) {
    exists k :: USER_ENTRIES <= k < |o| && LeadsTo(e, TableAddr(o[k])) && IsTable(o[k])
                && TableAddr(o[k]) in t && !OtherWord(t[TableAddr(o[k])], tj)
  }

  /** A page table with kernel entries from before fork stays well formed exactly when none of them is left dangling. */
  lemma KernelPart(e: Word, t: Tables, t': Tables, tj: nat, o: seq<Word>, o': seq<Word>)
    requires TablesKept(e, t, t', tj) && WfTables(t') && |o| == |o'| == 4096 && Unshared(o')
    requires forall k :: 0 <= k < USER_ENTRIES ==> WfEntry(o'[k], t')
    requires forall k :: USER_ENTRIES <= k < 4096 ==> o'[k] == o[k] && WfEntry(o[k], t)
    ensures Wf(o', t') <==> !Dangles(e, t, o, tj)
  {
    forall k | USER_ENTRIES <= k < 4096
      ensures WfEntry(o'[k], t') <==>
              !(LeadsTo(e, TableAddr(o[k])) && IsTable(o[k]) && TableAddr(o[k]) in t
                && !OtherWord(t[TableAddr(o[k])], tj))
    {
      assert WfEntry(o[k], t);
      if IsTable(o[k]) {
        assert KeptTable(e, t, t', tj, TableAddr(o[k]));
      }
    }
    if Wf(o', t') {
      assert forall k :: 0 <= k < 4096 ==> WfEntry(o'[k], t');
    } else {
      var k :| 0 <= k < 4096 && !WfEntry(o'[k], t');
    }
  }

  /** Of the parent's entries only ti can have changed, and that only if its table was freed. */
  lemma ParentEntries(s: Start, l: seq<Word>, t: Tables, l': seq<Word>, t': Tables, c: seq<Word>, ti: nat, tj: nat)
    requires Wf(s.l, s.m.t) && PairWf(s, l, c, t, ti) && Wf(l', t') && tj < 256 && IsTable(l[ti]) && !IsSect(s.l[ti])
    requires OnlyLeaf(s.l, s.m.t, l, t, ti, tj) && l == s.l[ti := l[ti]]
    requires var v := 256 * ti + tj; Released(l, t, l', t', v, v + 1, v + 1)
    ensures l' == s.l || l' == s.l[ti := 0]
  {
    var v := 256 * ti + tj;
    assert Touches(ti, v, v + 1) && !FullChunk(ti, v, v + 1);
    assert forall i :: 0 <= i < 4096 && i != ti ==> l'[i] == l[i];
    if TableAddr(l[ti]) !in s.m.t {
      FreshTransitionalGoes(s, l, t, l', t', c, ti, tj);
    } else {
      assert l[ti] == s.l[ti];
    }
  }

  /**
    What fork does to page tables, through page (ti, tj) of the parent: l becomes l', and the child's c0 becomes c. The
    parent's other pages are as before, the child has tables of its own, and the tables there were are kept.
  */
  ghost predicate TablesForked(l: seq<Word>, c0: seq<Word>, t: Tables, l': seq<Word>, c: seq<Word>, t': Tables, ti: nat,
                               tj: nat)
  {
    && |l| == |c0| == |c| == 4096 && USER_ENTRIES <= ti < 4096 && tj < 256
    && Wf(l', t') && OnlyLeaf(l, t, l', t', ti, tj) && LeafAt(l', t', ti, tj) == Fault
    && (l' == l || l' == l[ti := 0]) && TablesKept(l[ti], t, t', tj)
    && OwnTables(t, c, t') && Attached(l, c0, c, USER_ENTRIES)
    && (Wf(c, t') <==> !Dangles(l[ti], t, c0, tj))
  }

  lemma TablesAreForked(s: Start, c0: seq<Word>, l: seq<Word>, t: Tables, l': seq<Word>, t': Tables, c: seq<Word>,
                        ti: nat, tj: nat)
    requires Wf(s.l, s.m.t) && PairWf(s, l, c, t, ti) && Wf(l', t') && tj < 256 && IsTable(l[ti]) && !IsSect(s.l[ti])
    requires OnlyLeaf(s.l, s.m.t, l, t, ti, tj) && l == s.l[ti := l[ti]]
    requires var v := 256 * ti + tj; Released(l, t, l', t', v, v + 1, v + 1)
    requires Wf(c0, s.m.t) && Attached(s.l, c0, c, USER_ENTRIES)
    ensures TablesForked(s.l, c0, s.m.t, l', c, t', ti, tj) && SameUserLeaves(c, t, t')
  {
    ReleaseKeepsChild(l, t, l', t', c, ti, tj);
    ParentRestored(s.l, s.m.t, l, t, l', t', ti, tj);
    AllTablesKept(s, l, t, l', t', c, ti, tj);
    OnlyChildsTables(s, l, t, l', t', c, ti, tj);
    ParentEntries(s, l, t, l', t', c, ti, tj);
    assert forall k :: 0 <= k < 4096 ==> WfEntry(c0[k], s.m.t);
    KernelPart(s.l[ti], s.m.t, t', tj, c0, c);
  }

  /**
    Copy the user space of the running parent into a child with an empty user space, through page (ti, tj) of the
    kernel part. The child's page table is well formed afterwards unless its copy of the kernel entries leads to a
    table that is freed with the transitional page.
  */
  method DuplicateUserSpace(heap: Heap, frames: FrameTable, from: array<Word>, to: array<Word>, child: Pcb, ti: nat,
                            tj: nat)
    returns (ok: bool, ghost ps: seq<PageNo>, ghost fs: seq<nat>)
    requires heap.Valid() && frames.Valid() && from != to && Wf(from[..], heap.tables) && Wf(to[..], heap.tables)
    requires USER_ENTRIES <= ti < 4096 && tj < 256 && !IsSect(from[ti])
    requires forall k :: 0 <= k < USER_ENTRIES ==> to[k] == 0
    requires Start(from[..], View(heap, frames, child)).Owned()
    requires IsTable(from[ti]) ||
             exists i, j :: 0 <= i < USER_ENTRIES && 0 <= j < 256 && ParentLeaf(heap, from, i, j) != Fault
    modifies heap, frames, from, to, child`pages
    ensures !ok ==> heap.pool == {} || frames.free == {} || !NoUserSections(old(from[..]))
    ensures ok ==> heap.Valid() && frames.Valid() && Wf(from[..], heap.tables)
    ensures ok ==> Forked(old(Start(from[..], View(heap, frames, child))), to[..], View(heap, frames, child), ps, fs)
    ensures ok ==> TablesForked(old(from[..]), old(to[..]), old(heap.tables), from[..], to[..], heap.tables, ti, tj)
    ensures ok ==> Conserved(old(heap.tables), old(heap.pool), heap.tables, heap.pool)
  {
    ghost var s := Start(from[..], View(heap, frames, child));
    ghost var c0 := to[..];
    TookNone(frames.free, frames.refcount);
    ghost var d;
    ok, d := CopyAllTables(Copying(heap, frames, from, to, child, ti, tj), c0, s, Done([], []));
    ps, fs := d.ps, d.fs;
    if ok {
      AllScanned(s, to[..], View(heap, frames, child), ps, fs);
      ghost var l, t := from[..], heap.tables;
      ReleaseTransitional(heap, from, to, ti, tj, s);
      TablesAreForked(s, c0, l, t, from[..], heap.tables, to[..], ti, tj);
      CopiedSameLeaves(s, to[..], t, to[..], heap.tables, frames.ram, ps, fs);
    }
  }
}
