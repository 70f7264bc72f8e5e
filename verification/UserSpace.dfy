/** One process's user memory: allocate_page, and what it does to the page table, the frames and the page list. */
module UserSpace {
  import opened Quotients
  import opened Word32
  import opened PageTable
  import opened MapPages
  import opened UnmapPages
  import opened Frames
  import opened Sequences

  const USER_PAGES := 0xC_0000

  /** The memory part of a process control block. */
  class Pcb {
    const pgtable: array<Word>
    var pages: seq<nat>        // page_list
    var pageCount: nat
    var stackTop: nat
    var entry: nat             // bin_image_entry
    var heapBase: nat
    var heapPointer: int

    constructor (pgtable: array<Word>)
      ensures this.pgtable == pgtable && pages == []
    {
      this.pgtable := pgtable;
      pages := [];
      pageCount, stackTop, entry, heapBase, heapPointer := 0, 0, 0, 0, 0;
    }
  }

  /** A user page that is mapped is a small page. */
  ghost predicate NoUserSections(l1: seq<Word>)
    requires |l1| == 4096
  {
    forall i :: 0 <= i < USER_ENTRIES ==> !IsSect(l1[i])
  }

  method AddPageToProc(frames: FrameTable, pcb: Pcb, f: nat)
    requires frames.Valid() && f in frames.refcount && f !in frames.free
    modifies frames`refcount, pcb`pages
    ensures frames.Valid()
    ensures frames.refcount == old(frames.refcount)[f := old(frames.refcount[f]) + 1]
    ensures pcb.pages == old(pcb.pages) + [f]
  {
    frames.Share(f);
    pcb.pages := pcb.pages + [f];
  }

  /** A one-page request covers one page exactly when its address is page aligned; otherwise it spills onto the next. */
  lemma OnePageRequest(virt: Word)
    requires virt < KERNEL_VIRT_ADDR
    ensures PastPage(virt, PAGE_SIZE) == FirstPage(virt) + (if virt % PAGE_SIZE == 0 then 1 else 2)
  {
  }

  /** Page v leads to frame f, and every other page is as it was. */
  ghost predicate OnePageMapped(l1: seq<Word>, t: Tables, l1': seq<Word>, t': Tables, v: nat, f: nat)
    requires |l1| == |l1'| == 4096
  {
    forall i, j :: 0 <= i < 4096 && 0 <= j < 256 ==>
      LeafAt(l1', t', i, j) ==
      (if 256 * i + j == v then SmallPage(f, L2_DCACHE_WRITEALLOC) else LeafAt(l1, t, i, j))
  }

  lemma CreatedOnePage(l1: seq<Word>, t: Tables, l1': seq<Word>, t': Tables, v: nat, f: nat)
    requires Wf(l1, t) && Wf(l1', t') && v < PAGE_COUNT && f < PAGE_COUNT
    requires Created(l1, t, l1', t', v, v + 1, v + 1, f * 4096, false)
    ensures OnePageMapped(l1, t, l1', t', v, f)
  {
    forall i, j | 0 <= i < 4096 && 0 <= j < 256
      ensures LeafAt(l1', t', i, j) ==
              (if 256 * i + j == v then SmallPage(f, L2_DCACHE_WRITEALLOC) else LeafAt(l1, t, i, j))
    {
      assert LeafAt(l1', t', i, j) ==
             (if v <= 256 * i + j < v + 1
              then NewLeaf(SectionChunk(i, v, v + 1, f * 4096), f * 4096 / 4096 + 256 * i + j - v, false)
              else LeafAt(l1, t, i, j));
    }
  }

  /** Pages v.. lead to the frames fs in order, and every other page is as it was. */
  ghost predicate PagesMapped(l1: seq<Word>, t: Tables, l1': seq<Word>, t': Tables, v: nat, fs: seq<nat>)
    requires |l1| == |l1'| == 4096
  {
    forall i, j :: 0 <= i < 4096 && 0 <= j < 256 ==>
      LeafAt(l1', t', i, j) ==
      (if v <= 256 * i + j < v + |fs| then SmallPage(fs[256 * i + j - v], L2_DCACHE_WRITEALLOC)
       else LeafAt(l1, t, i, j))
  }

  lemma PagesMappedStep(l1: seq<Word>, t: Tables, l1a: seq<Word>, ta: Tables, l1b: seq<Word>, tb: Tables,
                        v: nat, fs: seq<nat>, f: nat)
    requires |l1| == |l1a| == |l1b| == 4096
    requires PagesMapped(l1, t, l1a, ta, v, fs) && OnePageMapped(l1a, ta, l1b, tb, v + |fs|, f)
    ensures PagesMapped(l1, t, l1b, tb, v, fs + [f])
  {
  }

  /** Some page of entry i is mapped. */
  ghost predicate InUse(l: seq<Word>, t: Tables, i: nat)
    requires |l| == 4096 && i < 4096
  {
    exists j :: 0 <= j < 256 && LeafAt(l, t, i, j) != Fault
  }

  /** No second-level table of the user part is empty. */
  ghost predicate NoEmptyUserTable(l: seq<Word>, t: Tables)
    requires |l| == 4096
  {
    forall i :: 0 <= i < USER_ENTRIES && IsTable(l[i]) ==> InUse(l, t, i)
  }

  /**
    The tables of base are all there, word for word, and the user part of l leads to none of them; all other tables
    are behind the user part, and in use.
  */
  ghost predicate Beside(base: Tables, l: seq<Word>, t: Tables)
    requires |l| == 4096
  {
    && (forall a :: a in base ==> a in t && t[a] == base[a])
    && (forall i :: 0 <= i < USER_ENTRIES && IsTable(l[i]) ==> TableAddr(l[i]) !in base)
    && (forall a :: a in t && a !in base ==> UserReaches(l, a))
    && NoEmptyUserTable(l, t)
  }

  /** Mapping a user page writes no table but one of this user space. */
  lemma CreatedBeside(base: Tables, l1: seq<Word>, t: Tables, l1': seq<Word>, t': Tables, v: nat, f: nat)
    requires Wf(l1, t) && Wf(l1', t') && v < USER_PAGES && f < PAGE_COUNT && Beside(base, l1, t)
    requires Created(l1, t, l1', t', v, v + 1, v + 1, f * 4096, false)
    ensures Beside(base, l1', t')
  {
    forall a | a in base
      ensures a in t' && t'[a] == base[a]
    {
      assert a in t && t[a] == base[a];
    }
    forall i | 0 <= i < USER_ENTRIES && IsTable(l1'[i])
      ensures TableAddr(l1'[i]) !in base
    {
      assert IsTable(l1[i]) ==> TableAddr(l1[i]) !in base;
    }
    CreatedReached(base, l1, t, l1', t', v, f);
    CreatedInUse(l1, t, l1', t', v, f);
  }

  /** A table it takes from the heap is behind an entry of the user part, and none goes out of reach. */
  lemma CreatedReached(base: Tables, l1: seq<Word>, t: Tables, l1': seq<Word>, t': Tables, v: nat, f: nat)
    requires Wf(l1, t) && Wf(l1', t') && v < USER_PAGES && f < PAGE_COUNT
    requires Created(l1, t, l1', t', v, v + 1, v + 1, f * 4096, false)
    requires forall a :: a in t && a !in base ==> UserReaches(l1, a)
    ensures forall a :: a in t' && a !in base ==> UserReaches(l1', a)
  {
    forall a | a in t' && a !in base
      ensures UserReaches(l1', a)
    {
      if a in t {
        var i :| 0 <= i < USER_ENTRIES && IsTable(l1[i]) && TableAddr(l1[i]) == a;
        assert l1'[i] == l1[i];
      } else {
        var i :| 0 <= i < 4096 && IsTable(l1'[i]) && TableAddr(l1'[i]) == a;
        assert Touches(i, v, v + 1) by {
          assert WfEntry(l1[i], t);
        }
        assert i < USER_ENTRIES;
      }
    }
  }

  /** The entry of the mapped page is in use afterwards, and no entry loses a page. */
  lemma CreatedInUse(l1: seq<Word>, t: Tables, l1': seq<Word>, t': Tables, v: nat, f: nat)
    requires Wf(l1, t) && Wf(l1', t') && v < USER_PAGES && f < PAGE_COUNT && NoEmptyUserTable(l1, t)
    requires Created(l1, t, l1', t', v, v + 1, v + 1, f * 4096, false)
    ensures NoEmptyUserTable(l1', t')
  {
    CreatedOnePage(l1, t, l1', t', v, f);
    forall i | 0 <= i < USER_ENTRIES && IsTable(l1'[i])
      ensures InUse(l1', t', i)
    {
      if Touches(i, v, v + 1) {
        assert LeafAt(l1', t', i, v - 256 * i) != Fault;
      } else {
        assert InUse(l1, t, i);
        var j :| 0 <= j < 256 && LeafAt(l1, t, i, j) != Fault;
        assert LeafAt(l1', t', i, j) != Fault;
      }
    }
  }

  lemma CanMapUserPage(l1: seq<Word>, v: nat, phys: Word)
    requires |l1| == 4096 && NoUserSections(l1) && v < USER_PAGES
    ensures CanCreate(l1, v, v + 1, phys)
  {
  }

  lemma OneSmallPage(l1: seq<Word>, t: Tables, l1': seq<Word>, t': Tables, v: nat, f: nat)
    requires Wf(l1, t) && Wf(l1', t') && NoUserSections(l1) && v < USER_PAGES && f < PAGE_COUNT
    requires Created(l1, t, l1', t', v, v + 1, v + 1, f * 4096, false)
    ensures NoUserSections(l1') && forall i :: USER_ENTRIES <= i < 4096 ==> l1'[i] == l1[i]
  {
    assert forall i :: 0 <= i < 4096 && !Touches(i, v, v + 1) ==> l1'[i] == l1[i];
  }

  lemma OnePageRequestAt(v: nat)
    requires v < PAGE_COUNT
    ensures FirstPage(v * 4096) == v && PastPage(v * 4096, PAGE_SIZE) == v + 1
  {
    Over4096(v, 0);
    Over4096(v + 1, 4095);
  }

  /** create_mapping, for one aligned page. */
  method MapOnePage(heap: Heap, l1: array<Word>, v: nat, f: nat) returns (ok: bool)
    requires heap.Valid() && Wf(l1[..], heap.tables) && v < PAGE_COUNT && f < PAGE_COUNT
    requires CanCreate(l1[..], v, v + 1, f * 4096)
    modifies heap, l1
    ensures !ok ==> heap.pool == {}
    ensures ok ==> heap.Valid() && Wf(l1[..], heap.tables)
    ensures ok ==> Created(old(l1[..]), old(heap.tables), l1[..], heap.tables, v, v + 1, v + 1, f * 4096, false)
    ensures ok ==> Conserved(old(heap.tables), old(heap.pool), heap.tables, heap.pool)
  {
    OnePageRequestAt(v);
    ok := CreateMapping(heap, l1, v * 4096, f * 4096, PAGE_SIZE, false);
  }

  /** Map one free frame at a user page. */
  method MapFrame(heap: Heap, l1: array<Word>, v: nat, f: nat, ghost base: Tables) returns (ok: bool)
    requires heap.Valid() && Wf(l1[..], heap.tables) && NoUserSections(l1[..]) && Beside(base, l1[..], heap.tables)
    requires v < USER_PAGES && 0 < f < FRAME_COUNT
    modifies heap, l1
    ensures !ok ==> heap.pool == {}
    ensures ok ==> heap.Valid() && Wf(l1[..], heap.tables)
    ensures ok ==> NoUserSections(l1[..]) && Beside(base, l1[..], heap.tables)
    ensures ok ==> OnePageMapped(old(l1[..]), old(heap.tables), l1[..], heap.tables, v, f)
    ensures ok ==> forall i :: USER_ENTRIES <= i < 4096 ==> l1[i] == old(l1[i])
    ensures ok ==> Conserved(old(heap.tables), old(heap.pool), heap.tables, heap.pool)
  {
    ghost var l0, t0 := l1[..], heap.tables;
    CanMapUserPage(l0, v, f * 4096);
    ok := MapOnePage(heap, l1, v, f);
    if ok {
      CreatedOnePage(l0, t0, l1[..], heap.tables, v, f);
      CreatedBeside(base, l0, t0, l1[..], heap.tables, v, f);
      OneSmallPage(l0, t0, l1[..], heap.tables, v, f);
    }
  }

  /** One round of allocate_page: a free frame for user page v. */
  method AllocateOne(heap: Heap, frames: FrameTable, pcb: Pcb, v: nat, ghost base: Tables) returns (ok: bool, page: nat)
    requires heap.Valid() && frames.Valid() && v < USER_PAGES
    requires Wf(pcb.pgtable[..], heap.tables) && NoUserSections(pcb.pgtable[..])
    requires Beside(base, pcb.pgtable[..], heap.tables)
    modifies heap, frames`free, frames`refcount, pcb`pages, pcb.pgtable
    ensures !ok ==> heap.pool == {} || frames.free == {}
    ensures ok ==> heap.Valid() && frames.Valid()
    ensures ok ==> Wf(pcb.pgtable[..], heap.tables) && NoUserSections(pcb.pgtable[..])
    ensures ok ==> Beside(base, pcb.pgtable[..], heap.tables)
    ensures ok ==> pcb.pages == old(pcb.pages) + [page]
    ensures ok ==> page in old(frames.free) && page in old(frames.refcount) && frames.free == old(frames.free) - {page}
    ensures ok ==> frames.refcount == old(frames.refcount)[page := old(frames.refcount[page]) + 1]
    ensures ok ==> OnePageMapped(old(pcb.pgtable[..]), old(heap.tables), pcb.pgtable[..], heap.tables, v, page)
    ensures ok ==> forall k :: USER_ENTRIES <= k < 4096 ==> pcb.pgtable[k] == old(pcb.pgtable[k])
    ensures ok ==> Conserved(old(heap.tables), old(heap.pool), heap.tables, heap.pool)
  {
    page := frames.GetFreePage();
    if page == 0 {
      return false, page;
    }
    ok := MapFrame(heap, pcb.pgtable, v, page, base);
    if ok {
      AddPageToProc(frames, pcb, page);
    }
  }

  /** Take a free frame for each of nr pages from virt_addr on; false where the code stops for want of memory. */
  method AllocatePage(heap: Heap, frames: FrameTable, pcb: Pcb, virt_addr: Word, nr_pages: nat, ghost base: Tables)
    returns (ok: bool)
    requires heap.Valid() && frames.Valid()
    requires Wf(pcb.pgtable[..], heap.tables) && NoUserSections(pcb.pgtable[..])
    requires virt_addr % PAGE_SIZE == 0 && virt_addr / PAGE_SIZE + nr_pages <= USER_PAGES
    requires Beside(base, pcb.pgtable[..], heap.tables)
    modifies heap, frames`free, frames`refcount, pcb`pages, pcb.pgtable
    ensures !ok ==> heap.pool == {} || frames.free == {}
    ensures ok ==> heap.Valid() && frames.Valid()
    ensures ok ==> Wf(pcb.pgtable[..], heap.tables) && NoUserSections(pcb.pgtable[..])
    ensures ok ==> Beside(base, pcb.pgtable[..], heap.tables)
    ensures ok ==> |pcb.pages| == |old(pcb.pages)| + nr_pages && old(pcb.pages) <= pcb.pages
    ensures ok ==>
              Took(old(frames.free), old(frames.refcount), frames.free, frames.refcount, pcb.pages[|old(pcb.pages)|..])
    ensures ok ==> PagesMapped(old(pcb.pgtable[..]), old(heap.tables), pcb.pgtable[..], heap.tables,
                               virt_addr / PAGE_SIZE, pcb.pages[|old(pcb.pages)|..])
    ensures ok ==> forall i :: USER_ENTRIES <= i < 4096 ==> pcb.pgtable[i] == old(pcb.pgtable[i])
    ensures ok ==> Conserved(old(heap.tables), old(heap.pool), heap.tables, heap.pool)
  {
    var i := 0;
    ghost var fs: seq<nat> := [];
    TookNone(frames.free, frames.refcount);
    ghost var v := virt_addr / PAGE_SIZE;
    while i < nr_pages
      invariant 0 <= i <= nr_pages && |fs| == i && pcb.pages == old(pcb.pages) + fs
      invariant heap.Valid() && frames.Valid()
      invariant Wf(pcb.pgtable[..], heap.tables) && NoUserSections(pcb.pgtable[..])
      invariant Beside(base, pcb.pgtable[..], heap.tables)
      invariant Took(old(frames.free), old(frames.refcount), frames.free, frames.refcount, fs)
      invariant PagesMapped(old(pcb.pgtable[..]), old(heap.tables), pcb.pgtable[..], heap.tables, v, fs)
      invariant forall k :: USER_ENTRIES <= k < 4096 ==> pcb.pgtable[k] == old(pcb.pgtable[k])
      invariant Conserved(old(heap.tables), old(heap.pool), heap.tables, heap.pool)
    {
      ghost var la, ta, free1, ref1 := pcb.pgtable[..], heap.tables, frames.free, frames.refcount;
      var page;
      ok, page := AllocateOne(heap, frames, pcb, virt_addr / PAGE_SIZE + i, base);
      if !ok {
        return;
      }
      TookMore(old(frames.free), old(frames.refcount), free1, ref1, fs, page);
      PagesMappedStep(old(pcb.pgtable[..]), old(heap.tables), la, ta, pcb.pgtable[..], heap.tables, v, fs, page);
      fs := fs + [page];
      i := i + 1;
    }
    return true;
  }

  // ---------------------------------------------------------------- exec

  /** Release every page of a process: each loses one reference, and is freed if that was the last. */
  method ReleaseProcPages(frames: FrameTable, pcb: Pcb)
    requires frames.Valid() && NoDup(pcb.pages)
    requires forall f :: f in pcb.pages ==> f in frames.refcount && frames.refcount[f] > 0
    modifies frames`free, frames`refcount, pcb`pages
    ensures frames.Valid() && pcb.pages == []
    ensures frames.refcount.Keys == old(frames.refcount.Keys)
    ensures forall f :: f in frames.refcount ==>
              frames.refcount[f] == old(frames.refcount[f]) - (if f in old(pcb.pages) then 1 else 0)
    ensures forall f :: f in frames.free <==>
              f in old(frames.free) || (f in old(pcb.pages) && frames.refcount[f] == 0)
  {
    frames.DropAll(pcb.pages);
    pcb.pages := [];
  }

  /** The user pages of an image: where each region starts, in pages, and how many pages it has. */
  datatype Layout = Layout(stackPages: nat, entryPage: nat, imagePages: nat, heapPages: nat) {
    function ArgsPage(): nat { USER_PAGES - 1 }

    function HeapStart(): nat { stackPages + imagePages + 1 }

    predicate InImage(p: nat) { entryPage <= p < entryPage + imagePages }

    predicate InHeap(p: nat) { HeapStart() <= p < HeapStart() + heapPages }

    /** No region reaches into the next, for an image whose entry point is the start of its pages. */
    predicate Fits() {
      && entryPage <= stackPages + 1
      && HeapStart() + heapPages + stackPages <= ArgsPage()
    }

    function PageCount(): nat { stackPages + imagePages + heapPages + 1 }

    /** The place in the page list of the frame behind user page p, or -1 if p belongs to no region. */
    function Slot(p: nat): int {
      if ArgsPage() - stackPages <= p < ArgsPage() then p - (ArgsPage() - stackPages)
      else if entryPage <= p < entryPage + imagePages then stackPages + p - entryPage
      else if HeapStart() <= p < HeapStart() + heapPages then stackPages + imagePages + p - HeapStart()
      else if p == ArgsPage() then stackPages + imagePages + heapPages
      else -1
    }
  }

  /**
    The regions of an image are disjoint: no two pages share a slot, and every slot of the page list is some page's.
  */
  lemma SlotsAreDistinct(lay: Layout, p: nat, q: nat)
    requires lay.Fits() && lay.Slot(p) != -1 && p != q
    ensures 0 <= lay.Slot(p) < lay.PageCount() && lay.Slot(p) != lay.Slot(q)
  {
  }

  /** The image and a non-empty heap stay apart exactly when the image starts low enough, or above the heap. */
  lemma ImageMissesHeap(lay: Layout)
    requires lay.imagePages > 0 && lay.heapPages > 0
    ensures (forall p: nat :: !(lay.InImage(p) && lay.InHeap(p))) <==>
            lay.entryPage <= lay.stackPages + 1 || lay.HeapStart() + lay.heapPages <= lay.entryPage
  {
    var p := if lay.entryPage <= lay.HeapStart() then lay.HeapStart() else lay.entryPage;
    if !(lay.entryPage <= lay.stackPages + 1 || lay.HeapStart() + lay.heapPages <= lay.entryPage) {
      assert lay.InImage(p) && lay.InHeap(p);
    }
  }

  /** A user page leads to the frame in its slot of the page list; no user page without such a slot is mapped. */
  ghost predicate Laid(l1: seq<Word>, t: Tables, lay: Layout, pages: seq<nat>)
    requires |l1| == 4096
  {
    forall i, j :: 0 <= i < USER_ENTRIES && 0 <= j < 256 ==> LeafAt(l1, t, i, j) == SlotLeaf(lay, pages, 256 * i + j)
  }

  /** The mapped user pages are those of the layout. */
  ghost predicate MapsLayout(l1: seq<Word>, t: Tables, lay: Layout)
    requires |l1| == 4096
  {
    forall i, j | 0 <= i < USER_ENTRIES && 0 <= j < 256 ::
      LeafAt(l1, t, i, j) != Fault <==> lay.Slot(256 * i + j) != -1
  }

  /** So they are after exec. */
  lemma LaidMapsLayout(l1: seq<Word>, t: Tables, lay: Layout, pages: seq<nat>)
    requires |l1| == 4096 && lay.Fits() && Laid(l1, t, lay, pages) && |pages| == lay.PageCount()
    ensures MapsLayout(l1, t, lay)
  {
    forall i, j | 0 <= i < USER_ENTRIES && 0 <= j < 256
      ensures LeafAt(l1, t, i, j) != Fault <==> lay.Slot(256 * i + j) != -1
    {
      assert LeafAt(l1, t, i, j) == SlotLeaf(lay, pages, 256 * i + j);
    }
  }

  /**
    Where the pages of the page list are: the stack below the page of arguments, which is the last user page and the
    last of the list; the program at its entry; the heap one page above as many pages as stack and program have. In
    all there are as many as those four have.
  */
  lemma LaidAt(l1: seq<Word>, t: Tables, lay: Layout, pages: seq<nat>, i: nat, j: nat)
    requires |l1| == 4096 && lay.Fits() && Laid(l1, t, lay, pages) && |pages| == lay.PageCount()
    requires i < USER_ENTRIES && j < 256
    ensures |pages| == lay.stackPages + lay.imagePages + lay.heapPages + 1
    ensures var p, leaf, n := 256 * i + j, LeafAt(l1, t, i, j), lay.stackPages + lay.imagePages;
            if 0xBFFFF - lay.stackPages <= p < 0xBFFFF
            then leaf == SmallPage(pages[p - (0xBFFFF - lay.stackPages)], 0x07E)
            else if lay.entryPage <= p < lay.entryPage + lay.imagePages
            then leaf == SmallPage(pages[lay.stackPages + (p - lay.entryPage)], 0x07E)
            else if n + 1 <= p < n + 1 + lay.heapPages then leaf == SmallPage(pages[p - 1], 0x07E)
            else if p == 0xBFFFF then leaf == SmallPage(pages[|pages| - 1], 0x07E)
            else leaf == Fault
  {
    assert LeafAt(l1, t, i, j) == SlotLeaf(lay, pages, 256 * i + j);
  }

  /** Regions fit if the program starts at most one page above the stack's size, and heap and stack do not meet. */
  lemma FitsIs(lay: Layout)
    ensures lay.Fits() <==>
              lay.entryPage <= lay.stackPages + 1 && 2 * lay.stackPages + lay.imagePages + 1 + lay.heapPages <= 0xBFFFF
  {
  }

  function SlotLeaf(lay: Layout, pages: seq<nat>, p: nat): Leaf {
    var s := lay.Slot(p);
    if 0 <= s < |pages| then SmallPage(pages[s], L2_DCACHE_WRITEALLOC) else Fault
  }

  /** The n pages from v are those of the n slots from first. */
  ghost predicate RegionAt(lay: Layout, v: nat, first: nat, n: nat) {
    forall p: nat :: p < USER_PAGES ==> SlotIn(lay, v, first, n, p)
  }

  predicate SlotIn(lay: Layout, v: nat, first: nat, n: nat, p: nat) {
    if v <= p < v + n then lay.Slot(p) == first + p - v else !(first <= lay.Slot(p) < first + n)
  }

  lemma LaidStep(l1: seq<Word>, t: Tables, l1': seq<Word>, t': Tables, lay: Layout, pages: seq<nat>, v: nat,
                 fs: seq<nat>)
    requires |l1| == |l1'| == 4096 && Laid(l1, t, lay, pages)
    requires PagesMapped(l1, t, l1', t', v, fs) && RegionAt(lay, v, |pages|, |fs|)
    ensures Laid(l1', t', lay, pages + fs)
  {
    forall i, j | 0 <= i < USER_ENTRIES && 0 <= j < 256
      ensures LeafAt(l1', t', i, j) == SlotLeaf(lay, pages + fs, 256 * i + j)
    {
      assert SlotIn(lay, v, |pages|, |fs|, 256 * i + j);
      assert LeafAt(l1, t, i, j) == SlotLeaf(lay, pages, 256 * i + j);
    }
  }

  lemma Regions(lay: Layout)
    requires lay.Fits()
    ensures RegionAt(lay, lay.ArgsPage() - lay.stackPages, 0, lay.stackPages)
    ensures RegionAt(lay, lay.entryPage, lay.stackPages, lay.imagePages)
    ensures RegionAt(lay, lay.HeapStart(), lay.stackPages + lay.imagePages, lay.heapPages)
    ensures RegionAt(lay, lay.ArgsPage(), lay.stackPages + lay.imagePages + lay.heapPages, 1)
  {
  }

  /** The second-level tables, free frames and references an image is built on. */
  datatype Base = Base(t: Tables, free: set<nat>, ref: map<nat, nat>)

  /**
    An image under construction: the pages allocated so far are laid out, were taken from the frames free at the
    start, and are behind second-level tables of their own.
  */
  ghost predicate Building(heap: Heap, frames: FrameTable, pcb: Pcb, lay: Layout, base: Base)
    reads heap, frames, pcb`pages, pcb.pgtable
  {
    && heap.Valid() && frames.Valid()
    && Wf(pcb.pgtable[..], heap.tables) && NoUserSections(pcb.pgtable[..])
    && Laid(pcb.pgtable[..], heap.tables, lay, pcb.pages) && Beside(base.t, pcb.pgtable[..], heap.tables)
    && Took(base.free, base.ref, frames.free, frames.refcount, pcb.pages)
  }

  /** One of the four calls of allocate_page in setup_proc_image_replace. */
  method AllocateRegion(heap: Heap, frames: FrameTable, pcb: Pcb, lay: Layout, virt_addr: Word, nr_pages: nat,
                        ghost v: nat, ghost base: Base)
    returns (ok: bool)
    requires Building(heap, frames, pcb, lay, base)
    requires virt_addr == v * PAGE_SIZE && v + nr_pages <= USER_PAGES
    requires RegionAt(lay, v, |pcb.pages|, nr_pages)
    modifies heap, frames`free, frames`refcount, pcb`pages, pcb.pgtable
    ensures !ok ==> heap.pool == {} || frames.free == {}
    ensures ok ==> Building(heap, frames, pcb, lay, base) && |pcb.pages| == |old(pcb.pages)| + nr_pages
    ensures ok ==> forall i :: USER_ENTRIES <= i < 4096 ==> pcb.pgtable[i] == old(pcb.pgtable[i])
    ensures ok ==> Conserved(old(heap.tables), old(heap.pool), heap.tables, heap.pool)
  {
    ghost var l1, t, free1, ref1, pages1 := pcb.pgtable[..], heap.tables, frames.free, frames.refcount, pcb.pages;
    Over4096(v, 0);
    assert virt_addr / PAGE_SIZE == v;
    ok := AllocatePage(heap, frames, pcb, virt_addr, nr_pages, base.t);
    if ok {
      ghost var fs := pcb.pages[|pages1|..];
      assert pcb.pages == pages1 + fs;
      TookBoth(base.free, base.ref, free1, ref1, pages1, frames.free, frames.refcount, fs);
      LaidStep(l1, t, pcb.pgtable[..], heap.tables, lay, pages1, v, fs);
    }
  }

  /** Stack and program: the first two allocations of setup_proc_image_replace. */
  method AllocateProgram(heap: Heap, frames: FrameTable, pcb: Pcb, lay: Layout, ghost base: Base)
    returns (ok: bool)
    requires lay.Fits() && Building(heap, frames, pcb, lay, base)
    requires pcb.pages == [] && pcb.pageCount == lay.stackPages && pcb.stackTop == KERNEL_VIRT_ADDR - PAGE_SIZE
    modifies heap, frames`free, frames`refcount, pcb`pages, pcb`pageCount, pcb`entry, pcb.pgtable
    ensures !ok ==> heap.pool == {} || frames.free == {}
    ensures ok ==> Building(heap, frames, pcb, lay, base)
    ensures ok ==> |pcb.pages| == pcb.pageCount == lay.stackPages + lay.imagePages
    ensures ok ==> pcb.entry == lay.entryPage * PAGE_SIZE
    ensures ok ==> forall i :: USER_ENTRIES <= i < 4096 ==> pcb.pgtable[i] == old(pcb.pgtable[i])
    ensures ok ==> Conserved(old(heap.tables), old(heap.pool), heap.tables, heap.pool)
  {
    Regions(lay);
    ok := AllocateRegion(heap, frames, pcb, lay, pcb.stackTop - pcb.pageCount * PAGE_SIZE, pcb.pageCount,
                         lay.ArgsPage() - lay.stackPages, base);
    if ok {
      pcb.entry := lay.entryPage * PAGE_SIZE;
      pcb.pageCount := pcb.pageCount + lay.imagePages;
      ok := AllocateRegion(heap, frames, pcb, lay, pcb.entry, lay.imagePages, lay.entryPage, base);
    }
  }

  /** Heap and argument page: the other two. */
  method AllocateHeapAndArgs(heap: Heap, frames: FrameTable, pcb: Pcb, lay: Layout, ghost base: Base)
    returns (ok: bool)
    requires lay.Fits() && Building(heap, frames, pcb, lay, base)
    requires |pcb.pages| == pcb.pageCount == lay.stackPages + lay.imagePages
    modifies heap, frames`free, frames`refcount, pcb`pages, pcb`pageCount, pcb`heapBase, pcb`heapPointer, pcb.pgtable
    ensures !ok ==> heap.pool == {} || frames.free == {}
    ensures ok ==> Building(heap, frames, pcb, lay, base)
    ensures ok ==> |pcb.pages| == pcb.pageCount == lay.PageCount()
    ensures ok ==> pcb.heapBase == pcb.heapPointer == lay.HeapStart() * PAGE_SIZE
    ensures ok ==> forall i :: USER_ENTRIES <= i < 4096 ==> pcb.pgtable[i] == old(pcb.pgtable[i])
    ensures ok ==> Conserved(old(heap.tables), old(heap.pool), heap.tables, heap.pool)
  {
    Regions(lay);
    pcb.heapBase := (pcb.pageCount + 1) * PAGE_SIZE;
    pcb.heapPointer := pcb.heapBase;
    pcb.pageCount := pcb.pageCount + lay.heapPages;
    ok := AllocateRegion(heap, frames, pcb, lay, pcb.heapBase, lay.heapPages, lay.HeapStart(), base);
    if ok {
      pcb.pageCount := pcb.pageCount + 1;
      ok := AllocateRegion(heap, frames, pcb, lay, KERNEL_VIRT_ADDR - PAGE_SIZE, 1, lay.ArgsPage(), base);
    }
  }

  /** All four allocations of exec. */
  method AllocateImage(heap: Heap, frames: FrameTable, pcb: Pcb, lay: Layout, ghost base: Base) returns (ok: bool)
    requires lay.Fits() && Building(heap, frames, pcb, lay, base)
    requires pcb.pages == [] && pcb.pageCount == lay.stackPages && pcb.stackTop == KERNEL_VIRT_ADDR - PAGE_SIZE
    modifies heap, frames`free, frames`refcount, pcb, pcb.pgtable
    ensures !ok ==> heap.pool == {} || frames.free == {}
    ensures ok ==> Building(heap, frames, pcb, lay, base)
    ensures ok ==> |pcb.pages| == pcb.pageCount == lay.PageCount() && pcb.entry == lay.entryPage * PAGE_SIZE
    ensures pcb.stackTop == old(pcb.stackTop)
    ensures ok ==> pcb.heapBase == pcb.heapPointer == lay.HeapStart() * PAGE_SIZE
    ensures ok ==> forall i :: USER_ENTRIES <= i < 4096 ==> pcb.pgtable[i] == old(pcb.pgtable[i])
    ensures ok ==> Conserved(old(heap.tables), old(heap.pool), heap.tables, heap.pool)
  {
    ok := AllocateProgram(heap, frames, pcb, lay, base);
    if ok {
      ok := AllocateHeapAndArgs(heap, frames, pcb, lay, base);
    }
  }
}
