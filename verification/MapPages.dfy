/** Mapping: create_mapping and the functions it is built from (mmu.c). */
module MapPages {
  import opened Quotients
  import opened Word32
  import opened PageTable

  /** The small-page descriptor for a frame number; shifting it into place drops the bits above 32. */
  function PageDescriptor(pfn: nat, nocache: bool): (d: Word)
    ensures PageWord(d) && d != 0
    ensures PageLeaf(d) == SmallPage(pfn % PAGE_COUNT, PageAttr(nocache))
  {
    var f: int := pfn % PAGE_COUNT;
    DescriptorFields(f, PageAttr(nocache));
    f * 4096 + PageAttr(nocache)
  }

  lemma DescriptorFields(f: nat, attr: nat)
    requires attr < 4096 && attr / 2 % 2 == 1
    ensures (f * 4096 + attr) / 4096 == f && (f * 4096 + attr) % 4096 == attr
    ensures (f * 4096 + attr) / 2 % 2 == 1
  {
    Over4096(f, attr);
    var half := attr / 2;
    Over2(2048 * f + half, attr % 2);
    Over2(1024 * f + half / 2, half % 2);
    assert f * 4096 + attr == 2 * (2048 * f + half) + attr % 2;
    assert 2048 * f + half == 2 * (1024 * f + half / 2) + half % 2;
  }

  /** A table whose entries lo..hi describe consecutive frames from pfn. */
  function Filled(s: seq<Word>, lo: nat, hi: nat, pfn: nat, nocache: bool): (r: seq<Word>)
    requires |s| == 256
    ensures |r| == 256
    ensures (forall j :: 0 <= j < 256 ==> PageWord(s[j])) ==> forall j :: 0 <= j < 256 ==> PageWord(r[j])
  {
    seq(256, j requires 0 <= j < 256 => FilledAt(s, lo, hi, pfn, nocache, j))
  }

  function FilledAt(s: seq<Word>, lo: nat, hi: nat, pfn: nat, nocache: bool, j: nat): Word
    requires j < |s|
  {
    if lo <= j < hi then PageDescriptor(pfn + j - lo, nocache) else s[j]
  }

  lemma FilledStep(s: seq<Word>, lo: nat, k: nat, pfn: nat, nocache: bool)
    requires |s| == 256 && lo <= k < 256
    ensures Put(Filled(s, lo, k, pfn, nocache), k, PageDescriptor(pfn + k - lo, nocache)) ==
              Filled(s, lo, k + 1, pfn, nocache)
  {
  }

  /** The descriptor loop of alloc_init_pte, over the table at l2: pages q..qn of first-level entry i. */
  method FillTable(heap: Heap, l2: Word, i: nat, addr: Word, end: Word, pfn: nat, nocache: bool, ghost q: nat,
                   ghost qn: nat)
    requires heap.Valid() && l2 in heap.tables
    requires 256 * i <= q < qn <= 256 * i + 256 && i < 4096
    requires addr == q * 4096 && end == Wrap(qn * 4096)
    modifies heap`tables
    ensures heap.Valid()
    ensures heap.tables == old(heap.tables)[l2 := Filled(old(heap.tables[l2]), q - 256 * i, qn - 256 * i, pfn, nocache)]
  {
    Over4096(q, 0);
    Over256(i, q - 256 * i);
    var k: nat, addr': int, pfn': nat := addr / 4096 % 256, addr, pfn;
    FilledNone(heap.tables[l2], k, pfn, nocache);
    while true
      invariant q <= 256 * i + k < qn && addr' == (256 * i + k) * 4096 && pfn' == pfn + 256 * i + k - q
      invariant heap.Valid()
      invariant heap.tables == old(heap.tables)[l2 := Filled(old(heap.tables[l2]), q - 256 * i, k, pfn, nocache)]
      decreases 256 - k
    {
      FilledStep(old(heap.tables[l2]), q - 256 * i, k, pfn, nocache);
      PageEnd(256 * i + k + 1, qn);
      heap.Store(l2, k, PageDescriptor(pfn', nocache));
      pfn' := pfn' + 1;
      addr', k := Wrap(addr' + 4096), k + 1;
      if addr' == end {
        break;
      }
    }
  }

  lemma FilledNone(s: seq<Word>, lo: nat, pfn: nat, nocache: bool)
    requires |s| == 256
    ensures Filled(s, lo, lo, pfn, nocache) == s
  {
  }

  /** The leaf create_mapping leaves for a frame number, as a whole section or as a small page. */
  function NewLeaf(sect: bool, frame: nat, nocache: bool): Leaf {
    if sect then SectionPage(frame % PAGE_COUNT, SectAttr(nocache))
    else SmallPage(frame % PAGE_COUNT, PageAttr(nocache))
  }

  /** First-level entry i is wholly inside pages p0..p1 and its physical address is section aligned. */
  predicate SectionChunk(i: nat, p0: nat, p1: nat, phys: Word) {
    p0 <= 256 * i && 256 * i + 256 <= p1 && (phys - p0 * 4096) % SECT_SIZE == 0
  }

  /** What mapping pages q..qn, all under entry i, to frames from pfn does to the walk and to the tables. */
  ghost predicate ChunkCreated(l1: seq<Word>, t: Tables, l1': seq<Word>, t': Tables, i: nat, q: nat, qn: nat,
                               pfn: nat, sect: bool, nocache: bool)
    requires Wf(l1, t) && Wf(l1', t') && i < 4096
  {
    && l1' == l1[i := l1'[i]]
    && (forall j :: 0 <= j < 256 ==>
          LeafAt(l1', t', i, j) ==
          (if q <= 256 * i + j < qn then NewLeaf(sect, pfn + 256 * i + j - q, nocache) else LeafAt(l1, t, i, j)))
    && (if sect then IsSect(l1'[i]) && t' == t
        else
          && IsTable(l1'[i])
          && (if IsTable(l1[i]) then l1'[i] == l1[i] else TableAddr(l1'[i]) !in t)
          && t'.Keys == t.Keys + {TableAddr(l1'[i])}
          && (forall a :: a in t && a != TableAddr(l1'[i]) ==> t'[a] == t[a]))
  }

  /** Entry i leads to a table: the one it had, or a fresh empty one. */
  ghost predicate TableReady(l1: seq<Word>, t: Tables, l1': seq<Word>, t': Tables, i: nat)
    requires |l1| == 4096 && i < 4096
  {
    && |l1'| == 4096 && l1' == l1[i := l1'[i]]
    && IsTable(l1'[i])
    && if IsTable(l1[i]) then l1' == l1 && t' == t
       else TableAddr(l1'[i]) !in t && t' == t[TableAddr(l1'[i]) := seq(256, j => 0)]
  }

  lemma BlockEntry(block: Word)
    requires block % 1024 == 0
    ensures IsTable(block + L1_TABLE_ATTR) && TableAddr(block + L1_TABLE_ATTR) == block
  {
    TableBits(block / 1024);
  }

  lemma TableBits(k: int)
    ensures (1024 * k + 1) % 4 == 1 && (1024 * k + 1) % 1024 == 1
  {
  }

  lemma FreshTableKeepsWf(l1: seq<Word>, t: Tables, t': Tables, block: Word, i: nat)
    requires Wf(l1, t) && i < 4096 && l1[i] == 0
    requires block % 1024 == 0 && block !in t && WfTables(t') && t'.Keys == t.Keys + {block}
    ensures Wf(l1[i := block + L1_TABLE_ATTR], t')
  {
    BlockEntry(block);
    var l1' := l1[i := block + L1_TABLE_ATTR];
    forall k | 0 <= k < 4096
      ensures WfEntry(l1'[k], t') && (k != i && IsTable(l1'[k]) ==> TableAddr(l1'[k]) in t)
    {
      assert WfEntry(l1[k], t);
    }
  }

  /** The first half of alloc_init_pte: allocate a second-level table for an empty entry. */
  method EnsureTable(heap: Heap, l1: array<Word>, i: nat) returns (ok: bool)
    requires heap.Valid() && Wf(l1[..], heap.tables)
    requires i < 4096 && !IsSect(l1[i])
    modifies heap, l1
    ensures !ok ==> heap.pool == {} && old(heap.pool) == {}
    ensures ok ==> heap.Valid() && Wf(l1[..], heap.tables)
    ensures ok ==> TableReady(old(l1[..]), old(heap.tables), l1[..], heap.tables, i)
    ensures ok ==> Conserved(old(heap.tables), old(heap.pool), heap.tables, heap.pool)
  {
    assert WfEntry(l1[i], heap.tables);
    if l1[i] == 0 {
      var block := heap.Memalign();
      if block == 0 {
        return false;
      }
      BlockEntry(block);
      FreshTableKeepsWf(l1[..], old(heap.tables), heap.tables, block, i);
      l1[i] := block + L1_TABLE_ATTR;
      assert l1[..] == old(l1[..])[i := block + L1_TABLE_ATTR];
    }
    return true;
  }

  lemma TableChunkCreated(l1: seq<Word>, t: Tables, l1': seq<Word>, ta: Tables, t': Tables, i: nat, q: nat, qn: nat,
                          pfn: nat, nocache: bool)
    requires Wf(l1, t) && Wf(l1', ta) && WfTables(t') && i < 4096 && !IsSect(l1[i])
    requires 256 * i <= q < qn <= 256 * i + 256
    requires TableReady(l1, t, l1', ta, i)
    requires TableAddr(l1'[i]) in ta
    requires t' == ta[TableAddr(l1'[i]) := Filled(ta[TableAddr(l1'[i])], q - 256 * i, qn - 256 * i, pfn, nocache)]
    ensures Wf(l1', t') && ChunkCreated(l1, t, l1', t', i, q, qn, pfn, false, nocache)
  {
    forall k | 0 <= k < 4096
      ensures WfEntry(l1'[k], t')
    {
      assert WfEntry(l1'[k], ta);
    }
    forall j | 0 <= j < 256
      ensures LeafAt(l1', t', i, j) ==
              (if q <= 256 * i + j < qn then NewLeaf(false, pfn + 256 * i + j - q, nocache) else LeafAt(l1, t, i, j))
    {
      assert t'[TableAddr(l1'[i])][j] == FilledAt(ta[TableAddr(l1'[i])], q - 256 * i, qn - 256 * i, pfn, nocache, j);
      assert WfEntry(l1[i], t);
    }
  }

  /** Small pages for pages q..qn, all under entry i. */
  method AllocInitPte(heap: Heap, l1: array<Word>, i: nat, addr: Word, end: Word, pfn: nat, nocache: bool,
                      ghost q: nat, ghost qn: nat)
    returns (ok: bool)
    requires heap.Valid() && Wf(l1[..], heap.tables)
    requires 256 * i <= q < qn <= 256 * i + 256 && i < 4096
    requires addr == q * 4096 && end == Wrap(qn * 4096)
    requires !IsSect(l1[i])
    modifies heap, l1
    ensures !ok ==> heap.pool == {} && old(heap.pool) == {}
    ensures ok ==> heap.Valid() && Wf(l1[..], heap.tables)
    ensures ok ==> ChunkCreated(old(l1[..]), old(heap.tables), l1[..], heap.tables, i, q, qn, pfn, false, nocache)
    ensures ok ==> Conserved(old(heap.tables), old(heap.pool), heap.tables, heap.pool)
  {
    ok := EnsureTable(heap, l1, i);
    if ok {
      ghost var ta := heap.tables;
      FillTable(heap, TableAddr(l1[i]), i, addr, end, pfn, nocache, q, qn);
      TableChunkCreated(old(l1[..]), old(heap.tables), l1[..], ta, heap.tables, i, q, qn, pfn, nocache);
    }
  }

  function SectDescriptor(phys: Word, nocache: bool): (d: Word)
    requires phys % SECT_SIZE == 0
    ensures IsSect(d)
    ensures d / SECT_SIZE == phys / SECT_SIZE && d % SECT_SIZE == SectAttr(nocache)
  {
    phys + SectAttr(nocache)
  }

  lemma SectChunkCreated(l1: seq<Word>, t: Tables, i: nat, phys: Word, nocache: bool)
    requires Wf(l1, t) && i < 4096 && phys % SECT_SIZE == 0
    ensures var l1' := l1[i := SectDescriptor(phys, nocache)];
            Wf(l1', t) && ChunkCreated(l1, t, l1', t, i, 256 * i, 256 * i + 256, phys / 4096, true, nocache)
  {
    var l1' := l1[i := SectDescriptor(phys, nocache)];
    forall k | 0 <= k < 4096 ensures WfEntry(l1'[k], t) {
      assert WfEntry(l1[k], t);
    }
    forall j | 0 <= j < 256
      ensures LeafAt(l1', t, i, j) == NewLeaf(true, phys / 4096 + j, nocache)
    {
    }
  }

  function SectionAt(phys: Word, m: nat, nocache: bool): Word
    requires phys % SECT_SIZE == 0 && m < 4096
  {
    SectDescriptor(Wrap(phys + m * SECT_SIZE), nocache)
  }

  lemma SectionStep(phys: Word, m: nat, k: nat, end: nat)
    requires 0 < k <= 4096 && 0 < end <= 4096 && m < 4096
    ensures Wrap(Wrap(phys + m * SECT_SIZE) + SECT_SIZE) == Wrap(phys + (m + 1) * SECT_SIZE)
    ensures Wrap(k * SECT_SIZE) == Wrap(end * SECT_SIZE) <==> k == end
  {
  }

  /** The section loop of alloc_init_section, over n entries. */
  method FillSections(l1: array<Word>, i: nat, addr: Word, end: Word, phys: Word, nocache: bool, ghost n: nat)
    requires l1.Length == 4096 && 0 < n && i + n <= 4096
    requires addr == i * SECT_SIZE && end == Wrap((i + n) * SECT_SIZE) && phys % SECT_SIZE == 0
    modifies l1
    ensures forall k :: i <= k < i + n ==> l1[k] == SectionAt(phys, k - i, nocache)
    ensures forall k :: 0 <= k < 4096 && !(i <= k < i + n) ==> l1[k] == old(l1[k])
  {
    var k: nat, addr': int, phys': int := i, addr, phys;
    while true
      invariant i <= k < i + n && addr' == k * SECT_SIZE && phys' == Wrap(phys + (k - i) * SECT_SIZE)
      invariant forall m :: i <= m < k ==> l1[m] == SectionAt(phys, m - i, nocache)
      invariant forall m :: 0 <= m < 4096 && !(i <= m < k) ==> l1[m] == old(l1[m])
      decreases 4096 - k
    {
      SectionStep(phys, k - i, k + 1, i + n);
      l1[k] := SectDescriptor(phys', nocache);
      phys' := Wrap(phys' + SECT_SIZE);
      k, addr' := k + 1, Wrap(addr' + SECT_SIZE);
      if addr' == end {
        break;
      }
    }
  }

  /** One step of create_mapping: a whole section when everything is aligned, small pages otherwise. */
  method AllocInitSection(heap: Heap, l1: array<Word>, i: nat, addr: Word, end: Word, phys: Word, nocache: bool,
                          ghost q: nat, ghost qn: nat)
    returns (ok: bool)
    requires heap.Valid() && Wf(l1[..], heap.tables)
    requires 256 * i <= q < qn <= 256 * i + 256 && i < 4096
    requires addr == q * 4096 && end == Wrap(qn * 4096)
    requires !(addr % SECT_SIZE == 0 && end % SECT_SIZE == 0 && phys % SECT_SIZE == 0) ==> !IsSect(l1[i])
    modifies heap, l1
    ensures !ok ==> heap.pool == {} && old(heap.pool) == {}
    ensures ok ==> heap.Valid() && Wf(l1[..], heap.tables)
    ensures ok ==> ChunkCreated(old(l1[..]), old(heap.tables), l1[..], heap.tables, i, q, qn, phys / 4096,
                                addr % SECT_SIZE == 0 && end % SECT_SIZE == 0 && phys % SECT_SIZE == 0, nocache)
    ensures ok ==> Conserved(old(heap.tables), old(heap.pool), heap.tables, heap.pool)
  {
    if addr % SECT_SIZE == 0 && end % SECT_SIZE == 0 && phys % SECT_SIZE == 0 {
      SectChunkCreated(l1[..], heap.tables, i, phys, nocache);
      FillSections(l1, i, addr, end, phys, nocache, 1);
      assert l1[..] == old(l1[..])[i := SectDescriptor(phys, nocache)];
      return true;
    } else {
      ok := AllocInitPte(heap, l1, i, addr, end, phys / 4096, nocache, q, qn);
    }
  }

  /** Pages p0..q of the request p0..p1 lead to consecutive frames from phys; every other page is as it was. */
  ghost predicate CreatedLeaves(l1: seq<Word>, t: Tables, l1': seq<Word>, t': Tables, p0: nat, q: nat, p1: nat,
                                phys: Word, nocache: bool)
    requires |l1| == |l1'| == 4096
  {
    forall i, j :: 0 <= i < 4096 && 0 <= j < 256 ==>
      LeafAt(l1', t', i, j) ==
      (if p0 <= 256 * i + j < q then NewLeaf(SectionChunk(i, p0, p1, phys), phys / 4096 + 256 * i + j - p0, nocache)
       else LeafAt(l1, t, i, j))
  }

  /** Touched entries are sections or tables; a table that was there stays, otherwise a fresh one is used. */
  ghost predicate CreatedEntries(l1: seq<Word>, t: Tables, l1': seq<Word>, p0: nat, q: nat, p1: nat, phys: Word)
    requires |l1| == |l1'| == 4096
  {
    forall i :: 0 <= i < 4096 ==>
      if !Touches(i, p0, q) then l1'[i] == l1[i]
      else if SectionChunk(i, p0, p1, phys) then IsSect(l1'[i])
      else IsTable(l1'[i]) && if IsTable(l1[i]) then l1'[i] == l1[i] else TableAddr(l1'[i]) !in t
  }

  /** No table is released, new tables are in use, and only tables of touched entries are written. */
  ghost predicate CreatedTables(l1: seq<Word>, t: Tables, l1': seq<Word>, t': Tables, p0: nat, q: nat) {
    && t.Keys <= t'.Keys
    && (forall a :: a in t' && a !in t ==> Reached(l1', a))
    && (forall a :: a in t && t'[a] != t[a] ==>
          exists i :: 0 <= i < |l1| && Touches(i, p0, q) && IsTable(l1[i]) && TableAddr(l1[i]) == a)
  }

  ghost predicate Created(l1: seq<Word>, t: Tables, l1': seq<Word>, t': Tables, p0: nat, q: nat, p1: nat,
                          phys: Word, nocache: bool)
    requires |l1| == |l1'| == 4096
  {
    && CreatedLeaves(l1, t, l1', t', p0, q, p1, phys, nocache)
    && CreatedEntries(l1, t, l1', p0, q, p1, phys)
    && CreatedTables(l1, t, l1', t', p0, q)
  }

  lemma ChunkFrame(phys: Word, p0: nat, q: nat, p: nat)
    requires p0 <= q <= p <= PAGE_COUNT
    ensures (Wrap(phys + (q - p0) * 4096) / 4096 + p - q) % PAGE_COUNT == (phys / 4096 + p - p0) % PAGE_COUNT
  {
  }

  lemma ChunkIsSection(i: nat, p0: nat, q: nat, qn: nat, p1: nat, phys: Word)
    requires Chunk(i, p0, q, qn, p1)
    ensures SectionChunk(i, p0, p1, phys) <==>
              && q * 4096 % SECT_SIZE == 0 && Wrap(qn * 4096) % SECT_SIZE == 0
              && Wrap(phys + (q - p0) * 4096) % SECT_SIZE == 0
  {
    AlignedChunk(i, q, qn);
    if q == 256 * i {
      AlignedPhys(i, p0, phys);
    }
  }

  lemma AlignedPhys(i: nat, p0: nat, phys: Word)
    requires p0 <= 256 * i < PAGE_COUNT
    ensures Wrap(phys + (256 * i - p0) * 4096) % SECT_SIZE == (phys - p0 * 4096) % SECT_SIZE
  {
    var x := phys - p0 * 4096;
    MegaShift(x, i);
    MegaShift(x, i - 4096);
    assert phys + (256 * i - p0) * 4096 == x + i * SECT_SIZE;
  }

  /** A first-level table and the second-level tables on the heap. */
  datatype Mmu = Mmu(l1: seq<Word>, t: Tables) {
    ghost predicate Ok() { Wf(l1, t) }
  }

  /** Map pages p0..p1 to the frames from phys. */
  datatype Request = Request(p0: nat, p1: nat, phys: Word, nocache: bool)

  /** In m' pages q..qn of the request, which are of entry i, have been mapped. */
  ghost predicate ChunkDone(m: Mmu, m': Mmu, r: Request, i: nat, q: nat, qn: nat)
    requires m.Ok() && m'.Ok() && Chunk(i, r.p0, q, qn, r.p1)
  {
    ChunkCreated(m.l1, m.t, m'.l1, m'.t, i, q, qn, Wrap(r.phys + (q - r.p0) * 4096) / 4096,
                 SectionChunk(i, r.p0, r.p1, r.phys), r.nocache)
  }

  lemma LeavesStep(m: Mmu, a: Mmu, b: Mmu, r: Request, i: nat, q: nat, qn: nat)
    requires m.Ok() && a.Ok() && b.Ok() && Chunk(i, r.p0, q, qn, r.p1) && ChunkDone(a, b, r, i, q, qn)
    requires CreatedLeaves(m.l1, m.t, a.l1, a.t, r.p0, q, r.p1, r.phys, r.nocache)
    ensures CreatedLeaves(m.l1, m.t, b.l1, b.t, r.p0, qn, r.p1, r.phys, r.nocache)
  {
    OtherEntriesKeepTheirLeaves(a.l1, a.t, b.l1, b.t, i);
    forall k, j | 0 <= k < 4096 && 0 <= j < 256
      ensures LeafAt(b.l1, b.t, k, j) ==
              (if r.p0 <= 256 * k + j < qn
               then NewLeaf(SectionChunk(k, r.p0, r.p1, r.phys), r.phys / 4096 + 256 * k + j - r.p0, r.nocache)
               else LeafAt(m.l1, m.t, k, j))
    {
      if k == i {
        if q <= 256 * i + j < qn {
          ChunkFrame(r.phys, r.p0, q, 256 * i + j);
        }
      }
    }
  }

  lemma EntriesStep(m: Mmu, a: Mmu, b: Mmu, r: Request, i: nat, q: nat, qn: nat)
    requires m.Ok() && a.Ok() && b.Ok() && Chunk(i, r.p0, q, qn, r.p1) && ChunkDone(a, b, r, i, q, qn)
    requires CreatedEntries(m.l1, m.t, a.l1, r.p0, q, r.p1, r.phys) && CreatedTables(m.l1, m.t, a.l1, a.t, r.p0, q)
    ensures CreatedEntries(m.l1, m.t, b.l1, r.p0, qn, r.p1, r.phys) && CreatedTables(m.l1, m.t, b.l1, b.t, r.p0, qn)
  {
    assert !Touches(i, r.p0, q) && a.l1[i] == m.l1[i];
    forall k | 0 <= k < 4096 && k != i
      ensures b.l1[k] == a.l1[k] && (Touches(k, r.p0, qn) <==> Touches(k, r.p0, q))
    {
    }
    forall x | x in b.t && x !in m.t
      ensures Reached(b.l1, x)
    {
      if x in a.t {
        var k :| 0 <= k < 4096 && IsTable(a.l1[k]) && TableAddr(a.l1[k]) == x;
        assert WfEntry(m.l1[i], m.t) && b.l1[k] == a.l1[k];
      } else {
        assert TableAddr(b.l1[i]) == x;
      }
    }
    assert Touches(i, r.p0, qn);
  }

  lemma PhysStep(phys: Word, p0: nat, q: nat, qn: nat)
    requires p0 <= q < qn <= PAGE_COUNT
    ensures Wrap(Wrap(phys + (q - p0) * 4096) + Wrap(Wrap(qn * 4096) - q * 4096)) == Wrap(phys + (qn - p0) * 4096)
  {
  }

  lemma CreatedNone(l1: seq<Word>, t: Tables, p0: nat, p1: nat, phys: Word, nocache: bool)
    requires |l1| == 4096
    ensures Created(l1, t, l1, t, p0, p0, p1, phys, nocache)
  {
  }

  /** One round of create_mapping's loop, after which pages p0..qn are mapped. */
  method CreateChunk(heap: Heap, l1: array<Word>, i: nat, addr: Word, next: Word, phys: Word, nocache: bool,
                     ghost m: Mmu, ghost r: Request, ghost q: nat, ghost qn: nat)
    returns (ok: bool)
    requires Chunk(i, r.p0, q, qn, r.p1) && nocache == r.nocache
    requires addr == q * 4096 && next == Wrap(qn * 4096) && phys == Wrap(r.phys + (q - r.p0) * 4096)
    requires heap.Valid() && Wf(l1[..], heap.tables) && m.Ok()
    requires Created(m.l1, m.t, l1[..], heap.tables, r.p0, q, r.p1, r.phys, nocache)
    requires !SectionChunk(i, r.p0, r.p1, r.phys) ==> !IsSect(m.l1[i])
    modifies heap, l1
    ensures !ok ==> heap.pool == {}
    ensures ok ==> heap.Valid() && Wf(l1[..], heap.tables)
    ensures ok ==> Created(m.l1, m.t, l1[..], heap.tables, r.p0, qn, r.p1, r.phys, nocache)
    ensures ok ==> Conserved(old(heap.tables), old(heap.pool), heap.tables, heap.pool)
  {
    ghost var a := Mmu(l1[..], heap.tables);
    ChunkIsSection(i, r.p0, q, qn, r.p1, r.phys);
    assert !Touches(i, r.p0, q) && a.l1[i] == m.l1[i];
    ok := AllocInitSection(heap, l1, i, addr, next, phys, nocache, q, qn);
    if ok {
      LeavesStep(m, a, Mmu(l1[..], heap.tables), r, i, q, qn);
      EntriesStep(m, a, Mmu(l1[..], heap.tables), r, i, q, qn);
    }
  }

  /**
    Map `size` bytes from virt_base to phys_base. The result is false only if the kernel heap runs out of
    second-level tables, where the code stops the kernel.
  */
  method CreateMapping(heap: Heap, l1: array<Word>, virt_base: Word, phys_base: Word, size: Word, nocache: bool)
    returns (ok: bool)
    requires heap.Valid() && Wf(l1[..], heap.tables)
    requires FirstPage(virt_base) < PastPage(virt_base, size) <= PAGE_COUNT
    requires CanCreate(l1[..], FirstPage(virt_base), PastPage(virt_base, size), phys_base)
    modifies heap, l1
    ensures !ok ==> heap.pool == {}
    ensures ok ==> heap.Valid() && Wf(l1[..], heap.tables)
    ensures ok ==> Created(old(l1[..]), old(heap.tables), l1[..], heap.tables, FirstPage(virt_base),
                           PastPage(virt_base, size), PastPage(virt_base, size), phys_base, nocache)
    ensures ok ==> Conserved(old(heap.tables), old(heap.pool), heap.tables, heap.pool)
  {
    ghost var p0, p1 := FirstPage(virt_base), PastPage(virt_base, size);
    ghost var m, r := Mmu(l1[..], heap.tables), Request(p0, p1, phys_base, nocache);
    var addr: int, end := RangeOf(virt_base, size);
    var i: nat, phys: int := addr / SECT_SIZE, phys_base;
    ghost var q := p0;
    CreatedNone(m.l1, m.t, p0, p1, phys_base, nocache);
    while true
      invariant p0 <= q < p1 && 256 * i <= q < 256 * i + 256 && (q == p0 || q == 256 * i)
      invariant addr == q * 4096 && phys == Wrap(phys_base + (q - p0) * 4096)
      invariant heap.Valid() && Wf(l1[..], heap.tables)
      invariant Created(m.l1, m.t, l1[..], heap.tables, p0, q, p1, phys_base, nocache)
      invariant Conserved(m.t, old(heap.pool), heap.tables, heap.pool)
      decreases p1 - q
    {
      ghost var qn := ChunkEnd(q, p1);
      RoundStep(i, q, p0, p1);
      PhysStep(phys_base, p0, q, qn);
      var next := SectAddrEnd(addr, end);
      assert Touches(i, p0, p1);
      ok := CreateChunk(heap, l1, i, addr, next, phys, nocache, m, r, q, qn);
      if !ok {
        return;
      }
      phys := Wrap(phys + Wrap(next - addr));
      addr, i, q := next, i + 1, qn;
      if addr == end {
        break;
      }
    }
  }

  /** What create_mapping needs of the entries it will extend with small pages: none of them is a section. */
  ghost predicate CanCreate(l1: seq<Word>, p0: nat, p1: nat, phys: Word)
    requires |l1| == 4096
  {
    forall i :: 0 <= i < 4096 && Touches(i, p0, p1) && !SectionChunk(i, p0, p1, phys) ==> !IsSect(l1[i])
  }
}
