/** What mapping and unmapping mean together: the walk, the second-level tables, and undoing a mapping (mmu.c). */
module PageTableLaws {
  import opened Word32
  import opened PageTable
  import opened MapPages
  import opened UnmapPages

  // ---------------------------------------------------------------- address by address

  lemma PageOf(va: Word)
    ensures va / SECT_SIZE < 4096 && 256 * (va / SECT_SIZE) + va / PAGE_SIZE % 256 == va / PAGE_SIZE
  {
  }

  lemma FrameAddress(phys: Word, d: nat, offset: nat)
    requires phys % PAGE_SIZE == 0 && d < PAGE_COUNT && offset < PAGE_SIZE
    ensures (phys / PAGE_SIZE + d) % PAGE_COUNT * PAGE_SIZE + offset == Wrap(phys + d * PAGE_SIZE + offset)
  {
  }

  /**
    After create_mapping an address of the range translates to phys plus its distance from the range's first page; the
    others as before.
  */
  lemma CreatedTranslates(l1: seq<Word>, t: Tables, l1': seq<Word>, t': Tables, p0: nat, p1: nat, phys: Word,
                          nocache: bool, va: Word)
    requires Wf(l1, t) && Wf(l1', t') && p0 < p1 <= PAGE_COUNT && phys % PAGE_SIZE == 0
    requires Created(l1, t, l1', t', p0, p1, p1, phys, nocache)
    ensures Translate(l1', t', va) ==
            if p0 * PAGE_SIZE <= va < p1 * PAGE_SIZE then (phys + (va - p0 * PAGE_SIZE)) % TWO32
            else Translate(l1, t, va)
  {
    var i, j, q := va / SECT_SIZE, va / PAGE_SIZE % 256, va / PAGE_SIZE;
    PageOf(va);
    assert p0 <= q < p1 <==> p0 * PAGE_SIZE <= va < p1 * PAGE_SIZE;
    if p0 <= q < p1 {
      assert LeafAt(l1', t', i, j) == NewLeaf(SectionChunk(i, p0, p1, phys), phys / 4096 + q - p0, nocache);
      FrameAddress(phys, q - p0, va % PAGE_SIZE);
      WrapIsModulo(phys + (va - p0 * PAGE_SIZE));
    } else {
      assert LeafAt(l1', t', i, j) == LeafAt(l1, t, i, j);
    }
  }

  /** After release_mapping no address of the range translates; the others as before. */
  lemma ReleasedTranslates(l1: seq<Word>, t: Tables, l1': seq<Word>, t': Tables, p0: nat, p1: nat, va: Word)
    requires Wf(l1, t) && Wf(l1', t') && p0 < p1 <= PAGE_COUNT
    requires Released(l1, t, l1', t', p0, p1, p1)
    ensures Translate(l1', t', va) == if p0 * PAGE_SIZE <= va < p1 * PAGE_SIZE then -1 else Translate(l1, t, va)
  {
    var i, j, q := va / SECT_SIZE, va / PAGE_SIZE % 256, va / PAGE_SIZE;
    PageOf(va);
    assert p0 <= q < p1 <==> p0 * PAGE_SIZE <= va < p1 * PAGE_SIZE;
    assert LeafAt(l1', t', i, j) == (if p0 <= 256 * i + j < p1 then Fault else LeafAt(l1, t, i, j));
  }

  /** The pages of a range are those that hold a byte of it. */
  lemma PagesOfRange(virt_base: Word, size: Word, va: Word)
    requires size > 0 && virt_base + size <= TWO32
    ensures FirstPage(virt_base) * PAGE_SIZE <= va < PastPage(virt_base, size) * PAGE_SIZE <==>
              exists b: Word :: virt_base <= b < virt_base + size && SamePage(b, va)
  {
    var b: int := if va < virt_base then virt_base else if va < virt_base + size then va else virt_base + size - 1;
    if FirstPage(virt_base) * PAGE_SIZE <= va < PastPage(virt_base, size) * PAGE_SIZE {
      assert SamePage(b, va);
    }
  }

  predicate SamePage(a: Word, b: Word) { a / 4096 == b / 4096 }

  lemma CacheBits(sect: bool, frame: nat, nocache: bool)
    ensures NewLeaf(sect, frame, nocache) != Fault
    ensures NewLeaf(sect, frame, nocache).attr / 4 % 4 == if nocache then 0 else 3
  {
  }

  /** The pages mapped are cacheable and bufferable (bits 3 and 2) exactly without `nocache`. */
  lemma CreatedAttributes(l1: seq<Word>, t: Tables, l1': seq<Word>, t': Tables, p0: nat, p1: nat, phys: Word,
                          nocache: bool, i: nat, j: nat)
    requires Wf(l1, t) && Wf(l1', t') && p0 < p1 <= PAGE_COUNT
    requires Created(l1, t, l1', t', p0, p1, p1, phys, nocache)
    requires i < 4096 && j < 256 && p0 <= 256 * i + j < p1
    ensures var leaf := LeafAt(l1', t', i, j); leaf != Fault && leaf.attr / 4 % 4 == if nocache then 0 else 3
  {
    var frame := phys / 4096 + 256 * i + j - p0;
    assert LeafAt(l1', t', i, j) == NewLeaf(SectionChunk(i, p0, p1, phys), frame, nocache);
    CacheBits(SectionChunk(i, p0, p1, phys), frame, nocache);
  }

  // ---------------------------------------------------------------- tables in use are never empty

  lemma CreateKeepsTablesNonEmpty(l1: seq<Word>, t: Tables, l1': seq<Word>, t': Tables, p0: nat, p1: nat, phys: Word,
                                  nocache: bool)
    requires Wf(l1, t) && Wf(l1', t') && p0 < p1 <= PAGE_COUNT
    requires Created(l1, t, l1', t', p0, p1, p1, phys, nocache)
    requires NoEmptyTable(l1, t)
    ensures NoEmptyTable(l1', t')
  {
    forall i | 0 <= i < 4096 && IsTable(l1'[i])
      ensures HasEntry(t'[TableAddr(l1'[i])])
    {
      if Touches(i, p0, p1) {
        var j := if p0 <= 256 * i then 0 else p0 - 256 * i;
        assert LeafAt(l1', t', i, j) == NewLeaf(SectionChunk(i, p0, p1, phys), phys / 4096 + 256 * i + j - p0, nocache);
      } else {
        var j :| 0 <= j < 256 && t[TableAddr(l1[i])][j] != 0;
        assert LeafAt(l1', t', i, j) == LeafAt(l1, t, i, j);
      }
    }
  }

  lemma ReleaseKeepsTablesNonEmpty(l1: seq<Word>, t: Tables, l1': seq<Word>, t': Tables, p0: nat, p1: nat)
    requires Wf(l1, t) && Wf(l1', t') && p0 < p1 <= PAGE_COUNT
    requires Released(l1, t, l1', t', p0, p1, p1)
    requires NoEmptyTable(l1, t)
    ensures NoEmptyTable(l1', t')
  {
  }

  // ---------------------------------------------------------------- which tables are lost

  /** Allocated, but no first-level entry leads to it. */
  ghost predicate Stranded(l1: seq<Word>, t: Tables, a: Word) {
    a in t && !Reached(l1, a)
  }

  /** Some entry that the range covers with a whole section leads to the table at a. */
  ghost predicate UnderSection(l1: seq<Word>, a: Word, p0: nat, p1: nat, phys: Word) {
    exists i :: 0 <= i < |l1| && SectionChunk(i, p0, p1, phys) && IsTable(l1[i]) && TableAddr(l1[i]) == a
  }

  /** create_mapping loses exactly the tables it puts a section over. */
  lemma CreateStrands(l1: seq<Word>, t: Tables, l1': seq<Word>, t': Tables, p0: nat, p1: nat, phys: Word,
                      nocache: bool, a: Word)
    requires Wf(l1, t) && Wf(l1', t') && p0 < p1 <= PAGE_COUNT
    requires Created(l1, t, l1', t', p0, p1, p1, phys, nocache)
    ensures Stranded(l1', t', a) <==> Stranded(l1, t, a) || UnderSection(l1, a, p0, p1, phys)
  {
  }

  ghost predicate UnderFullChunk(l1: seq<Word>, a: Word, p0: nat, p1: nat) {
    exists i :: 0 <= i < |l1| && FullChunk(i, p0, p1) && IsTable(l1[i]) && TableAddr(l1[i]) == a
  }

  /** release_mapping loses exactly the tables of the entries it clears as whole sections. */
  lemma ReleaseStrands(l1: seq<Word>, t: Tables, l1': seq<Word>, t': Tables, p0: nat, p1: nat, a: Word)
    requires Wf(l1, t) && Wf(l1', t') && p0 < p1 <= PAGE_COUNT
    requires Released(l1, t, l1', t', p0, p1, p1)
    ensures Stranded(l1', t', a) <==> Stranded(l1, t, a) || UnderFullChunk(l1, a, p0, p1)
  {
  }

  // ---------------------------------------------------------------- undoing a mapping

  ghost predicate Unmapped(l1: seq<Word>, t: Tables, p0: nat, p1: nat)
    requires |l1| == 4096
  {
    forall i, j :: 0 <= i < 4096 && 0 <= j < 256 && p0 <= 256 * i + j < p1 ==> LeafAt(l1, t, i, j) == Fault
  }

  /** An unmapped page range leaves its entries empty, or with a table that maps pages outside the range. */
  lemma UnmappedEntry(l1: seq<Word>, t: Tables, p0: nat, p1: nat, i: nat)
    requires Wf(l1, t) && NoEmptyTable(l1, t) && Unmapped(l1, t, p0, p1) && p1 <= PAGE_COUNT
    requires i < 4096 && Touches(i, p0, p1)
    ensures !IsSect(l1[i])
    ensures FullChunk(i, p0, p1) ==> l1[i] == 0
    ensures IsTable(l1[i]) ==> exists j :: 0 <= j < 256 && !(p0 <= 256 * i + j < p1) && LeafAt(l1, t, i, j) != Fault
  {
    var j := if p0 <= 256 * i then 0 else p0 - 256 * i;
    assert LeafAt(l1, t, i, j) == Fault;
    assert WfEntry(l1[i], t);
    if IsTable(l1[i]) {
      var k :| 0 <= k < 256 && t[TableAddr(l1[i])][k] != 0;
      assert LeafAt(l1, t, i, k) != Fault;
    }
  }

  /** A second-level word is determined by what the walk makes of it. */
  lemma LeafDeterminesWord(d: Word, d': Word)
    requires PageWord(d) && PageWord(d') && PageLeaf(d) == PageLeaf(d')
    ensures d == d'
  {
  }

  lemma EntryRestored(l1: seq<Word>, t: Tables, l1': seq<Word>, t': Tables, l1'': seq<Word>, t'': Tables,
                      p0: nat, p1: nat, phys: Word, nocache: bool, i: nat)
    requires Wf(l1, t) && Wf(l1', t') && Wf(l1'', t'') && p0 < p1 <= PAGE_COUNT && i < 4096
    requires NoEmptyTable(l1, t) && Unmapped(l1, t, p0, p1)
    requires Created(l1, t, l1', t', p0, p1, p1, phys, nocache) && Released(l1', t', l1'', t'', p0, p1, p1)
    ensures forall j :: 0 <= j < 256 ==> LeafAt(l1'', t'', i, j) == LeafAt(l1, t, i, j)
    ensures l1''[i] == l1[i]
  {
    forall j | 0 <= j < 256
      ensures LeafAt(l1'', t'', i, j) == LeafAt(l1, t, i, j)
    {
      assert LeafAt(l1'', t'', i, j) == (if p0 <= 256 * i + j < p1 then Fault else LeafAt(l1', t', i, j));
    }
    if Touches(i, p0, p1) {
      UnmappedEntry(l1, t, p0, p1, i);
      assert WfEntry(l1[i], t);
      if !FullChunk(i, p0, p1) {
        assert !SectionChunk(i, p0, p1, phys);
        if l1''[i] != 0 {
          var k :| 0 <= k < 256 && t''[TableAddr(l1''[i])][k] != 0;
          assert LeafAt(l1'', t'', i, k) != Fault;
        }
      }
    }
  }

  lemma TablesRestored(l1: seq<Word>, t: Tables, l1': seq<Word>, t': Tables, l1'': seq<Word>, t'': Tables,
                       p0: nat, p1: nat, phys: Word, nocache: bool)
    requires Wf(l1, t) && Wf(l1', t') && Wf(l1'', t'') && p0 < p1 <= PAGE_COUNT
    requires NoEmptyTable(l1, t) && Unmapped(l1, t, p0, p1)
    requires Created(l1, t, l1', t', p0, p1, p1, phys, nocache) && Released(l1', t', l1'', t'', p0, p1, p1)
    ensures l1'' == l1
    ensures forall i, j :: 0 <= i < 4096 && 0 <= j < 256 ==> LeafAt(l1'', t'', i, j) == LeafAt(l1, t, i, j)
    ensures forall a :: a in t ==> a in t'' && t''[a] == t[a]
  {
    forall i | 0 <= i < 4096
      ensures l1''[i] == l1[i] && forall j :: 0 <= j < 256 ==> LeafAt(l1'', t'', i, j) == LeafAt(l1, t, i, j)
    {
      EntryRestored(l1, t, l1', t', l1'', t'', p0, p1, phys, nocache, i);
    }
    forall a | a in t
      ensures a in t'' && t''[a] == t[a]
    {
      if Reached(l1, a) {
        var i :| 0 <= i < 4096 && IsTable(l1[i]) && TableAddr(l1[i]) == a;
        assert WfEntry(l1''[i], t'');
        forall j | 0 <= j < 256
          ensures t''[a][j] == t[a][j]
        {
          assert LeafAt(l1'', t'', i, j) == LeafAt(l1, t, i, j);
          LeafDeterminesWord(t''[a][j], t[a][j]);
        }
      } else {
        StrandedTableUntouched(l1, t, l1', t', l1'', t'', p0, p1, phys, nocache, a);
      }
    }
  }

  lemma StrandedTableUntouched(l1: seq<Word>, t: Tables, l1': seq<Word>, t': Tables, l1'': seq<Word>, t'': Tables,
                               p0: nat, p1: nat, phys: Word, nocache: bool, a: Word)
    requires Wf(l1, t) && Wf(l1', t') && Wf(l1'', t'') && p0 < p1 <= PAGE_COUNT
    requires Created(l1, t, l1', t', p0, p1, p1, phys, nocache) && Released(l1', t', l1'', t'', p0, p1, p1)
    requires a in t && !Reached(l1, a)
    ensures a in t'' && t''[a] == t[a]
  {
  }

  /**
    Some entry lies wholly inside the range and is mapped page by page, because phys is not congruent to its
    address.
  */
  predicate WholeEntryOfSmallPages(p0: nat, p1: nat, phys: Word) {
    exists i: nat :: i < 4096 && FullChunk(i, p0, p1) && !SectionChunk(i, p0, p1, phys)
  }

  /**
    Mapping an unmapped range and unmapping it again restores the first-level table word for word and every
    table there was. It restores the heap too exactly when no whole entry was mapped by small pages: the
    section branch of free_l1_mapping drops such an entry without freeing its table.
  */
  method CreateThenRelease(heap: Heap, l1: array<Word>, virt_base: Word, phys_base: Word, size: Word, nocache: bool)
    returns (ok: bool)
    requires heap.Valid() && Wf(l1[..], heap.tables) && NoEmptyTable(l1[..], heap.tables)
    requires FirstPage(virt_base) < PastPage(virt_base, size) <= PAGE_COUNT
    requires Unmapped(l1[..], heap.tables, FirstPage(virt_base), PastPage(virt_base, size))
    modifies heap, l1
    ensures !ok ==> heap.pool == {}
    ensures ok ==> l1[..] == old(l1[..])
    ensures ok ==> forall a :: a in old(heap.tables) ==> a in heap.tables && heap.tables[a] == old(heap.tables[a])
    ensures ok ==> (heap.tables == old(heap.tables) <==>
                    !WholeEntryOfSmallPages(FirstPage(virt_base), PastPage(virt_base, size), phys_base))
  {
    ghost var p0, p1 := FirstPage(virt_base), PastPage(virt_base, size);
    ghost var l0, t0 := l1[..], heap.tables;
    forall i | 0 <= i < 4096 && Touches(i, p0, p1)
      ensures !IsSect(l0[i])
    {
      UnmappedEntry(l0, t0, p0, p1, i);
    }
    ok := CreateMapping(heap, l1, virt_base, phys_base, size, nocache);
    if ok {
      ghost var l1', t' := l1[..], heap.tables;
      ReleaseMapping(heap, l1, virt_base, size);
      TablesRestored(l0, t0, l1', t', l1[..], heap.tables, p0, p1, phys_base, nocache);
      HeapRestored(l0, t0, l1', t', l1[..], heap.tables, p0, p1, phys_base, nocache);
    }
  }

  lemma HeapRestored(l1: seq<Word>, t: Tables, l1': seq<Word>, t': Tables, l1'': seq<Word>, t'': Tables,
                     p0: nat, p1: nat, phys: Word, nocache: bool)
    requires Wf(l1, t) && Wf(l1', t') && Wf(l1'', t'') && p0 < p1 <= PAGE_COUNT
    requires NoEmptyTable(l1, t) && Unmapped(l1, t, p0, p1)
    requires Created(l1, t, l1', t', p0, p1, p1, phys, nocache) && Released(l1', t', l1'', t'', p0, p1, p1)
    requires l1'' == l1 && forall a :: a in t ==> a in t'' && t''[a] == t[a]
    ensures t'' == t <==> !WholeEntryOfSmallPages(p0, p1, phys)
  {
    if WholeEntryOfSmallPages(p0, p1, phys) {
      var i: nat :| i < 4096 && FullChunk(i, p0, p1) && !SectionChunk(i, p0, p1, phys);
      assert Touches(i, p0, p1);
      UnmappedEntry(l1, t, p0, p1, i);
      var a := TableAddr(l1'[i]);
      assert IsTable(l1'[i]) && a !in t && WfEntry(l1'[i], t');
      ReleaseStrands(l1', t', l1'', t'', p0, p1, a);
    } else {
      forall a | a in t''
        ensures a in t
      {
        if a !in t {
          ReleaseStrands(l1', t', l1'', t'', p0, p1, a);
        }
      }
    }
  }

  // ---------------------------------------------------------------- virt_to_phys_pt

  datatype Answer = Bug | Address(pa: int)

  /** virt_to_phys_pt, which keeps the 12 low bits of the virtual address whatever the entry is. */
  function VirtToPhysPt(l1: seq<Word>, t: Tables, va: Word): Answer
    requires Wf(l1, t)
  {
    var e := l1[va / SECT_SIZE];
    if e == 0 then Bug
    else if IsSect(e) then Address(e / SECT_SIZE * SECT_SIZE + va % PAGE_SIZE)
    else
      assert WfEntry(e, t);
      Address(t[TableAddr(e)][va / PAGE_SIZE % 256] / PAGE_SIZE * PAGE_SIZE + va % PAGE_SIZE)
  }

  /**
    It answers with the hardware's translation exactly for mapped addresses outside sections or in a section's first
    page.
  */
  lemma VirtToPhysIsTranslate(l1: seq<Word>, t: Tables, va: Word)
    requires Wf(l1, t)
    ensures VirtToPhysPt(l1, t, va) == Address(Translate(l1, t, va)) <==>
            Translate(l1, t, va) != -1 && (IsSect(l1[va / SECT_SIZE]) ==> va % SECT_SIZE < PAGE_SIZE)
  {
    assert WfEntry(l1[va / SECT_SIZE], t);
    assert va % SECT_SIZE == va / PAGE_SIZE % 256 * PAGE_SIZE + va % PAGE_SIZE;
  }

  // ---------------------------------------------------------------- inputs on which this happens

  function EntryZero(e: Word): (l1: seq<Word>)
    ensures |l1| == 4096 && l1[0] == e && forall i :: 0 < i < 4096 ==> l1[i] == 0
  {
    seq(4096, i => if i == 0 then e else 0)
  }

  /** A table at 0x400 that maps page 0 to frame 1. */
  function OneTable(): (t: Tables)
    ensures t.Keys == {0x400} && |t[0x400]| == 256 && t[0x400][0] == 0x1032
    ensures forall j :: 0 < j < 256 ==> t[0x400][j] == 0
  {
    map[0x400 := seq(256, j => if j == 0 then 0x1032 else 0)]
  }

  /** A table in use that is lost when its megabyte is mapped by a section, and when it is unmapped as a whole. */
  lemma ATableIsLost(l1: seq<Word>, t: Tables)
    requires l1 == EntryZero(0x401) && t == OneTable()
    ensures Wf(l1, t) && NoEmptyTable(l1, t) && !Stranded(l1, t, 0x400)
    ensures CanCreate(l1, 0, 256, 0) && UnderSection(l1, 0x400, 0, 256, 0)
    ensures CanRelease(l1, 0, 256) && UnderFullChunk(l1, 0x400, 0, 256)
  {
    assert IsTable(l1[0]) && TableAddr(l1[0]) == 0x400;
    assert SectionChunk(0, 0, 256, 0) && FullChunk(0, 0, 256);
    forall i | 0 <= i < 4096 && Touches(i, 0, 256) ensures i == 0 {
    }
  }

  /** An empty page table and the first megabyte at 0x1000: mapping it and unmapping it again leaves a table behind. */
  lemma OneMegabyteAside(l1: seq<Word>)
    requires l1 == EntryZero(0)
    ensures Wf(l1, map[]) && NoEmptyTable(l1, map[]) && Unmapped(l1, map[], 0, 256)
    ensures FirstPage(0) == 0 && PastPage(0, SECT_SIZE) == 256 && WholeEntryOfSmallPages(0, 256, 0x1000)
  {
    assert FullChunk(0, 0, 256) && !SectionChunk(0, 0, 256, 0x1000);
  }

  /** The second page of a section at 0: the hardware goes to 0x1000, virt_to_phys_pt answers 0. */
  lemma SecondPageOfSection(l1: seq<Word>)
    requires l1 == EntryZero(L1_SECT_DCACHE_WRITEALLOC)
    ensures Wf(l1, map[]) && Translate(l1, map[], 0x1000) == 0x1000 && VirtToPhysPt(l1, map[], 0x1000) == Address(0)
  {
    assert IsSect(l1[0]);
  }
}
