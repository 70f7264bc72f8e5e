/** Unmapping: release_mapping and the functions it is built from (mmu.c). */
module UnmapPages {
  import opened Word32
  import opened PageTable

  ghost predicate HasEntry(s: seq<Word>) {
    exists j :: 0 <= j < |s| && s[j] != 0
  }

  /** A table with entries lo..hi emptied. */
  function Cleared(s: seq<Word>, lo: nat, hi: nat): (r: seq<Word>)
    requires |s| == 256
    ensures |r| == 256
    ensures (forall j :: 0 <= j < 256 ==> PageWord(s[j])) ==> forall j :: 0 <= j < 256 ==> PageWord(r[j])
  {
    seq(256, j requires 0 <= j < 256 => ClearedAt(s, lo, hi, j))
  }

  function ClearedAt(s: seq<Word>, lo: nat, hi: nat, j: nat): Word
    requires j < |s|
  {
    if lo <= j < hi then 0 else s[j]
  }

  lemma ClearedStep(s: seq<Word>, lo: nat, k: nat)
    requires |s| == 256 && lo <= k < 256
    ensures Put(Cleared(s, lo, k), k, 0) == Cleared(s, lo, k + 1)
  {
  }

  /** The first loop of free_l2_mapping. */
  method ClearTable(heap: Heap, l2: Word, i: nat, addr: Word, end: Word, ghost q: nat, ghost qn: nat)
    requires heap.Valid() && l2 in heap.tables
    requires 256 * i <= q < qn <= 256 * i + 256 && i < 4096
    requires addr == q * 4096 && end == Wrap(qn * 4096)
    modifies heap`tables
    ensures heap.Valid()
    ensures heap.tables == old(heap.tables)[l2 := Cleared(old(heap.tables[l2]), q - 256 * i, qn - 256 * i)]
  {
    var k: nat, addr': int := addr / 4096 % 256, addr;
    ClearedNone(heap.tables[l2], k);
    while true
      invariant q <= 256 * i + k < qn && addr' == (256 * i + k) * 4096
      invariant heap.Valid()
      invariant heap.tables == old(heap.tables)[l2 := Cleared(old(heap.tables[l2]), q - 256 * i, k)]
      decreases 256 - k
    {
      ClearedStep(old(heap.tables[l2]), q - 256 * i, k);
      PageEnd(256 * i + k + 1, qn);
      heap.Store(l2, k, 0);
      addr', k := Wrap(addr' + 4096), k + 1;
      if addr' == end {
        break;
      }
    }
  }

  lemma ClearedNone(s: seq<Word>, lo: nat)
    requires |s| == 256
    ensures Cleared(s, lo, lo) == s
  {
  }

  /** The scan of free_l2_mapping for an entry still in use. */
  method FindEntry(s: seq<Word>) returns (found: bool)
    requires |s| == 256
    ensures found <==> HasEntry(s)
  {
    var k := 0;
    found := false;
    while !found && k < 256
      invariant 0 <= k <= 256
      invariant found ==> HasEntry(s)
      invariant !found ==> forall j :: 0 <= j < k ==> s[j] == 0
    {
      found := s[k] != 0;
      k := k + 1;
    }
  }

  /** What releasing pages q..qn, all under entry i, does: as a whole entry, or page by page in its table. */
  ghost predicate ChunkReleased(l1: seq<Word>, t: Tables, l1': seq<Word>, t': Tables, i: nat, q: nat, qn: nat,
                                full: bool)
    requires Wf(l1, t) && Wf(l1', t') && i < 4096
  {
    && l1' == l1[i := l1'[i]]
    && (forall j :: 0 <= j < 256 ==>
          LeafAt(l1', t', i, j) == (if q <= 256 * i + j < qn then Fault else LeafAt(l1, t, i, j)))
    && (if full then l1'[i] == 0 && t' == t
        else
          && IsTable(l1[i])
          && (if l1'[i] == 0 then t' == t - {TableAddr(l1[i])}
              else l1'[i] == l1[i] && t'.Keys == t.Keys && HasEntry(t'[TableAddr(l1[i])]))
          && (forall a :: a in t && a != TableAddr(l1[i]) ==> a in t' && t'[a] == t[a]))
  }

  lemma UnlinkKeepsWf(l1: seq<Word>, t: Tables, t': Tables, i: nat)
    requires Wf(l1, t) && i < 4096 && WfTables(t')
    requires forall a :: a in t && !(IsTable(l1[i]) && a == TableAddr(l1[i])) ==> a in t'
    ensures Wf(l1[i := 0], t')
  {
  }

  lemma ClearedChunkReleased(l1: seq<Word>, t: Tables, ta: Tables, i: nat, q: nat, qn: nat)
    requires Wf(l1, t) && WfTables(ta) && i < 4096 && IsTable(l1[i])
    requires 256 * i <= q < qn <= 256 * i + 256
    requires ta.Keys == t.Keys && forall a :: a in t && a != TableAddr(l1[i]) ==> ta[a] == t[a]
    requires TableAddr(l1[i]) in t && ta[TableAddr(l1[i])] == Cleared(t[TableAddr(l1[i])], q - 256 * i, qn - 256 * i)
    ensures Wf(l1, ta)
    ensures HasEntry(ta[TableAddr(l1[i])]) ==> ChunkReleased(l1, t, l1, ta, i, q, qn, false)
    ensures !HasEntry(ta[TableAddr(l1[i])]) ==>
              var t' := ta - {TableAddr(l1[i])};
              Wf(l1[i := 0], t') && ChunkReleased(l1, t, l1[i := 0], t', i, q, qn, false)
  {
    var l2 := TableAddr(l1[i]);
    forall k | 0 <= k < 4096 ensures WfEntry(l1[k], ta) {
      assert WfEntry(l1[k], t);
    }
    forall j | 0 <= j < 256
      ensures ta[l2][j] == ClearedAt(t[l2], q - 256 * i, qn - 256 * i, j)
    {
    }
    UnlinkKeepsWf(l1, ta, ta - {l2}, i);
    if !HasEntry(ta[l2]) {
      forall j | 0 <= j < 256
        ensures q <= 256 * i + j < qn || LeafAt(l1, t, i, j) == Fault
      {
        assert ta[l2][j] == 0;
      }
    }
  }

  /** Empty the entries of pages q..qn in entry i's table, and drop the table if nothing is left in it. */
  method FreeL2Mapping(heap: Heap, l1: array<Word>, i: nat, addr: Word, end: Word, ghost q: nat, ghost qn: nat)
    requires heap.Valid() && Wf(l1[..], heap.tables)
    requires 256 * i <= q < qn <= 256 * i + 256 && i < 4096
    requires addr == q * 4096 && end == Wrap(qn * 4096)
    requires IsTable(l1[i])
    modifies heap, l1
    ensures heap.Valid() && Wf(l1[..], heap.tables)
    ensures ChunkReleased(old(l1[..]), old(heap.tables), l1[..], heap.tables, i, q, qn, false)
    ensures Conserved(old(heap.tables), old(heap.pool), heap.tables, heap.pool)
  {
    assert WfEntry(l1[i], heap.tables);
    var l2 := TableAddr(l1[i]);
    ClearTable(heap, l2, i, addr, end, q, qn);
    ClearedChunkReleased(l1[..], old(heap.tables), heap.tables, i, q, qn);
    var found := FindEntry(heap.tables[l2]);
    if !found {
      heap.Free(l2);
      l1[i] := 0;
      assert l1[..] == old(l1[..])[i := 0];
    }
  }

  /** The section loop of free_l1_mapping, over n entries. */
  method ClearSections(l1: array<Word>, i: nat, addr: Word, end: Word, ghost n: nat)
    requires l1.Length == 4096 && 0 < n && i + n <= 4096
    requires addr == i * SECT_SIZE && end == Wrap((i + n) * SECT_SIZE)
    modifies l1
    ensures forall k :: i <= k < i + n ==> l1[k] == 0
    ensures forall k :: 0 <= k < 4096 && !(i <= k < i + n) ==> l1[k] == old(l1[k])
  {
    var k: nat, addr': int := i, addr;
    while true
      invariant i <= k < i + n && addr' == k * SECT_SIZE
      invariant forall m :: i <= m < k ==> l1[m] == 0
      invariant forall m :: 0 <= m < 4096 && !(i <= m < k) ==> l1[m] == old(l1[m])
      decreases 4096 - k
    {
      l1[k] := 0;
      k, addr' := k + 1, Wrap(addr' + SECT_SIZE);
      if addr' == end {
        break;
      }
    }
  }

  method FreeL1Mapping(heap: Heap, l1: array<Word>, i: nat, addr: Word, end: Word, ghost q: nat, ghost qn: nat)
    requires heap.Valid() && Wf(l1[..], heap.tables)
    requires 256 * i <= q < qn <= 256 * i + 256 && i < 4096
    requires addr == q * 4096 && end == Wrap(qn * 4096)
    requires IsTable(l1[i]) || (q == 256 * i && qn == 256 * i + 256)
    modifies heap, l1
    ensures heap.Valid() && Wf(l1[..], heap.tables)
    ensures ChunkReleased(old(l1[..]), old(heap.tables), l1[..], heap.tables, i, q, qn,
                          q == 256 * i && qn == 256 * i + 256)
    ensures Conserved(old(heap.tables), old(heap.pool), heap.tables, heap.pool)
  {
    AlignedChunk(i, q, qn);
    if addr % SECT_SIZE == 0 && end % SECT_SIZE == 0 {
      UnlinkKeepsWf(l1[..], heap.tables, heap.tables, i);
      ClearSections(l1, i, addr, end, 1);
      assert l1[..] == old(l1[..])[i := 0];
    } else {
      FreeL2Mapping(heap, l1, i, addr, end, q, qn);
    }
  }

  predicate FullChunk(i: nat, p0: nat, p1: nat) {
    p0 <= 256 * i && 256 * i + 256 <= p1
  }

  /** Pages p0..q no longer translate; every other page is as it was. */
  ghost predicate ReleasedLeaves(l1: seq<Word>, t: Tables, l1': seq<Word>, t': Tables, p0: nat, q: nat)
    requires |l1| == |l1'| == 4096
  {
    forall i, j :: 0 <= i < 4096 && 0 <= j < 256 ==>
      LeafAt(l1', t', i, j) == (if p0 <= 256 * i + j < q then Fault else LeafAt(l1, t, i, j))
  }

  /**
    An entry wholly inside the range is emptied; one partly inside keeps its table or, if that is now empty, loses it.
  */
  ghost predicate ReleasedEntries(l1: seq<Word>, t: Tables, l1': seq<Word>, t': Tables, p0: nat, q: nat, p1: nat)
    requires |l1| == |l1'| == 4096
  {
    forall i :: 0 <= i < 4096 ==>
      if !Touches(i, p0, q) then l1'[i] == l1[i]
      else if FullChunk(i, p0, p1) then l1'[i] == 0
      else if l1'[i] == 0 then IsTable(l1[i]) && TableAddr(l1[i]) !in t'
      else l1'[i] == l1[i] && IsTable(l1[i]) && TableAddr(l1[i]) in t' && HasEntry(t'[TableAddr(l1[i])])
  }

  /** Only tables of entries partly inside the range are released or written. */
  ghost predicate ReleasedTables(l1: seq<Word>, t: Tables, t': Tables, p0: nat, q: nat, p1: nat) {
    && t'.Keys <= t.Keys
    && (forall a :: a in t && (a !in t' || t'[a] != t[a]) ==> PartlyReaches(l1, a, p0, q, p1))
  }

  ghost predicate PartlyReaches(l1: seq<Word>, a: Word, p0: nat, q: nat, p1: nat) {
    exists i :: 0 <= i < |l1| && Touches(i, p0, q) && !FullChunk(i, p0, p1) && IsTable(l1[i]) && TableAddr(l1[i]) == a
  }

  ghost predicate Released(l1: seq<Word>, t: Tables, l1': seq<Word>, t': Tables, p0: nat, q: nat, p1: nat)
    requires |l1| == |l1'| == 4096
  {
    && ReleasedLeaves(l1, t, l1', t', p0, q)
    && ReleasedEntries(l1, t, l1', t', p0, q, p1)
    && ReleasedTables(l1, t, t', p0, q, p1)
  }

  lemma ReleasedLeavesStep(l1: seq<Word>, t: Tables, l1a: seq<Word>, ta: Tables, l1b: seq<Word>, tb: Tables,
                           i: nat, p0: nat, q: nat, qn: nat, p1: nat)
    requires Wf(l1, t) && Wf(l1a, ta) && Wf(l1b, tb) && Chunk(i, p0, q, qn, p1)
    requires ReleasedLeaves(l1, t, l1a, ta, p0, q)
    requires ChunkReleased(l1a, ta, l1b, tb, i, q, qn, FullChunk(i, p0, p1))
    ensures ReleasedLeaves(l1, t, l1b, tb, p0, qn)
  {
    OtherEntriesKeepTheirLeaves(l1a, ta, l1b, tb, i);
    forall k, j | 0 <= k < 4096 && 0 <= j < 256
      ensures LeafAt(l1b, tb, k, j) == (if p0 <= 256 * k + j < qn then Fault else LeafAt(l1, t, k, j))
    {
      if k != i {
        assert LeafAt(l1b, tb, k, j) == LeafAt(l1a, ta, k, j);
      }
    }
  }

  lemma ReleasedEntriesStep(l1: seq<Word>, t: Tables, l1a: seq<Word>, ta: Tables, l1b: seq<Word>, tb: Tables,
                            i: nat, p0: nat, q: nat, qn: nat, p1: nat)
    requires Wf(l1, t) && Wf(l1a, ta) && Wf(l1b, tb) && Chunk(i, p0, q, qn, p1)
    requires ReleasedEntries(l1, t, l1a, ta, p0, q, p1) && ReleasedTables(l1, t, ta, p0, q, p1)
    requires ChunkReleased(l1a, ta, l1b, tb, i, q, qn, FullChunk(i, p0, p1))
    ensures ReleasedEntries(l1, t, l1b, tb, p0, qn, p1) && ReleasedTables(l1, t, tb, p0, qn, p1)
  {
    assert !Touches(i, p0, q) && l1a[i] == l1[i];
    assert WfEntry(l1[i], t);
    forall k | 0 <= k < 4096 && k != i
      ensures l1b[k] == l1a[k] && (Touches(k, p0, qn) <==> Touches(k, p0, q))
    {
      assert WfEntry(l1[k], t);
    }
    forall a | a in t && (a !in tb || tb[a] != t[a])
      ensures PartlyReaches(l1, a, p0, qn, p1)
    {
      if a !in ta || ta[a] != t[a] {
        var k :| 0 <= k < 4096 && Touches(k, p0, q) && !FullChunk(k, p0, p1) && IsTable(l1[k]) && TableAddr(l1[k]) == a;
        assert Touches(k, p0, qn);
      }
    }
  }

  method ReleaseChunk(heap: Heap, l1: array<Word>, i: nat, addr: Word, next: Word,
                      ghost l0: seq<Word>, ghost t0: Tables, ghost p0: nat, ghost q: nat, ghost qn: nat, ghost p1: nat)
    requires Chunk(i, p0, q, qn, p1)
    requires addr == q * 4096 && next == Wrap(qn * 4096)
    requires heap.Valid() && Wf(l1[..], heap.tables) && Wf(l0, t0)
    requires Released(l0, t0, l1[..], heap.tables, p0, q, p1)
    requires IsTable(l0[i]) || FullChunk(i, p0, p1)
    modifies heap, l1
    ensures heap.Valid() && Wf(l1[..], heap.tables)
    ensures Released(l0, t0, l1[..], heap.tables, p0, qn, p1)
    ensures Conserved(old(heap.tables), old(heap.pool), heap.tables, heap.pool)
  {
    ghost var l1a, ta := l1[..], heap.tables;
    assert !Touches(i, p0, q) && l1a[i] == l0[i];
    FreeL1Mapping(heap, l1, i, addr, next, q, qn);
    ReleasedLeavesStep(l0, t0, l1a, ta, l1[..], heap.tables, i, p0, q, qn, p1);
    ReleasedEntriesStep(l0, t0, l1a, ta, l1[..], heap.tables, i, p0, q, qn, p1);
  }

  /** Unmap `size` bytes from virt_base. Entries only partly inside the range must have a second-level table. */
  method ReleaseMapping(heap: Heap, l1: array<Word>, virt_base: Word, size: Word)
    requires heap.Valid() && Wf(l1[..], heap.tables)
    requires FirstPage(virt_base) < PastPage(virt_base, size) <= PAGE_COUNT
    requires CanRelease(l1[..], FirstPage(virt_base), PastPage(virt_base, size))
    modifies heap, l1
    ensures heap.Valid() && Wf(l1[..], heap.tables)
    ensures Released(old(l1[..]), old(heap.tables), l1[..], heap.tables, FirstPage(virt_base),
                     PastPage(virt_base, size), PastPage(virt_base, size))
    ensures Conserved(old(heap.tables), old(heap.pool), heap.tables, heap.pool)
  {
    ghost var p0, p1 := FirstPage(virt_base), PastPage(virt_base, size);
    ghost var l0, t0 := l1[..], heap.tables;
    var addr: int, end := RangeOf(virt_base, size);
    var i: nat := addr / SECT_SIZE;
    ghost var q := p0;
    while true
      invariant p0 <= q < p1 && 256 * i <= q < 256 * i + 256 && (q == p0 || q == 256 * i)
      invariant addr == q * 4096
      invariant heap.Valid() && Wf(l1[..], heap.tables)
      invariant Released(l0, t0, l1[..], heap.tables, p0, q, p1)
      invariant Conserved(t0, old(heap.pool), heap.tables, heap.pool)
      decreases p1 - q
    {
      ghost var qn := ChunkEnd(q, p1);
      RoundStep(i, q, p0, p1);
      var next := SectAddrEnd(addr, end);
      assert Touches(i, p0, p1);
      ReleaseChunk(heap, l1, i, addr, next, l0, t0, p0, q, qn, p1);
      addr, i, q := next, i + 1, qn;
      if addr == end {
        break;
      }
    }
  }

  ghost predicate CanRelease(l1: seq<Word>, p0: nat, p1: nat)
    requires |l1| == 4096
  {
    forall i :: 0 <= i < 4096 && Touches(i, p0, p1) ==> IsTable(l1[i]) || FullChunk(i, p0, p1)
  }

  // ---------------------------------------------------------------- reset_l1pgtable

  ghost predicate UserReaches(l1: seq<Word>, a: Word) {
    exists i :: 0 <= i < |l1| && i < USER_ENTRIES && IsTable(l1[i]) && TableAddr(l1[i]) == a
  }

  /** Empty the user part of a page table and free the second-level tables it led to, and no others. */
  method ResetL1Pgtable(heap: Heap, l1: array<Word>)
    requires heap.Valid() && Wf(l1[..], heap.tables)
    modifies heap, l1
    ensures heap.Valid() && Wf(l1[..], heap.tables)
    ensures forall i :: 0 <= i < 4096 ==> l1[i] == (if i < USER_ENTRIES then 0 else old(l1[i]))
    ensures forall a :: a in heap.tables <==> a in old(heap.tables) && !UserReaches(old(l1[..]), a)
    ensures forall a :: a in heap.tables ==> heap.tables[a] == old(heap.tables[a])
    ensures Conserved(old(heap.tables), old(heap.pool), heap.tables, heap.pool)
  {
    ghost var l0, t0 := l1[..], heap.tables;
    var i := 0;
    while i < USER_ENTRIES
      invariant 0 <= i <= USER_ENTRIES
      invariant heap.Valid() && Wf(l1[..], heap.tables)
      invariant forall k :: 0 <= k < 4096 ==> l1[k] == (if k < i then 0 else l0[k])
      invariant forall a :: a in heap.tables ==> a in t0 && heap.tables[a] == t0[a]
      invariant forall a :: a in t0 ==>
                  (a !in heap.tables <==> exists k :: 0 <= k < i && IsTable(l0[k]) && TableAddr(l0[k]) == a)
      invariant Conserved(t0, old(heap.pool), heap.tables, heap.pool)
    {
      if l1[i] != 0 {
        assert WfEntry(l1[i], heap.tables);
        ghost var la, ta := l1[..], heap.tables;
        if !IsSect(l1[i]) {
          heap.Free(TableAddr(l1[i]));
        }
        UnlinkKeepsWf(la, ta, heap.tables, i);
        l1[i] := 0;
        assert l1[..] == la[i := 0];
      }
      i := i + 1;
    }
  }
}
