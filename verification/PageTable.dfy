/**
  Two-level ARM page tables (Short-descriptor format, section B3.5 of the ARMv7-A Architecture
  Reference Manual), as mmu.c builds and tears them down.

  The first-level table is an array of 4096 descriptor words. Second-level tables are blocks of 256
  words on the kernel heap, addressed by the upper bits of a first-level descriptor. `Leaf` is the
  hardware's table walk and is the only specification the operations are proved against.
*/
module PageTable {
  import opened Quotients
  import opened Word32

  const SECT_SIZE := 0x10_0000
  const PAGE_COUNT := 0x10_0000
  const KERNEL_VIRT_ADDR := 0xC000_0000
  const USER_ENTRIES := 3072

  // Attribute bits or-ed into a descriptor: the type in bits [1:0], B and C in bits 2 and 3.
  const L1_TABLE_ATTR := 0x001
  const L1_SECT_DCACHE_OFF := 0x0C02
  const L1_SECT_DCACHE_WRITEALLOC := 0x1C0E
  const L2_DCACHE_OFF := 0x032
  const L2_DCACHE_WRITEALLOC := 0x07E

  // ---------------------------------------------------------------- descriptors

  predicate IsTable(e: Word) { e % 4 == 1 }

  predicate IsSect(e: Word) { e % 4 == 2 }

  function TableAddr(e: Word): Word { e - e % 1024 }

  function SectAttr(nocache: bool): Word {
    if nocache then L1_SECT_DCACHE_OFF else L1_SECT_DCACHE_WRITEALLOC
  }

  function PageAttr(nocache: bool): Word {
    if nocache then L2_DCACHE_OFF else L2_DCACHE_WRITEALLOC
  }

  /** A second-level entry is empty or describes a small page (bit 1 set). */
  predicate PageWord(d: Word) { d == 0 || d / 2 % 2 == 1 }

  // ---------------------------------------------------------------- the hardware walk

  /** What the walk finds for one virtual page: nothing, a small page, or a page inside a section. */
  datatype Leaf =
    | Fault
    | SmallPage(frame: nat, attr: nat)
    | SectionPage(frame: nat, attr: nat)

  type Tables = map<Word, seq<Word>>

  function PageLeaf(d: Word): Leaf {
    if d / 2 % 2 == 1 then SmallPage(d / 4096, d % 4096) else Fault
  }

  /** The walk for the page with first-level index i and second-level index j. */
  function LeafAt(l1: seq<Word>, t: Tables, i: nat, j: nat): Leaf
    requires |l1| == 4096 && i < 4096 && j < 256
  {
    var e := l1[i];
    if IsSect(e) then SectionPage(e / SECT_SIZE * 256 + j, e % SECT_SIZE)
    else if IsTable(e) && TableAddr(e) in t && j < |t[TableAddr(e)]| then PageLeaf(t[TableAddr(e)][j])
    else Fault
  }

  /** The walk for a whole virtual address: the physical address, or -1 for a translation fault. */
  function Translate(l1: seq<Word>, t: Tables, va: Word): int
    requires |l1| == 4096
  {
    var leaf := LeafAt(l1, t, va / SECT_SIZE, va / PAGE_SIZE % 256);
    if leaf.Fault? then -1 else leaf.frame * PAGE_SIZE + va % PAGE_SIZE
  }

  // ---------------------------------------------------------------- well-formed tables

  ghost predicate WfTables(t: Tables) {
    forall a :: a in t ==> a % 1024 == 0 && a != 0 && |t[a]| == 256 && forall j :: 0 <= j < 256 ==> PageWord(t[a][j])
  }

  ghost predicate WfEntry(e: Word, t: Tables) {
    e == 0 || IsSect(e) || (IsTable(e) && TableAddr(e) in t)
  }

  ghost predicate Unshared(l1: seq<Word>) {
    forall i, k :: 0 <= i < k < |l1| && IsTable(l1[i]) && IsTable(l1[k]) ==> TableAddr(l1[i]) != TableAddr(l1[k])
  }

  ghost predicate Wf(l1: seq<Word>, t: Tables) {
    && |l1| == 4096
    && WfTables(t)
    && (forall i :: 0 <= i < 4096 ==> WfEntry(l1[i], t))
    && Unshared(l1)
  }

  /** No second-level table in use is entirely empty. */
  ghost predicate NoEmptyTable(l1: seq<Word>, t: Tables)
    requires Wf(l1, t)
  {
    forall i :: 0 <= i < 4096 && IsTable(l1[i]) ==> exists j :: 0 <= j < 256 && t[TableAddr(l1[i])][j] != 0
  }

  ghost predicate Reached(l1: seq<Word>, a: Word) {
    exists i :: 0 <= i < |l1| && IsTable(l1[i]) && TableAddr(l1[i]) == a
  }

  // ---------------------------------------------------------------- the kernel heap, for tables only

  class Heap {
    var tables: Tables
    var pool: set<Word>   // free aligned blocks

    ghost predicate Valid()
      reads this
    {
      && WfTables(tables)
      && pool !! tables.Keys
      && forall a :: a in pool ==> a % 1024 == 0 && a != 0
    }

    /** memalign(1 KB, 1 KB) followed by memset: NULL (0) when no block is left. */
    method Memalign() returns (a: Word)
      requires Valid()
      modifies this
      ensures Valid()
      ensures a == 0 <==> old(pool) == {}
      ensures a == 0 ==> tables == old(tables) && pool == {}
      ensures a != 0 ==> a in old(pool) && tables == old(tables)[a := seq(256, j => 0)] && pool == old(pool) - {a}
    {
      if pool == {} {
        return 0;
      }
      a :| a in pool;
      pool := pool - {a};
      tables := tables[a := seq(256, j => 0)];
    }

    /** Store one second-level descriptor. */
    method Store(l2: Word, k: nat, d: Word)
      requires Valid() && l2 in tables && k < 256 && PageWord(d)
      modifies this`tables
      ensures Valid()
      ensures tables == old(tables)[l2 := Put(old(tables)[l2], k, d)]
    {
      var row := Put(tables[l2], k, d);
      tables := tables[l2 := row];
    }

    method Free(a: Word)
      requires Valid() && a in tables
      modifies this
      ensures Valid()
      ensures tables == old(tables) - {a} && pool == old(pool) + {a}
    {
      tables := tables - {a};
      pool := pool + {a};
    }
  }

  // ---------------------------------------------------------------- address arithmetic

  /** The nearer of the next section boundary and `end`, where an `end` of 0 stands for 2^32. */
  function SectAddrEnd(addr: Word, end: Word): Word {
    var boundary := Wrap((addr + SECT_SIZE) / SECT_SIZE * SECT_SIZE);
    if Wrap(boundary - 1) < Wrap(end - 1) then boundary else end
  }

  function AlignUp(x: Word): Word {
    Wrap(x + 4095) / 4096 * 4096
  }

  /** First page and page after the last one of a range of `size` bytes from `base`. */
  function FirstPage(base: Word): nat { base / PAGE_SIZE }

  function PastPage(base: Word, size: Word): nat { (base + size + 4095) / PAGE_SIZE }

  lemma RangeEnd(base: Word, size: Word)
    requires FirstPage(base) < PastPage(base, size) <= PAGE_COUNT
    ensures var addr := base - base % 4096;
            var length := AlignUp(Wrap(size + base % 4096));
            && Wrap(addr + length) == Wrap(PastPage(base, size) * 4096)
            && addr == FirstPage(base) * 4096
            && 256 * (addr / SECT_SIZE) <= FirstPage(base) < 256 * (addr / SECT_SIZE) + 256
  {
  }

  /** Where the loops over a range start and end: its first page, and the page after its last, modulo 2^32. */
  method RangeOf(virt_base: Word, size: Word) returns (addr: Word, end: Word)
    requires FirstPage(virt_base) < PastPage(virt_base, size) <= PAGE_COUNT
    ensures addr == FirstPage(virt_base) * 4096 && end == Wrap(PastPage(virt_base, size) * 4096)
    ensures 256 * (addr / SECT_SIZE) <= FirstPage(virt_base) < 256 * (addr / SECT_SIZE) + 256
  {
    RangeEnd(virt_base, size);
    addr := virt_base - virt_base % 4096;
    end := Wrap(addr + AlignUp(Wrap(size + virt_base % 4096)));
  }

  lemma SectAddrEndIs(q: nat, p1: nat)
    requires q < p1 <= PAGE_COUNT
    ensures SectAddrEnd(q * 4096, Wrap(p1 * 4096)) == Wrap(ChunkEnd(q, p1) * 4096)
  {
    NextBoundary(q);
  }

  /** The section boundary after page q. */
  lemma NextBoundary(q: nat)
    requires q < PAGE_COUNT
    ensures (q * 4096 + SECT_SIZE) / SECT_SIZE * SECT_SIZE == (q / 256 + 1) * 256 * 4096
  {
    var a, b := q / 256, q % 256;
    OverMega(a + 1, 4096 * b);
    assert q * 4096 + SECT_SIZE == SECT_SIZE * (a + 1) + 4096 * b;
  }

  /** The page after those of q..p1 that share q's first-level entry. */
  function ChunkEnd(q: nat, p1: nat): nat {
    if (q / 256 + 1) * 256 < p1 then (q / 256 + 1) * 256 else p1
  }

  lemma NextChunk(q: nat, p1: nat)
    requires q < p1 <= PAGE_COUNT
    ensures var qn := ChunkEnd(q, p1);
            && q < qn <= p1
            && 256 * (q / 256) <= q && qn <= 256 * (q / 256) + 256 && q / 256 < 4096
            && (Wrap(qn * 4096) == Wrap(p1 * 4096) <==> qn == p1)
            && (qn < p1 ==> qn == 256 * (qn / 256) && qn / 256 == q / 256 + 1 && Wrap(qn * 4096) == qn * 4096)
            && (qn == p1 ==> p1 / 256 <= q / 256 + 1)
  {
  }

  // ---------------------------------------------------------------- working entry by entry

  /** Writing one table, reached from entry i only, leaves every other entry's walk alone. */
  lemma OtherEntriesKeepTheirLeaves(l1: seq<Word>, t: Tables, l1': seq<Word>, t': Tables, i: nat)
    requires Wf(l1, t) && i < 4096 && |l1'| == 4096
    requires forall k :: 0 <= k < 4096 && k != i ==> l1'[k] == l1[k]
    requires forall a :: a in t && !(IsTable(l1[i]) && a == TableAddr(l1[i])) ==> a in t' && t'[a] == t[a]
    ensures forall k, j :: 0 <= k < 4096 && k != i && 0 <= j < 256 ==> LeafAt(l1', t', k, j) == LeafAt(l1, t, k, j)
  {
  }

  function Put(s: seq<Word>, k: nat, d: Word): seq<Word>
    requires k < |s|
  {
    s[..k] + [d] + s[k + 1..]
  }

  /** Page-aligned addresses agree modulo 2^32 exactly when their pages do, for pages up to the last one. */
  lemma PageEnd(p: nat, q: nat)
    requires 0 < p <= PAGE_COUNT && 0 < q <= PAGE_COUNT
    ensures Wrap(p * 4096) == Wrap(q * 4096) <==> p == q
  {
  }

  lemma AlignedChunk(i: nat, q: nat, qn: nat)
    requires i < 4096 && 256 * i <= q < qn <= 256 * i + 256
    ensures q * 4096 % SECT_SIZE == 0 && Wrap(qn * 4096) % SECT_SIZE == 0 <==> q == 256 * i && qn == 256 * i + 256
    ensures Wrap(q * 4096 + SECT_SIZE) == Wrap(qn * 4096) <==> qn == q + 256
  {
  }

  /** Pages p0..p1 touch first-level entry i. */
  predicate Touches(i: nat, p0: nat, p1: nat) {
    p0 < p1 && p0 < 256 * i + 256 && 256 * i < p1
  }

  /** The part q..qn of a request p0..p1 that one first-level entry i covers. */
  ghost predicate Chunk(i: nat, p0: nat, q: nat, qn: nat, p1: nat) {
    && i < 4096 && p0 <= q < qn <= p1 <= PAGE_COUNT && 256 * i <= q && qn <= 256 * i + 256
    && (q == p0 || q == 256 * i) && (qn == p1 || qn == 256 * i + 256)
  }

  /** Blocks move between the pool and the tables; none is lost. */
  ghost predicate Conserved(t: Tables, pool: set<Word>, t': Tables, pool': set<Word>) {
    pool' + t'.Keys == pool + t.Keys
  }

  /** One round of a range loop: the chunk from page q, and where it ends. */
  lemma RoundStep(i: nat, q: nat, p0: nat, p1: nat)
    requires p0 <= q < p1 <= PAGE_COUNT && 256 * i <= q < 256 * i + 256 && (q == p0 || q == 256 * i)
    ensures var qn := ChunkEnd(q, p1);
            && Chunk(i, p0, q, qn, p1)
            && SectAddrEnd(q * 4096, Wrap(p1 * 4096)) == Wrap(qn * 4096)
            && (Wrap(qn * 4096) == Wrap(p1 * 4096) <==> qn == p1)
            && (qn < p1 ==> qn == 256 * (i + 1) && Wrap(qn * 4096) == qn * 4096)
  {
    SectAddrEndIs(q, p1);
    NextChunk(q, p1);
  }
}
