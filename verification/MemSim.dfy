/** The paged memory of memsim.c. */
module MemSim {
  import opened Quotients
  import opened Word32

  const MEMORY := 65536

  /** MEMORY_SIZE_SMALL and MEMORY_PTE_ATTRIBUTES_ACTIVE. */
  datatype Build = Build(small: bool, attributes: bool) {
    function Pages(): (n: nat) { if small then 256 else 64 }

    function PageSize(): (n: nat)
      ensures n > 0 && Pages() * n == MEMORY
    {
      if small then 256 else 1024
    }

    function Page(vaddr: nat): (page: nat)
      ensures vaddr < MEMORY ==> page < Pages()
    {
      if small then vaddr / 256 else vaddr / 1024
    }

    function Offset(vaddr: nat): (offs: nat)
      ensures offs < PageSize() && vaddr == Page(vaddr) * PageSize() + offs
    {
      if small then vaddr % 256 else vaddr % 1024
    }

    /** The frame that holds a page: the virtual pages are laid out backwards. */
    function Frame(page: nat): (frame: nat)
      requires page < Pages()
      ensures frame < Pages()
    {
      Pages() - 1 - page
    }

    predicate Mapped(page: nat) { attributes ==> !(5 <= page <= 8) }

    predicate ReadOnly(page: nat) { attributes && 10 <= page <= 12 }

    predicate Writable(page: nat) { Mapped(page) && !ReadOnly(page) }

    /** The entry of a page: the frame number above the shift, then the RWX pattern and the valid bit. */
    function Entry(page: nat): (pte: nat)
      requires page < Pages()
      ensures pte < MEMORY
    {
      Frame(page) * PageSize() + (if ReadOnly(page) then 2 else 0) + (if attributes && Mapped(page) then 1 else 0)
    }

    lemma EntryFields(page: nat)
      requires page < Pages()
      ensures Page(Entry(page)) == Frame(page) == (if small then 255 else 63) - page
      ensures attributes ==>
                (Entry(page) % 2 == 1 <==> Mapped(page)) && Entry(page) / 2 % 4 == if ReadOnly(page) then 1 else 0
    {
      var low := (if ReadOnly(page) then 2 else 0) + (if attributes && Mapped(page) then 1 else 0);
      if small {
        Fields(Frame(page), low);
      } else {
        Fields(4 * Frame(page), low);
        Over1024(Frame(page), low);
      }
    }

    static lemma Fields(f: nat, low: nat)
      requires low < 4
      ensures (256 * f + low) / 256 == f && (256 * f + low) % 2 == low % 2 && (256 * f + low) / 2 % 4 == low / 2
    {
      Over256(f, low);
      assert 256 * f + low == 2 * (128 * f + low / 2) + low % 2;
      Over2(128 * f + low / 2, low % 2);
      Over4(32 * f, low / 2);
    }
  }

  /** One store_byte. */
  datatype Store = Store(vaddr: Word, byte: Byte) {
    /** It reaches byte a of the flat memory, and is let through. */
    predicate Hits(build: Build, a: nat) {
      vaddr % MEMORY == a && build.Writable(build.Page(a))
    }
  }

  /** The flat memory after a store: one byte changes, or none. */
  function Stored(build: Build, flat: seq<Byte>, store: Store): (after: seq<Byte>)
    requires |flat| == MEMORY
    ensures |after| == MEMORY
    ensures forall a :: 0 <= a < MEMORY ==> after[a] == if store.Hits(build, a) then store.byte else flat[a]
  {
    var a := store.vaddr % MEMORY;
    if build.Writable(build.Page(a)) then flat[a := store.byte] else flat
  }

  function AllStored(build: Build, flat: seq<Byte>, stores: seq<Store>): (after: seq<Byte>)
    requires |flat| == MEMORY
    ensures |after| == MEMORY
  {
    if stores == [] then flat
    else Stored(build, AllStored(build, flat, stores[..|stores| - 1]), stores[|stores| - 1])
  }

  /** After any stores, a byte is what the last one that reached it wrote, or what it was if none did. */
  lemma {:induction false} LastStoreWins(build: Build, flat: seq<Byte>, stores: seq<Store>, a: nat)
    requires |flat| == MEMORY && a < MEMORY
    ensures (forall k :: 0 <= k < |stores| ==> !stores[k].Hits(build, a)) ==>
              AllStored(build, flat, stores)[a] == flat[a]
    ensures forall k :: 0 <= k < |stores| && stores[k].Hits(build, a)
                        && (forall m :: k < m < |stores| ==> !stores[m].Hits(build, a))
                        ==> AllStored(build, flat, stores)[a] == stores[k].byte
  {
    if stores != [] {
      LastStoreWins(build, flat, stores[..|stores| - 1], a);
    }
  }

  const RWX_PATTERN := 0
  const R_PATTERN := 1
  const W_PATTERN := 2
  const X_PATTERN := 3

  class Memory {
    const build: Build
    var page_table: array<nat>
    var main_mem: array2<Byte>

    ghost predicate Shaped()
      reads this
    {
      page_table.Length == build.Pages() && main_mem.Length0 == build.Pages() && main_mem.Length1 == build.PageSize()
    }

    ghost predicate Ready()
      reads this, page_table
    {
      Shaped() && forall i :: 0 <= i < build.Pages() ==> page_table[i] == build.Entry(i)
    }

    function ByteAt(vaddr: nat): Byte
      requires Shaped() && vaddr < MEMORY
      reads this, main_mem
    {
      main_mem[build.Frame(build.Page(vaddr)), build.Offset(vaddr)]
    }

    /** The memory as one array of 64 KB. */
    ghost function Flat(): (bytes: seq<Byte>)
      requires Shaped()
      reads this, main_mem
      ensures |bytes| == MEMORY && forall a :: 0 <= a < MEMORY ==> bytes[a] == ByteAt(a)
    {
      seq(MEMORY, a requires 0 <= a < MEMORY && Shaped() reads this, main_mem => ByteAt(a))
    }

    /** The arrays, and init_page_table. */
    constructor (build: Build)
      ensures this.build == build && Ready() && fresh(page_table) && fresh(main_mem)
      ensures forall a :: 0 <= a < MEMORY ==> Flat()[a] == 0
    {
      this.build := build;
      page_table := new nat[build.Pages()](i => 0);
      main_mem := new Byte[build.Pages(), build.PageSize()]((i, j) => 0);
      new;
      InitPageTable();
    }

    /** The fields of an entry are apart, so each |= of the source adds. */
    method InitPageTable()
      requires Shaped()
      modifies page_table
      ensures Ready()
    {
      var i := 0;
      while i < build.Pages()
        invariant 0 <= i <= build.Pages() && forall k :: 0 <= k < i ==> page_table[k] == build.Entry(k)
      {
        page_table[i] := (build.Pages() - 1 - i) * build.PageSize();
        if build.attributes {
          if 10 <= i <= 12 {
            page_table[i] := page_table[i] + R_PATTERN * 2;
          }
          if !(5 <= i <= 8) {
            page_table[i] := page_table[i] + 1;
          }
        }
        i := i + 1;
      }
    }

    /** virt_to_pte: the address is cut to 16 bits. */
    method VirtToPte(vaddr: Word) returns (rc: int, pte: nat)
      requires Ready()
      ensures rc == 0 && pte == build.Entry(build.Page(vaddr % MEMORY))
    {
      rc, pte := -1, 0;
      var page_table_n := build.Page(vaddr % MEMORY) % 256;
      if page_table_n >= build.Pages() {
        return;
      }
      pte := page_table[page_table_n];
      rc := 0;
    }

    /** get_byte reads the flat memory at the address modulo 64 KB, unless the page is invalid. */
    method GetByte(vaddr: Word) returns (rc: int, byte: Byte)
      requires Ready()
      ensures rc == if build.Mapped(build.Page(vaddr % MEMORY)) then 0 else -1
      ensures rc == 0 ==> byte == Flat()[vaddr % MEMORY]
      ensures rc == -1 <==> build.attributes && 5 <= build.Page(vaddr % MEMORY) <= 8
    {
      byte := 0;
      var pte;
      rc, pte := VirtToPte(vaddr);
      if rc < 0 {
        return;
      }
      build.EntryFields(build.Page(vaddr % MEMORY));
      if build.attributes {
        if pte % 2 == 0 {
          return -1, byte;
        }
        var bitsToCheck := pte / 2 % 4;
        if !(bitsToCheck == RWX_PATTERN || bitsToCheck == R_PATTERN || bitsToCheck == X_PATTERN) {
          return -1, byte;
        }
      }
      SameOffset(build, vaddr);
      var page_n, offs := build.Page(pte) % 256, build.Offset(vaddr);
      byte := main_mem[page_n, offs];
    }

    /** store_byte writes one byte of the flat memory, or nothing. */
    method StoreByte(vaddr: Word, byte: Byte) returns (rc: int)
      requires Ready()
      modifies main_mem
      ensures rc == if build.Writable(build.Page(vaddr % MEMORY)) then 0 else -1
      ensures Flat() == Stored(build, old(Flat()), Store(vaddr, byte))
      ensures var page := build.Page(vaddr % MEMORY);
              rc == -1 <==> build.attributes && (5 <= page <= 8 || 10 <= page <= 12)
    {
      var pte;
      rc, pte := VirtToPte(vaddr);
      if rc < 0 {
        return;
      }
      build.EntryFields(build.Page(vaddr % MEMORY));
      if build.attributes {
        if pte % 2 == 0 {
          return -1;
        }
        var bitsToCheck := pte / 2 % 4;
        if !(bitsToCheck == RWX_PATTERN || bitsToCheck == W_PATTERN) {
          return -1;
        }
      }
      SameOffset(build, vaddr);
      var page_n, offs := build.Page(pte) % 256, build.Offset(vaddr);
      PutByte(vaddr % MEMORY, page_n, offs, byte);
    }

    /** Writing the place of address a changes that byte of the flat memory and no other. */
    method PutByte(a: nat, page_n: nat, offs: nat, byte: Byte)
      requires Shaped() && a < MEMORY && page_n == build.Frame(build.Page(a)) && offs == build.Offset(a)
      modifies main_mem
      ensures Flat() == old(Flat())[a := byte]
    {
      main_mem[page_n, offs] := byte;
      forall b | 0 <= b < MEMORY && b != a
        ensures build.Frame(build.Page(b)) != page_n || build.Offset(b) != offs
      {
        Apart(build, b, a);
      }
    }

    /** The loop of main that fills the memory. */
    method Fill()
      requires Ready() && !build.attributes
      modifies main_mem
      ensures Ready() && forall a :: 0 <= a < MEMORY ==> Flat()[a] == a % 256
    {
      var vaddr := 0;
      while vaddr < build.Pages() * build.PageSize()
        invariant 0 <= vaddr <= MEMORY && Ready() && forall a :: 0 <= a < vaddr ==> Flat()[a] == a % 256
      {
        var rc := StoreByte(vaddr, vaddr % 256);
        vaddr := vaddr + 1;
      }
    }

    /** test_mem. */
    method TestMem() returns (rc: int)
      requires Ready()
      ensures rc == 0 <==> !build.attributes && forall a :: 0 <= a < MEMORY ==> Flat()[a] == a % 256
      ensures rc == 0 || rc == -1
    {
      var error_count := 0;
      var vaddr := 0;
      while vaddr < build.Pages() * build.PageSize()
        invariant 0 <= vaddr <= MEMORY && error_count >= 0
        invariant error_count == 0 <==> forall a :: 0 <= a < vaddr ==> Flat()[a] == a % 256
        invariant build.attributes ==> vaddr <= 5 * build.PageSize()
      {
        var ok, byte := GetByte(vaddr);
        if ok < 0 {
          return -1;
        }
        if byte != vaddr % 256 {
          error_count := error_count + 1;
        }
        vaddr := vaddr + 1;
      }
      if error_count > 0 {
        return -1;
      }
      return 0;
    }

    /** main without attributes: the test succeeds. */
    method FillAndTest() returns (rc: int)
      requires Ready() && !build.attributes
      modifies main_mem
      ensures rc == 0
    {
      Fill();
      rc := TestMem();
    }

    /**
      One round of test_mem_2: read and refused for pages 10 to 12, unreadable for 5 to 8, read and written for the
      others.
    */
    method TestAddress(i: nat, vaddr: Word) returns (ok: bool)
      requires Ready() && vaddr < MEMORY
      modifies main_mem
      ensures var page := build.Page(vaddr);
              ok == if 10 <= i <= 12 then build.Mapped(page) && !build.Writable(page)
                    else if 5 <= i <= 8 then !build.Mapped(page) else build.Writable(page)
      ensures forall a :: 0 <= a < MEMORY && !build.Writable(build.Page(a)) ==> Flat()[a] == old(Flat())[a]
    {
      if i == 10 || i == 11 || i == 12 {
        var got, _ := GetByte(vaddr);
        if got < 0 {
          return false;
        }
        var stored := StoreByte(vaddr, 1);
        return stored == -1;
      } else if i == 5 || i == 6 || i == 7 || i == 8 {
        var got, _ := GetByte(vaddr);
        return got == -1;
      } else {
        var got, _ := GetByte(vaddr);
        if got < 0 {
          return false;
        }
        var stored := StoreByte(vaddr, 1);
        return stored >= 0;
      }
    }

    /**
      test_mem_2 passes in the small build and fails in the large one, where page i does not start at i << 8; pages
      that are not writable keep their bytes.
    */
    method TestMem2() returns (rc: int)
      requires Ready() && build.attributes
      modifies main_mem
      ensures rc == if build.small then 0 else -1
      ensures forall a :: 0 <= a < MEMORY && !build.Writable(build.Page(a)) ==> Flat()[a] == old(Flat())[a]
    {
      var i := 0;
      while i < build.Pages()
        invariant Ready() && 0 <= i <= build.Pages() && (!build.small ==> i <= 5)
        invariant forall a :: 0 <= a < MEMORY && !build.Writable(build.Page(a)) ==> Flat()[a] == old(Flat())[a]
      {
        var j := 0;
        while j < build.PageSize()
          invariant Ready() && 0 <= j <= build.PageSize() && (!build.small ==> i < 5 || j == 0)
          invariant forall a :: 0 <= a < MEMORY && !build.Writable(build.Page(a)) ==> Flat()[a] == old(Flat())[a]
        {
          var vaddr := i * 256 + j * 8 % 256;
          assert build.Page(vaddr) == if build.small then i else i / 4;
          var ok := TestAddress(i, vaddr);
          if !ok {
            return -1;
          }
          j := j + 1;
        }
        i := i + 1;
      }
      return 0;
    }
  }

  /** Where a byte of the flat memory is: the frames are in the reverse order of the pages. */
  lemma PlaceOf(build: Build, a: nat)
    requires a < MEMORY
    ensures build.small ==> build.Frame(build.Page(a)) == 255 - a / 256 && build.Offset(a) == a % 256
    ensures !build.small ==> build.Frame(build.Page(a)) == 63 - a / 1024 && build.Offset(a) == a % 1024
  {
  }

  lemma SameOffset(build: Build, vaddr: nat)
    ensures build.Offset(vaddr) == build.Offset(vaddr % MEMORY)
  {
    var q, r := vaddr / MEMORY, vaddr % MEMORY;
    if build.small {
      Over256(256 * q + r / 256, r % 256);
    } else {
      Over1024(64 * q + r / 1024, r % 1024);
    }
  }

  /** Two addresses never share a byte. */
  lemma Apart(build: Build, a: nat, b: nat)
    requires a < MEMORY && b < MEMORY && a != b
    ensures build.Frame(build.Page(a)) != build.Frame(build.Page(b)) || build.Offset(a) != build.Offset(b)
  {
  }
}
