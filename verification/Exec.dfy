/** exec: replacing the image of a process (setup_proc_image_replace), and the program break inside it (do_sbrk). */
module Exec {
  import opened Word32
  import PT = PageTable
  import opened UnmapPages
  import opened Frames
  import opened Sequences
  import opened UserSpace
  import AP = ArgPage

  const HEAP_SIZE_LIMIT := 0x8000_0000

  /** Refused: the arguments do not fit and nothing happened. Stopped: memory ran out and the kernel halted. */
  datatype Outcome = Refused | Stopped | Replaced

  /** References to f other than those of page list `pages`. */
  function Others(ref: map<nat, nat>, pages: seq<nat>, f: nat): int
    requires f in ref
  {
    var n: int := ref[f];
    if f in pages then n - 1 else n
  }

  /** The tables that are not behind a user entry of l are all there, word for word. */
  ghost predicate TablesKept(l: seq<Word>, t: PT.Tables, t': PT.Tables) {
    forall a :: a in t && !UserReaches(l, a) ==> a in t' && t'[a] == t[a]
  }

  /** A page table that shares no table with the user part of l walks as before, everywhere. */
  lemma Isolated(l: seq<Word>, t: PT.Tables, t': PT.Tables, o: seq<Word>)
    requires TablesKept(l, t, t') && PT.WfTables(t') && PT.Wf(o, t)
    requires forall i :: 0 <= i < 4096 && PT.IsTable(o[i]) ==> !UserReaches(l, PT.TableAddr(o[i]))
    ensures PT.Wf(o, t')
    ensures forall i, j :: 0 <= i < 4096 && 0 <= j < 256 ==> PT.LeafAt(o, t', i, j) == PT.LeafAt(o, t, i, j)
  {
    forall i | 0 <= i < 4096
      ensures PT.WfEntry(o[i], t')
      ensures forall j :: 0 <= j < 256 ==> PT.LeafAt(o, t', i, j) == PT.LeafAt(o, t, i, j)
    {
      assert PT.WfEntry(o[i], t);
    }
  }

  /** What resetting the page table and releasing the pages leaves to build the new image on. */
  method DiscardImage(heap: PT.Heap, frames: FrameTable, pcb: Pcb, lay: Layout)
    requires heap.Valid() && frames.Valid() && PT.Wf(pcb.pgtable[..], heap.tables)
    requires NoDup(pcb.pages) && forall f :: f in pcb.pages ==> f in frames.refcount && frames.refcount[f] > 0
    modifies heap, frames`free, frames`refcount, pcb`pages, pcb`pageCount, pcb`stackTop, pcb.pgtable
    ensures pcb.pages == [] && pcb.pageCount == lay.stackPages && pcb.stackTop == PT.KERNEL_VIRT_ADDR - PAGE_SIZE
    ensures Building(heap, frames, pcb, lay, Base(heap.tables, frames.free, frames.refcount))
    ensures TablesKept(old(pcb.pgtable[..]), old(heap.tables), heap.tables)
    ensures forall a :: a in heap.tables <==> a in old(heap.tables) && !UserReaches(old(pcb.pgtable[..]), a)
    ensures frames.refcount.Keys == old(frames.refcount.Keys)
    ensures forall f :: f in frames.refcount ==> frames.refcount[f] == Others(old(frames.refcount), old(pcb.pages), f)
    ensures forall f :: f in frames.free <==>
              f in old(frames.free) || (f in old(pcb.pages) && frames.refcount[f] == 0)
    ensures forall i :: PT.USER_ENTRIES <= i < 4096 ==> pcb.pgtable[i] == old(pcb.pgtable[i])
    ensures PT.Conserved(old(heap.tables), old(heap.pool), heap.tables, heap.pool)
  {
    pcb.pageCount := lay.stackPages;
    pcb.stackTop := PT.KERNEL_VIRT_ADDR - PAGE_SIZE;
    ResetL1Pgtable(heap, pcb.pgtable);
    ReleaseProcPages(frames, pcb);
    TookNone(frames.free, frames.refcount);
  }

  /** A complete image: exactly the pages of its layout, each behind a frame of its own from the page list. */
  ghost predicate Image(heap: PT.Heap, frames: FrameTable, pcb: Pcb, lay: Layout)
    reads heap, frames, pcb, pcb.pgtable
  {
    && heap.Valid() && frames.Valid() && PT.Wf(pcb.pgtable[..], heap.tables) && NoUserSections(pcb.pgtable[..])
    && NoDup(pcb.pages) && Laid(pcb.pgtable[..], heap.tables, lay, pcb.pages)
    && (forall f :: f in pcb.pages ==> f in frames.refcount && frames.refcount[f] > 0)
    && |pcb.pages| == pcb.pageCount == lay.PageCount() && pcb.stackTop == PT.KERNEL_VIRT_ADDR - PAGE_SIZE
    && pcb.heapBase == pcb.heapPointer == lay.HeapStart() * PAGE_SIZE
    && pcb.entry == lay.entryPage * PAGE_SIZE
  }

  /** Only the process's own references have changed. */
  ghost predicate OthersKept(ref: map<nat, nat>, pages: seq<nat>, ref': map<nat, nat>, pages': seq<nat>) {
    && ref'.Keys == ref.Keys
    && forall f :: f in ref ==> Others(ref', pages', f) == Others(ref, pages, f)
  }

  /**
    The tables are those behind the user part of l', each in use, and besides them those that were not behind the user
    part of l.
  */
  ghost predicate NoStrayTable(l: seq<Word>, t: PT.Tables, l': seq<Word>, t': PT.Tables)
    requires |l'| == 4096
  {
    && (forall a :: a in t' <==> UserReaches(l', a) || (a in t && !UserReaches(l, a)))
    && (forall a :: a in t && !UserReaches(l, a) ==> !UserReaches(l', a))
    && NoEmptyUserTable(l', t')
  }

  ghost predicate SameKernelPart(l: seq<Word>, l': seq<Word>) {
    |l| == |l'| == 4096 && forall i :: PT.USER_ENTRIES <= i < 4096 ==> l'[i] == l[i]
  }

  /** A new image, laid out in frames `pages`, in place of the one of l. */
  ghost predicate TablesReplaced(l: seq<Word>, t: PT.Tables, l': seq<Word>, t': PT.Tables, lay: Layout, pages: seq<nat>)
  {
    && SameKernelPart(l, l') && PT.Wf(l', t') && lay.Fits() && Laid(l', t', lay, pages) && |pages| == lay.PageCount()
    && TablesKept(l, t, t') && NoStrayTable(l, t, l', t')
  }

  lemma InstalledTables(l: seq<Word>, t: PT.Tables, base: PT.Tables, l': seq<Word>, t': PT.Tables)
    requires |l'| == 4096 && TablesKept(l, t, base) && Beside(base, l', t') && PT.Wf(l', t')
    requires forall a :: a in base <==> a in t && !UserReaches(l, a)
    ensures TablesKept(l, t, t') && NoStrayTable(l, t, l', t')
  {
    forall a | UserReaches(l', a)
      ensures a in t' && a !in base
    {
      var i :| 0 <= i < PT.USER_ENTRIES && PT.IsTable(l'[i]) && PT.TableAddr(l'[i]) == a;
      assert PT.WfEntry(l'[i], t');
    }
  }

  /** Dropping one list of pages and taking another leaves all other references alone. */
  lemma InstalledRefs(ref: map<nat, nat>, pages: seq<nat>, base: Base, free': set<nat>, ref': map<nat, nat>,
                      pages': seq<nat>)
    requires base.ref.Keys == ref.Keys && (forall f :: f in ref ==> base.ref[f] == Others(ref, pages, f))
    requires Took(base.free, base.ref, free', ref', pages')
    ensures OthersKept(ref, pages, ref', pages')
    ensures NoDup(pages') && forall f :: f in pages' ==> f in base.free && (f in ref' ==> ref'[f] > 0)
  {
  }

  /** Discard the old image and allocate the new one. */
  method InstallImage(heap: PT.Heap, frames: FrameTable, pcb: Pcb, lay: Layout) returns (ok: bool)
    requires heap.Valid() && frames.Valid() && PT.Wf(pcb.pgtable[..], heap.tables) && lay.Fits()
    requires NoDup(pcb.pages) && forall f :: f in pcb.pages ==> f in frames.refcount && frames.refcount[f] > 0
    modifies heap, frames`free, frames`refcount, pcb, pcb.pgtable
    ensures !ok ==> heap.pool == {} || frames.free == {}
    ensures ok ==> Image(heap, frames, pcb, lay)
    ensures ok ==> OthersKept(old(frames.refcount), old(pcb.pages), frames.refcount, pcb.pages)
    ensures ok ==> TablesReplaced(old(pcb.pgtable[..]), old(heap.tables), pcb.pgtable[..], heap.tables, lay, pcb.pages)
    ensures ok ==> frames.ram == old(frames.ram)
    ensures ok ==> forall f :: f in pcb.pages ==> f in old(frames.free) || f in old(pcb.pages)
    ensures ok ==> forall f :: f in frames.free ==> f in old(frames.free) || f in old(pcb.pages)
  {
    DiscardImage(heap, frames, pcb, lay);
    ghost var base := Base(heap.tables, frames.free, frames.refcount);
    ok := AllocateImage(heap, frames, pcb, lay, base);
    if ok {
      InstalledTables(old(pcb.pgtable[..]), old(heap.tables), base.t, pcb.pgtable[..], heap.tables);
      InstalledRefs(old(frames.refcount), old(pcb.pages), base, frames.free, frames.refcount, pcb.pages);
    }
  }

  /** The strings an image finds in its argument page. */
  ghost predicate Receives(page: seq<Byte>, args: seq<AP.CString>, env: seq<AP.CString>) {
    && |page| == PAGE_SIZE
    && AP.WordAt(page, 0) == |args|
    && AP.ReadArgs(page, PT.KERNEL_VIRT_ADDR - PAGE_SIZE, 0, AP.WordAt(page, 0)) == args
    && AP.ReadEnv(page, PT.KERNEL_VIRT_ADDR - PAGE_SIZE, AP.WordAt(page, 0)) == env
  }

  /** Copy the argument block to the frame behind the last user page, and relocate it there. */
  method InstallArguments(frames: FrameTable, f: nat, block: seq<Byte>, base: Word, ghost args: seq<AP.CString>,
                          ghost env: seq<AP.CString>)
    requires frames.Valid() && f in frames.ram && base != 0
    requires AP.IsArgPage(block, base, args + env, |args|)
    requires (forall k :: 0 <= k < |args| ==> AP.NoNul(args[k])) && (forall k :: 0 <= k < |env| ==> AP.NoNul(env[k]))
    modifies frames`ram
    ensures frames.Valid() && f in frames.ram && frames.ram == old(frames.ram)[f := frames.ram[f]]
    ensures Receives(frames.ram[f], args, env)
  {
    var page := new Byte[PAGE_SIZE];
    var envc := AP.PostSetupImage(block, base, page, PT.KERNEL_VIRT_ADDR - PAGE_SIZE, args + env, |args|);
    AP.PageReadsBack(page[..], PT.KERNEL_VIRT_ADDR - PAGE_SIZE, args, env);
    frames.WriteFrame(f, page[..]);
  }

  /**
    Replace the image of a process. The new image has exactly the pages of its layout, each behind a frame of its
    own; the argument page reads back as the given strings; and no other reference to any frame has changed.
  */
  method SetupProcImageReplace(heap: PT.Heap, frames: FrameTable, pcb: Pcb, lay: Layout, kmem: array<Byte>, base: Word,
                               argc: nat, argv: AP.Option<seq<AP.CString>>, envp: AP.Option<seq<AP.CString>>,
                               name: AP.CString)
    returns (r: Outcome)
    requires heap.Valid() && frames.Valid() && PT.Wf(pcb.pgtable[..], heap.tables) && lay.Fits()
    requires NoDup(pcb.pages) && forall f :: f in pcb.pages ==> f in frames.refcount && frames.refcount[f] > 0
    requires argv.Some? ==> |argv.value| == argc
    requires |name| < AP.PROC_NAME_LEN
    requires PAGE_SIZE <= kmem.Length && base + kmem.Length <= TWO32 && base != 0 && kmem as object != pcb.pgtable
    requires AP.Size(AP.Arguments(argc, argv, name) + AP.Environment(envp)) <= kmem.Length
    requires AP.NoNul(name) && (argv.Some? ==> forall k :: 0 <= k < argc ==> AP.NoNul(argv.value[k]))
    requires envp.Some? ==> forall k :: 0 <= k < |envp.value| ==> AP.NoNul(envp.value[k])
    modifies heap, frames, pcb, pcb.pgtable, kmem
    ensures argc > 0 && argv.None? ==> r == Refused
    ensures argc > 0 && argv.Some? ==>
              (r == Refused <==> 8 + 5 * argc + AP.Chars(argv.value) +
                                 (if envp.None? then 0 else 5 * |envp.value| + AP.Chars(envp.value)) > PAGE_SIZE)
    ensures argc == 0 ==>
              (r == Refused <==>
               13 + |name| + (if envp.None? then 0 else 5 * |envp.value| + AP.Chars(envp.value)) > PAGE_SIZE)
    ensures r == Refused ==> unchanged(heap, frames, pcb, pcb.pgtable)
    ensures r == Stopped ==> heap.pool == {} || frames.free == {}
    ensures r == Replaced ==> Image(heap, frames, pcb, lay)
    ensures r == Replaced ==> frames.refcount.Keys == old(frames.refcount.Keys)
    ensures r == Replaced ==>
              forall f :: f in frames.refcount ==>
                frames.refcount[f] == old(frames.refcount)[f] - (if f in old(pcb.pages) then 1 else 0)
                                      + (if f in pcb.pages then 1 else 0)
    ensures r == Replaced ==>
              TablesReplaced(old(pcb.pgtable[..]), old(heap.tables), pcb.pgtable[..], heap.tables, lay, pcb.pages)
    ensures r == Replaced ==> forall f :: f in pcb.pages ==> f in old(frames.free) || f in old(pcb.pages)
    ensures r == Replaced ==> forall f :: f in frames.free ==> f in old(frames.free) || f in old(pcb.pages)
    ensures r == Replaced ==>
              var f := pcb.pages[lay.PageCount() - 1];
              && f in frames.ram && frames.ram == old(frames.ram)[f := frames.ram[f]]
              && Receives(frames.ram[f], if argc == 0 then [name] else argv.value,
                          if envp.None? then [] else envp.value)
  {
    ghost var args, env := AP.Arguments(argc, argv, name), AP.Environment(envp);
    AP.PassedStrings(argc, argv, envp, name);
    var fits := AP.PreserveArgsAndEnv(kmem, base, argc, argv, envp, name);
    if !fits {
      return Refused;
    }
    var block := kmem[..PAGE_SIZE];
    var ok := InstallImage(heap, frames, pcb, lay);
    if !ok {
      return Stopped;
    }
    InstallArguments(frames, pcb.pages[lay.PageCount() - 1], block, base, args, env);
    return Replaced;
  }

  // ---------------------------------------------------------------- do_sbrk

  /** A 32-bit signed sum. */
  function Int32(x: int): (w: int)
    ensures -0x8000_0000 <= w < 0x8000_0000 && exists k :: w == x + TWO32 * k
  {
    assert (x + 0x8000_0000) % TWO32 - 0x8000_0000 == x + TWO32 * -((x + 0x8000_0000) / TWO32);
    (x + 0x8000_0000) % TWO32 - 0x8000_0000
  }

  /**
    One call: if the new size is at least 0 and below heapSize the break moves by the increment and the old one is
    returned, otherwise the break stays and -1 is returned.
  */
  ghost predicate SbrkStep(base: int, heapSize: int, brk: int, increment: int, ret: int, brk': int) {
    if 0 <= brk - base + increment < heapSize then ret == brk && brk' == brk + increment else ret == -1 && brk' == brk
  }

  /** Move the break; -1 if the heap would become negative or reach its size, otherwise the old break. */
  method DoSbrk(pcb: Pcb, increment: int, heapSize: int) returns (ret: int)
    requires -0x8000_0000 <= increment < 0x8000_0000 && 0 < heapSize < HEAP_SIZE_LIMIT
    requires pcb.heapBase <= pcb.heapPointer < pcb.heapBase + heapSize
    modifies pcb`heapPointer
    ensures SbrkStep(pcb.heapBase, heapSize, old(pcb.heapPointer), increment, ret, pcb.heapPointer)
    ensures 0 <= old(pcb.heapPointer) + increment - pcb.heapBase < heapSize ==>
              ret == old(pcb.heapPointer) && pcb.heapPointer - old(pcb.heapPointer) == increment
    ensures !(0 <= old(pcb.heapPointer) + increment - pcb.heapBase < heapSize) ==>
              ret == -1 && pcb.heapPointer == old(pcb.heapPointer)
  {
    ret := pcb.heapPointer;
    var cur_sz := pcb.heapPointer - pcb.heapBase;
    var req_sz := Int32(cur_sz + increment);
    if req_sz >= heapSize || req_sz < 0 {
      return -1;
    }
    pcb.heapPointer := pcb.heapPointer + increment;
  }

  /** Calls with these increments return rets; brks[k] is the break before call k, and after the one before it. */
  ghost predicate SbrkRun(base: int, heapSize: int, increments: seq<int>, rets: seq<int>, brks: seq<int>) {
    && |rets| == |increments| && |brks| == |increments| + 1 && base <= brks[0] < base + heapSize
    && forall k :: 0 <= k < |increments| ==> SbrkStep(base, heapSize, brks[k], increments[k], rets[k], brks[k + 1])
  }

  lemma {:induction false} BreakInRange(base: int, heapSize: int, increments: seq<int>, rets: seq<int>, brks: seq<int>,
                                        k: nat)
    requires SbrkRun(base, heapSize, increments, rets, brks) && k <= |increments|
    ensures base <= brks[k] < base + heapSize
  {
    if k > 0 {
      BreakInRange(base, heapSize, increments, rets, brks, k - 1);
      assert SbrkStep(base, heapSize, brks[k - 1], increments[k - 1], rets[k - 1], brks[k]);
    }
  }

  /** The sum of the increments that were granted among the first n calls. */
  function Granted(increments: seq<int>, rets: seq<int>, n: nat): int
    requires n <= |increments| == |rets|
  {
    if n == 0 then 0
    else Granted(increments, rets, n - 1) + (if rets[n - 1] != -1 then increments[n - 1] else 0)
  }

  /** The break is its start plus all that was granted. */
  lemma {:induction false} BreakIsSum(base: int, heapSize: int, increments: seq<int>, rets: seq<int>, brks: seq<int>,
                                      n: nat)
    requires SbrkRun(base, heapSize, increments, rets, brks) && n <= |increments| && base >= 0
    ensures brks[n] == brks[0] + Granted(increments, rets, n)
  {
    if n > 0 {
      BreakIsSum(base, heapSize, increments, rets, brks, n - 1);
      BreakInRange(base, heapSize, increments, rets, brks, n - 1);
      assert SbrkStep(base, heapSize, brks[n - 1], increments[n - 1], rets[n - 1], brks[n]);
    }
  }

  lemma {:induction false} BreakGrows(base: int, heapSize: int, increments: seq<int>, rets: seq<int>, brks: seq<int>,
                                      j: nat, k: nat)
    requires SbrkRun(base, heapSize, increments, rets, brks) && j <= k <= |increments|
    requires forall i :: 0 <= i < |increments| ==> increments[i] >= 0
    ensures brks[j] <= brks[k]
  {
    if j < k {
      BreakGrows(base, heapSize, increments, rets, brks, j, k - 1);
      assert SbrkStep(base, heapSize, brks[k - 1], increments[k - 1], rets[k - 1], brks[k]);
    }
  }

  /** Blocks granted by a program that only asks for more lie one after the other, inside the heap. */
  lemma GrantedApart(base: int, heapSize: int, increments: seq<int>, rets: seq<int>, brks: seq<int>, j: nat, k: nat)
    requires SbrkRun(base, heapSize, increments, rets, brks) && j < k < |increments| && base >= 0
    requires (forall i :: 0 <= i < |increments| ==> increments[i] >= 0) && rets[j] != -1 && rets[k] != -1
    ensures base <= rets[j] && rets[j] + increments[j] <= rets[k] && rets[k] + increments[k] < base + heapSize
  {
    assert SbrkStep(base, heapSize, brks[j], increments[j], rets[j], brks[j + 1]);
    assert SbrkStep(base, heapSize, brks[k], increments[k], rets[k], brks[k + 1]);
    BreakInRange(base, heapSize, increments, rets, brks, j);
    BreakGrows(base, heapSize, increments, rets, brks, j + 1, k);
  }

  /** After any calls, every byte below the break lies in a heap page of the image. */
  lemma BreakStaysInHeap(lay: Layout, heapSize: int, increments: seq<int>, rets: seq<int>, brks: seq<int>, k: nat)
    requires lay.heapPages == (heapSize + PAGE_SIZE - 1) / PAGE_SIZE
    requires SbrkRun(lay.HeapStart() * PAGE_SIZE, heapSize, increments, rets, brks) && k <= |increments|
    ensures lay.HeapStart() * PAGE_SIZE <= brks[k]
    ensures forall a: nat :: lay.HeapStart() * PAGE_SIZE <= a <= brks[k] ==> lay.InHeap(a / PAGE_SIZE)
  {
    BreakInRange(lay.HeapStart() * PAGE_SIZE, heapSize, increments, rets, brks, k);
    forall a: nat | lay.HeapStart() * PAGE_SIZE <= a <= brks[k]
      ensures lay.InHeap(a / PAGE_SIZE)
    {
    }
  }
}
