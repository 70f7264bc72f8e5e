# SO3 kernel and labs: a verified model

This project models, in Dafny, the parts of the SO3 teaching kernel and of its user programs that carry real invariants,
and proves what they are meant to guarantee.

- **Page tables** (`PageTable`, `MapPages`, `UnmapPages`, `PageTableLaws`). The ARM short-descriptor format (section B3.5 of the
  ARMv7-A Architecture Reference Manual, DDI 0406C). The specification is the hardware's own table walk, page by page (`LeafAt`)
  and address by address (`Translate`). Mapping and unmapping write real descriptor words into a first-level array and into
  second-level tables on a heap; they are proved to change the walk for the pages of the range and for no other page, with the
  32-bit wrap-around of `end` and the mixture of sections and small pages as in the code.
- **User memory of a process** (`Frames`, `UserSpace`, `ArgPage`, `Exec`, `Fork`, `ForkLaws`). Frames with reference counts,
  `allocate_page`, the argument page as bytes, the replacement of an image by exec, the copy of a user space by fork, the layout
  of an image over any number of forks, the isolation of other page tables, and the program break.
- **The process list** (`ProcessTree`, `Processes`, `Waits`). What create, fork, exec, exit and waitpid do, as steps on values whose
  runs are studied, and as methods of a kernel object that updates PCBs, page lists and reference counts in place and refines those
  steps; and waits that sleep, with several callers asleep at once.
- **All memory together** (`Isolation`). The process list with one page table for each process over one heap of second-level tables,
  under every run of create, fork, exec, exit and waitpid: no two user pages of running processes share a frame.
- **Page replacement** (`PageBits`, `Lru`, `LruCounters`, `WsClock`). LRU by 8-bit counters against true recency, the classical theorems
  about LRU, and WSClock as it is written.
- **Tic-tac-toe** (`Grid`, `Messages`, `Game`, `Transcript`, `StuckGame`). The line detector for every size of grid, the search of the computer, the text of
  messages and input, and the game manager and the player as two processes over two pipes, under every interleaving.
- **The memory simulator** (`MemSim`). A paged memory with permissions that refines a flat array of 64 KB, in every build.

`Word32` holds bytes, 32-bit words and wrapping sums; `Quotients` and `Sequences` hold helper facts on division and sequences.

## Where the code does not do what it says

Each of these is proved for all inputs, with the exact condition where there is one, and with an input on which it happens.

- `release_mapping` empties an entry that lies wholly inside the range without freeing its second-level table: that table is then
  allocated and unreachable (`ReleaseStrands`, and `CreateThenRelease` for when mapping and unmapping restores the heap;
  `ATableIsLost` and `OneMegabyteAside` are inputs).
- `create_mapping` likewise loses the second-level table it puts a section over (`CreateStrands`, `ATableIsLost`).
- `virt_to_phys_pt` says it is valid for any virtual address. It is right exactly for mapped addresses that are behind small pages or
  in the first page of a section, since it keeps only 12 offset bits (`VirtToPhysIsTranslate`, `SecondPageOfSection`).
- `duplicate_user_space` unmaps the transitional page in the running process only. A page table that shares the second-level table
  behind it, through a copied kernel entry, is left with a freed table exactly if no other page of that table is mapped (`Dangles`,
  in `TablesForked` and `BystanderKept`; `LeftDangling` is an input). A run keeps all page tables in order and apart from each other
  if and only if it has no such fork (`RunKeepsMemInv`).
- `preserve_args_and_env` checks the size after each `strcpy`: it refuses too long strings exactly by having written one past the end
  of its block (`PreserveArgsAndEnv`; one argument fits up to 4083 characters, `OneArgumentFits`).
- A process that was waited for while it still had children is never taken off the list, whatever happens later (`ReapedStays`;
  `LeftBehind` is such a run).
- A wait that slept goes on with the PCB it found before, so a page table can be freed twice (`FreedTwice` is a run from boot). An
  event is harmless, that is, nothing is freed twice afterwards unless by a later event that is not, if and only if it is not a wait
  for a child with a parent that another caller is asleep on, when it finds the child exited or falls asleep on it too (`Clash`,
  `HarmlessIff`, `RunHarmlessIff`). A process without parent never exits, so any number may sleep on it.
- The 8-bit LRU counters are exact for 256 accesses and for no longer (`ExactlyOneLap`).
- `updateTDU` tests two different mask bits against each other and so never updates a time (`Simulator.AccessPage`); the update its
  test names would have changed a time after every access but those where `tvc` wraps to 0 (`UpdateLost`).
- `minmax` never consults `win`, so it returns 0 for every grid and the computer always takes the lowest empty cell
  (`Minmax`, `ComputersTurn`); it does not play to win (`MissesAWin`), and wins only when that cell happens to be the one it lacks
  (`WinsByLuck`).
- `parse_line` only accepts the cells 1 to 9, so on a grid larger than 3 by 3 a game can reach a point where every line the player
  may type is refused (`CanAnswer`; `EveryLineRefused` is a game on 4 by 4 that gets there).
- `parse_line` hands any number of digits to `atoi`, whose result is undefined beyond the range of int. What it accepts is determined
  for every line exactly if its buffer holds no ten digits (`ReadsExactly`).
- `test_mem_2` addresses page i at `i << 8`, so it passes in the build with 256-byte pages only (`TestMem2`).

## Conventions

- `true`/`false` results of allocating methods: `false` is where the code stops the kernel for want of memory (`ASSERT`, `BUG_ON`,
  `kernel_panic`); the contract then only says that the pool was empty.
- `ghost` parameters name the pages a loop is working on; they have no counterpart in the code.
- Headers such as `mmu.h` and `tictactoe.h` are not part of this model. Masks, attribute bits and `l1sect_addr_end` are defined with
  their usual ARM meaning, `CONFIG_KERNEL_VIRT_ADDR` is 0xC0000000, `__pa` and `__va` are the identity, and sizes that only a header
  gives (stack and heap pages, `MAX_BUFFER_LENGTH`, `CMD_SIZE`, the grid) are parameters. `char` is unsigned, as on ARM.

## Model

| member | source | states |
|---|---|---|
| Word32.WrapIsModulo | lab05/so3/arch/arm32/mmu.c:158-171 | The wrapping sum the range loops use is arithmetic modulo 2^32. |
| PageTable.Heap.Memalign | lab05/so3/arch/arm32/mmu.c:73-79 | A second-level table comes zeroed from a free aligned block, and NULL comes exactly when no block is left. |
| PageTable.Heap.Store | lab05/so3/arch/arm32/mmu.c:93-103 | One descriptor word of one table changes and nothing else on the heap. |
| PageTable.Heap.Free | lab05/so3/arch/arm32/mmu.c:204-206 | The block leaves the tables and is free again. |
| PageTable.RangeEnd | lab05/so3/arch/arm32/mmu.c:158-163 | The aligned start, the rounded length and the wrapped end describe exactly the pages the byte range touches. |
| PageTable.RangeOf | lab05/so3/arch/arm32/mmu.c:158-163 | The start and the wrapped end the loops run between are those of the pages the byte range touches. |
| PageTable.SectAddrEndIs | lab05/so3/arch/arm32/mmu.c:165-173 | The next address is the nearer of the section boundary and the end, also when the end has wrapped to 0. |
| PageTable.RoundStep | lab05/so3/arch/arm32/mmu.c:165-173 | One round of a range loop covers the pages of one first-level entry, and the loop's exit test holds exactly when the last page is done. |
| PageTable.OtherEntriesKeepTheirLeaves | lab05/so3/arch/arm32/mmu.c:165-173 | Writing one first-level entry and its table leaves the walk of every page behind another entry alone. |
| MapPages.PageDescriptor | lab05/so3/arch/arm32/mmu.c:95-97 | The walk decodes the small-page descriptor to the frame number it was made from and to the chosen cache attributes. |
| MapPages.FillTable | lab05/so3/arch/arm32/mmu.c:91-103 | The descriptor loop writes consecutive frames into the entries of the range, ends although it tests addr != end, and writes no other word. |
| MapPages.EnsureTable | lab05/so3/arch/arm32/mmu.c:73-87 | An empty entry gets a fresh table, unshared with any other entry; an entry that has a table keeps it. |
| MapPages.AllocInitPte | lab05/so3/arch/arm32/mmu.c:66-106 | After it the pages of the range lead to consecutive frames as small pages and the other pages of the entry are as before. |
| MapPages.FillSections | lab05/so3/arch/arm32/mmu.c:121-129 | The section loop fills consecutive first-level entries with consecutive megabytes and ends at the wrapped end. |
| MapPages.AllocInitSection | lab05/so3/arch/arm32/mmu.c:112-139 | A section is used exactly when address, end and physical base are section aligned, and small pages otherwise; either way the walk of the range is the same. |
| MapPages.CreateChunk | lab05/so3/arch/arm32/mmu.c:165-173 | One round extends the mapping made so far by the pages of one first-level entry. |
| MapPages.CreateMapping | lab05/so3/arch/arm32/mmu.c:149-180 | Every page of a non-empty range leads to its frame, every other page is as before, tables are created only where needed and none is lost or shared; it fails only when no block is left. |
| UnmapPages.ClearTable | lab05/so3/arch/arm32/mmu.c:188-197 | Exactly the words of the range become zero. |
| UnmapPages.FindEntry | lab05/so3/arch/arm32/mmu.c:201-202 | Found exactly when some word of the table is not zero. |
| UnmapPages.FreeL2Mapping | lab05/so3/arch/arm32/mmu.c:183-213 | The pages of the range no longer translate, the others of the entry do as before, and the table is freed and unlinked exactly when it has become empty. |
| UnmapPages.ClearSections | lab05/so3/arch/arm32/mmu.c:225-230 | Exactly the entries of the range become zero. |
| UnmapPages.FreeL1Mapping | lab05/so3/arch/arm32/mmu.c:216-241 | A whole entry is emptied, a part of one is cleared page by page. |
| UnmapPages.ReleaseChunk | lab05/so3/arch/arm32/mmu.c:261-268 | One round extends the unmapping by the pages of one first-level entry. |
| UnmapPages.ReleaseMapping | lab05/so3/arch/arm32/mmu.c:246-269 | No page of the range translates any more, every other page is as before, and only tables of entries partly in the range are written or freed. |
| UnmapPages.ResetL1Pgtable | lab05/so3/arch/arm32/mmu.c:360-388 | The user entries are empty, exactly the second-level tables behind them are freed, and the kernel entries and tables are untouched. |
| PageTableLaws.CreatedTranslates | lab05/so3/arch/arm32/mmu.c:141-180 | Every address of the range translates to the physical base plus its distance, modulo 2^32; every other address translates as before. |
| PageTableLaws.PagesOfRange | lab05/so3/arch/arm32/mmu.c:149-171 | The pages a range touches are those that hold one of its bytes. |
| PageTableLaws.CreatedAttributes | lab05/so3/arch/arm32/mmu.c:97-124 | Every page of the range is cacheable and bufferable without nocache, and neither with it. |
| PageTableLaws.ReleasedTranslates | lab05/so3/arch/arm32/mmu.c:243-269 | No address of the range translates; every other address translates as before. |
| PageTableLaws.CreateKeepsTablesNonEmpty | lab05/so3/arch/arm32/mmu.c:149-180 | Mapping never leaves an entirely empty second-level table in use. |
| PageTableLaws.ReleaseKeepsTablesNonEmpty | lab05/so3/arch/arm32/mmu.c:183-269 | Unmapping never leaves an entirely empty second-level table in use. |
| PageTableLaws.CreateStrands | lab05/so3/arch/arm32/mmu.c:112-139 | A table is allocated but unreachable after mapping if and only if it was before or a section was put over it. |
| PageTableLaws.ReleaseStrands | lab05/so3/arch/arm32/mmu.c:216-241 | A table is allocated but unreachable after unmapping if and only if it was before or its entry was cleared as a whole section. |
| PageTableLaws.UnmappedEntry | lab05/so3/arch/arm32/mmu.c:149-180 | An unmapped range meets no section, and meets a table only where that table maps pages outside the range: what create_mapping needs. |
| PageTableLaws.EntryRestored | lab05/so3/arch/arm32/mmu.c:149-269 | Mapping and unmapping again gives back each first-level word and its walk. |
| PageTableLaws.TablesRestored | lab05/so3/arch/arm32/mmu.c:149-269 | Mapping and unmapping again gives back the whole first-level table and every word of every second-level table there was. |
| PageTableLaws.HeapRestored | lab05/so3/arch/arm32/mmu.c:216-241 | The heap is what it was if and only if no entry wholly in the range was mapped by small pages. |
| PageTableLaws.CreateThenRelease | lab05/so3/arch/arm32/mmu.c:149-269 | The same, for the two operations called one after the other on an unmapped range. |
| PageTableLaws.VirtToPhysIsTranslate | lab05/so3/arch/arm32/mmu.c:520-544 | The software walk answers with the hardware's translation exactly for mapped addresses outside sections or in the first page of one. |
| PageTableLaws.ATableIsLost | lab05/so3/arch/arm32/mmu.c:119-235 | A well-formed page table and a range for which a table in use is lost, by a section put over it or by being cleared as a whole entry. |
| PageTableLaws.OneMegabyteAside | lab05/so3/arch/arm32/mmu.c:119-235 | An empty page table and a megabyte at a physical base aside of it, for which mapping and unmapping leaves a table behind. |
| PageTableLaws.SecondPageOfSection | lab05/so3/arch/arm32/mmu.c:531-535 | An address in the second page of a section that the hardware and virt_to_phys_pt send to different places. |
| ArgPage.PutWord | lab05/so3/kernel/process.c:402-402 | The four bytes written read back, little-endian, as the word, and no other byte changes. |
| ArgPage.Strcpy | lab05/so3/kernel/process.c:452-452 | The characters and the terminator are in place and no other byte changes. |
| ArgPage.OffGrows | lab05/so3/kernel/process.c:448-465 | The strings lie one after the other behind the table, without overlap. |
| ArgPage.SkipEnvSlots | lab05/so3/kernel/process.c:427-430 | The do/while steps over one slot for each environment string and one for the NULL. |
| ArgPage.PrepareTable | lab05/so3/kernel/process.c:394-436 | The page is zero but for argc, and the strings start behind the table. |
| ArgPage.PlaceString | lab05/so3/kernel/process.c:451-454 | The next string and its address are in place, and those before are intact. |
| ArgPage.PlaceStrings | lab05/so3/kernel/process.c:450-465 | All strings are in place, or the size check stopped the copy and the strings do not fit the page. |
| ArgPage.PlaceEnvironment | lab05/so3/kernel/process.c:470-491 | Success if and only if everything fits the page; then the environment is in place behind the arguments. |
| ArgPage.PreserveArgsAndEnv | lab05/so3/kernel/process.c:377-494 | Success if and only if argc, table and strings with terminators fit PAGE_SIZE; then slot k has the address of argv[k], or slot 0 that of the name if argc is 0, the slots behind those of envp in order, and no byte past the page was written. Otherwise, with argv given, some string is in memory with its end past the page. |
| ArgPage.Relocate | lab05/so3/kernel/process.c:514-515 | One slot's address moves from the old base to the new one and keeps its distance. |
| ArgPage.RelocateEnv | lab05/so3/kernel/process.c:518-522 | The walk over the environment stops at the NULL behind the last string. |
| ArgPage.PostSetupImage | lab05/so3/kernel/process.c:496-524 | The page copied to its new base is again an argument page, for that base, with the same strings. |
| ArgPage.SlotIsNull | lab05/so3/kernel/process.c:521-521 | A slot reads as NULL exactly behind the last string. |
| ArgPage.ReadArgsReads | lab05/so3/kernel/process.c:508-515 | Decoding argc slots of an argument page gives the argument strings. |
| ArgPage.ReadEnvReads | lab05/so3/kernel/process.c:518-522 | Decoding from the environment slots to the NULL gives the environment strings. |
| ArgPage.PageReadsBack | lab05/so3/kernel/process.c:377-524 | An argument page determines its arguments and environment: they read back as they went in. |
| ArgPage.WordBytes | lab05/so3/kernel/process.c:402-402 | Words lie in memory with their low byte first. |
| ArgPage.SizeIs | lab05/so3/kernel/process.c:400-494 | What is needed is 4 bytes for argc, 4 for each string and for the NULL, and the characters and terminator of each string. |
| ArgPage.PassArguments | lab05/so3/kernel/process.c:377-524 | Round trip through building, copying and relocating: the image reads argc and argv, string for string in order, or 1 and the process name when argc is 0; and envp in order, or nothing when there is none. Refused exactly if argv is missing or the sizes add up to more than a page. |
| ArgPage.OneArgumentFits | lab05/so3/kernel/process.c:458-463 | A single argument fits exactly up to 4083 characters. |
| Frames.FrameTable.GetFreePage | lab05/so3/kernel/process.c:294-295 | A frame taken was free and is free no more; none is taken exactly when none is left. |
| Frames.FrameTable.Share | lab05/so3/kernel/process.c:268-284 | One more reference to that frame and to no other. |
| Frames.FrameTable.Drop | lab05/so3/kernel/process.c:366-368 | One reference less, and the frame is free again exactly when that was the last. |
| Frames.FrameTable.DropAll | lab05/so3/kernel/process.c:360-371 | Every page of a list loses one reference and exactly those without any left become free. |
| Frames.FrameTable.TakeFrames | lab05/so3/kernel/process.c:289-302 | n distinct free frames are taken, each with one reference more. |
| Frames.TookBoth | lab05/so3/kernel/process.c:561-594 | Frames taken in two goes are distinct, as if taken at once. |
| UserSpace.AddPageToProc | lab05/so3/kernel/process.c:268-284 | The frame is at the end of the page list and has one reference more. |
| UserSpace.OnePageRequest | lab05/so3/kernel/process.c:297-297 | A request for one page maps one page exactly when its address is page aligned, and two otherwise. |
| UserSpace.MapOnePage | lab05/so3/kernel/process.c:297-297 | create_mapping for one aligned page maps that page. |
| UserSpace.MapFrame | lab05/so3/kernel/process.c:297-297 | One user page leads to the frame and every other page is as before. |
| UserSpace.CreatedBeside | lab05/so3/arch/arm32/mmu.c:149-180 | Mapping a user page writes no second-level table but one of this user space, and a table it takes from the heap is behind the user part and not empty. |
| UserSpace.AllocateOne | lab05/so3/kernel/process.c:294-299 | One user page leads to a frame that was free, which is at the end of the page list with one reference more. |
| UserSpace.AllocatePage | lab05/so3/kernel/process.c:289-302 | Each page of the region leads to a distinct frame that was free, in the order of the new page-list entries; nothing else is mapped, unmapped or counted. |
| UserSpace.ReleaseProcPages | lab05/so3/kernel/process.c:356-372 | The page list is empty and each of its frames has lost one reference, freed if it was the last. |
| UserSpace.SlotsAreDistinct | lab05/so3/kernel/process.c:559-594 | Stack, image, heap and argument page are disjoint: no two pages of an image share a place in the page list. |
| UserSpace.ImageMissesHeap | lab05/so3/kernel/process.c:576-587 | Image and heap are disjoint exactly when the entry point is at most stack pages + 1, or above the heap. |
| UserSpace.LaidMapsLayout | lab05/so3/kernel/process.c:559-594 | After exec the mapped user pages are exactly stack, image, heap and argument page. |
| UserSpace.LaidAt | lab05/so3/kernel/process.c:559-594 | Page by page: which frame of the page list each page of stack, program, heap and argument page leads to, and that no other user page is mapped. |
| UserSpace.AllocateRegion | lab05/so3/kernel/process.c:561-594 | One of exec's allocations extends the image under construction by its region. |
| UserSpace.AllocateProgram | lab05/so3/kernel/process.c:559-576 | Stack and program are mapped where the layout has them. |
| UserSpace.AllocateHeapAndArgs | lab05/so3/kernel/process.c:581-595 | Heap and argument page are mapped where the layout has them, the break is at the heap's start, and page_count is the length of the page list. |
| Exec.DiscardImage | lab05/so3/kernel/process.c:547-557 | No user page is mapped, the page list is empty, and only this process's references are gone. |
| Exec.InstallImage | lab05/so3/kernel/process.c:547-595 | The new image is complete, other processes' references to frames and second-level tables are what they were, and every other table is behind the new user part and in use. |
| Exec.InstalledTables | lab05/so3/kernel/process.c:547-594 | After exec the second-level tables are exactly those that were not behind the old user part and those behind the new one, which are others and none of them empty. |
| Exec.InstallArguments | lab05/so3/kernel/process.c:597-598 | The frame behind the last user page reads back as the given strings. |
| Exec.SetupProcImageReplace | lab05/so3/kernel/process.c:530-601 | Refused exactly when argv is missing or the sizes add up to more than a page, and then page table, page list and frames are untouched; otherwise the mapped user pages are exactly stack, image, heap and argument page, page_count is the length of the page list, the last page reads as argv, or the name when argc is 0, and envp; each frame has lost the reference of the old page list and gained that of the new one, and nobody else's second-level tables or frame contents change. |
| Exec.InstalledRefs | lab05/so3/kernel/process.c:547-594 | Dropping one page list and taking another leaves all other references alone. |
| Exec.Isolated | lab05/so3/kernel/process.c:547-594 | Any other page table that shares no table with the old user part walks as before, everywhere. |
| Exec.DoSbrk | lab05/so3/kernel/process.c:1015-1070 | When the new size is at least 0 and below HEAP_SIZE the break moves by exactly the increment and the old one is returned; otherwise it stays and -1 is returned; whatever the sum of ints does. |
| Exec.BreakIsSum | lab05/so3/kernel/process.c:1015-1070 | After any calls the break is its start plus the sum of the increments that were granted. |
| Exec.GrantedApart | lab05/so3/kernel/process.c:1015-1070 | With increments of at least 0, the blocks granted follow one another without overlap, inside the heap. |
| Exec.BreakStaysInHeap | lab05/so3/kernel/process.c:1015-1070 | After any sequence of calls every byte up to the break is in a heap page of the image. |
| Fork.CreateKeepsChild | lab05/so3/arch/arm32/mmu.c:469-469 | The transitional mapping in the parent touches no table the child uses. |
| Fork.ReleaseKeepsChild | lab05/so3/arch/arm32/mmu.c:483-483 | Its release leaves the child's user walk alone. |
| Fork.CreateSecluded | lab05/so3/arch/arm32/mmu.c:469-469 | Nor does it write any table there was when fork began, but the one behind the transitional entry. |
| Fork.ReleasedTransitional | lab05/so3/arch/arm32/mmu.c:483-483 | The transitional table is freed exactly if no other page of it is mapped. |
| Fork.MapTransitional | lab05/so3/arch/arm32/mmu.c:469-469 | The transitional page leads to the new frame and no other page of the parent changes. |
| Fork.EnterInChild | lab05/so3/arch/arm32/mmu.c:471-473 | The child's page leads to the new frame, its other pages and the parent's are as before. |
| Fork.CopyUserPage | lab05/so3/arch/arm32/mmu.c:462-477 | One page copied: a fresh frame with the bytes of the parent's, in the child's table and page list. |
| Fork.CopyTable | lab05/so3/arch/arm32/mmu.c:456-480 | Every mapped page behind one first-level entry is copied, in order. |
| Fork.AttachTable | lab05/so3/arch/arm32/mmu.c:442-452 | The child's entry has an empty table of its own. |
| Fork.CopyAllTables | lab05/so3/arch/arm32/mmu.c:435-482 | Every mapped user page is copied. |
| Fork.DuplicateUserSpace | lab05/so3/arch/arm32/mmu.c:425-484 | The child maps the parent's user pages on fresh distinct frames with equal bytes, its page list grows by exactly those frames, the parent's leaves are as before but for the transitional page, which is unmapped, every other second-level table and frame is as before, and the child's table is well formed unless a kernel entry of it led to the freed transitional table; the new second-level tables are exactly those behind the child's user entries. |
| ForkLaws.ChildMirrorsParent | lab05/so3/arch/arm32/mmu.c:415-484 | A user page is mapped in the child if and only if it is in the parent, on a frame that was free, byte for byte equal; frames in use keep their contents. |
| ForkLaws.ChildFramesDiffer | lab05/so3/arch/arm32/mmu.c:462-467 | No two user pages of the child share a frame. |
| Fork.AllTablesKept | lab05/so3/arch/arm32/mmu.c:425-484 | Every second-level table there was before fork has its words, but for the transitional page. |
| Fork.FreshTransitionalGoes | lab05/so3/arch/arm32/mmu.c:469-483 | A table taken for the transitional page alone is freed with it. |
| Fork.OnlyChildsTables | lab05/so3/arch/arm32/mmu.c:442-483 | After fork the new second-level tables are exactly those behind the child's user entries. |
| Fork.ParentEntries | lab05/so3/arch/arm32/mmu.c:469-483 | Of the parent's first-level entries only the transitional one can have changed, and only to empty. |
| ForkLaws.ChildTablesInUse | lab05/so3/arch/arm32/mmu.c:435-482 | None of the child's second-level tables is empty if none of the parent's is. |
| Fork.KernelPart | lab05/so3/arch/arm32/mmu.c:405-413 | A page table with kernel entries copied from before fork is well formed afterwards exactly if none leads to the freed table. |
| ForkLaws.LayoutCount | lab05/so3/kernel/process.c:547-594 | A layout has page_count pages. |
| ForkLaws.ForkKeepsLayout | lab05/so3/kernel/process.c:751-805 | If the parent maps exactly the regions of an image so does the child, and its page list has page_count entries. |
| ForkLaws.ParentTranslates | lab05/so3/arch/arm32/mmu.c:425-484 | For the parent every address translates as before fork, but for those of the transitional page, which fault. |
| ForkLaws.ForksKeepLayout | lab05/so3/kernel/process.c:751-805 | The same for every child in any chain of forks that begins with such a process. |
| ForkLaws.BystanderKept | lab05/so3/arch/arm32/mmu.c:425-484 | Any other page table walks as before but behind the transitional table, and stays well formed exactly if it is not left dangling. |
| ForkLaws.LeftDangling | lab05/so3/arch/arm32/mmu.c:483-483 | A well-formed page table whose kernel part is left with a freed table. |
| ForkLaws.NewPageTable | lab05/so3/arch/arm32/mmu.c:336-413 | An empty user part and the system's kernel entries. |
| ForkLaws.DuplicateProcess | lab05/so3/kernel/process.c:751-781 | The child has the parent's page count, stack top and heap, no page, and a well-formed page table. |
| ForkLaws.ForkProcess | lab05/so3/kernel/process.c:801-805 | Parent and child both have the layout the parent had, the page count is the length of the page list in both, the break is copied, and no table of the child is empty if none of the parent's is. |
| ProcessTree.Find | lab05/so3/kernel/process.c:83-97 | The first listed process with the pid, and none exactly when the pid is not listed. |
| ProcessTree.AppendKeepsInv | lab05/so3/kernel/process.c:189-242 | A new process at the end of the list keeps it sorted by pid, a forest, and without shared frames. |
| ProcessTree.UpdateKeepsInv | lab05/so3/kernel/process.c:844-888 | Changing the state or pages of a process keeps the invariant. |
| ProcessTree.RemoveKeepsInv | lab05/so3/kernel/process.c:967-968 | Removing a process without children leaves no orphan. |
| ProcessTree.StepKeepsInv | lab05/so3/kernel/process.c:308-1002 | Create, fork, exec, exit and waitpid each keep: sorted by pid, parents listed and older, zombies without pages, page tables freed with the main thread, no frame owned twice. |
| ProcessTree.RunKeepsInv | lab05/so3/kernel/process.c:308-1002 | So does every run. |
| ProcessTree.BootRun | lab05/so3/kernel/process.c:60-63 | Every state reached from the empty list has these properties. |
| ProcessTree.Root | lab05/so3/kernel/process.c:762-762 | The chain of parents of a listed process ends, at a listed process without parent. |
| ProcessTree.ReapRemoves | lab05/so3/kernel/process.c:963-968 | A process waited for leaves the list if and only if it has no child in the list; no other process does. |
| ProcessTree.ReapedStays | lab05/so3/kernel/process.c:963-968 | One that had children stays listed in every later state, even when its last child is gone. |
| ProcessTree.LeftBehind | lab05/so3/kernel/process.c:963-968 | A run after which a process that has been waited for has no children and is still listed. |
| ProcessTree.PidNotReused | lab05/so3/kernel/process.c:60-62 | A pid once given names no other process later. |
| ProcessTree.AnswerForPid | lab05/so3/kernel/process.c:924-947 | What a wait for a pid does with a running child, with or without WNOHANG, with a zombie, and with one waited for before. |
| ProcessTree.NoSuchChild | lab05/so3/kernel/process.c:924-930 | A wait for a pid that nobody has fails. |
| ProcessTree.AnswerForAny | lab05/so3/kernel/process.c:911-922 | A wait for any child takes the first zombie not waited for, fails exactly if there is none, and never sleeps. |
| ProcessTree.DoneIsReap | lab05/so3/kernel/process.c:906-1002 | A wait that returns a pid reaps that process, a zombie with its main thread; the status it reports has the low byte of the exit code in its second byte, and 0 in its first. |
| ProcessTree.ExitThenWait | lab05/so3/kernel/process.c:844-1002 | The first wait after an exit finds it, with the low byte of its code in the second byte of the status and 0 in the first; a wait before it blocks, or reports nothing with WNOHANG. |
| Processes.Kernel.FindProcByPid | lab05/so3/kernel/process.c:83-97 | The listed process with the pid, or NULL. |
| Processes.Kernel.FindProcZombieToClean | lab05/so3/kernel/process.c:117-131 | The first zombie that still has its main thread, or NULL. |
| Processes.Kernel.FindProcByParent | lab05/so3/kernel/process.c:136-149 | A listed process with this very PCB as its parent is found, and none exactly when there is none. |
| Processes.Kernel.ParentByPid | lab05/so3/kernel/process.c:136-149 | A listed process is some process's parent as an object if and only if it is by its pid. |
| Processes.Kernel.RemoveProc | lab05/so3/kernel/process.c:169-184 | That process and no other leaves the list. |
| Processes.Kernel.AddProcess | lab05/so3/kernel/process.c:189-242 | A process with the next pid and fresh frames is at the end of the list; references stay equal to page-list entries. |
| Processes.Kernel.ReleasePages | lab05/so3/kernel/process.c:356-372 | The process owns nothing and references stay equal to page-list entries. |
| Processes.Kernel.TurnOverPages | lab05/so3/kernel/process.c:547-594 | All old frames go, new ones come that nobody else owns. |
| Processes.Kernel.CreateProcess | lab05/so3/kernel/process.c:308-350 | Refines the step that makes a process without parent. |
| Processes.Kernel.DoFork | lab05/so3/kernel/process.c:786-838 | Refines the fork step: a child of this parent with as many fresh frames. |
| Processes.Kernel.DoExec | lab05/so3/kernel/process.c:656-748 | Refines the exec step. |
| Processes.Kernel.DoExit | lab05/so3/kernel/process.c:844-888 | Refines the exit step; refused exactly for a process without parent. |
| Processes.Kernel.DetachAndUnlist | lab05/so3/kernel/process.c:947-968 | The page table is freed once more, and the process leaves the list exactly if no listed process has it as parent. |
| Processes.Kernel.FinishWait | lab05/so3/kernel/process.c:949-968 | Going on with a remembered PCB, reaped or unlisted meanwhile or not, refines `Waits.Continue`; and it keeps the kernel's invariant if nobody had waited for the process. |
| Processes.Kernel.DoWaitpid | lab05/so3/kernel/process.c:906-1002 | Answers as specified in every case, with the exit code in the second byte of the status, and changes the kernel exactly when it reaps, and then by the reaping step; a caller that sleeps remembers the PCB of the process it waits for. |
| Waits.ContinueIsReap | lab05/so3/kernel/process.c:949-968 | A sleeper that goes on with a zombie nobody has waited for does the reaping step. |
| Waits.EventKeepsInv | lab05/so3/kernel/process.c:906-1002 | Calls, wake-ups, and waits that do not clash keep: every sleeper's child is unreaped, only processes without parent have several sleepers, no page table freed twice. |
| Waits.FreedOnce | lab05/so3/kernel/process.c:947-968 | In any run with sleeping waits but without a clash no page table is freed twice. |
| Waits.FreedOnceFromBoot | lab05/so3/kernel/process.c:60-63 | So it is in every such run from the empty list. |
| Waits.ClashFreesTwice | lab05/so3/kernel/process.c:947-968 | After a clash there are further events, none of them a clash, that free a page table twice. |
| Waits.HarmlessIff | lab05/so3/kernel/process.c:906-968 | An event leads to where nothing can be freed twice without a further clash if and only if it is no clash itself. |
| Waits.RunHarmlessIff | lab05/so3/kernel/process.c:906-968 | A whole run stays where nothing can be freed twice without a further clash if and only if none of its waits clashes. |
| Waits.FreedTwice | lab05/so3/kernel/process.c:947-968 | A run from boot, with two callers asleep on one child, after which its page table has been freed twice. |
| Processes.FramesConserved | lab05/so3/kernel/process.c:268-372 | Between calls each frame's references are the page-list entries that name it, it is free exactly when it has none, and free frames and page lists add up to all frames. |
| Processes.AppendCounted | lab05/so3/kernel/process.c:268-302 | Taking frames for a new process keeps references equal to page-list entries. |
| Processes.ReleasedCounted | lab05/so3/kernel/process.c:356-372 | So does releasing a page list. |
| Isolation.CreateMemory | lab05/so3/kernel/process.c:308-322 | A new process has the kernel entries and its stack on fresh frames, behind new second-level tables, and all other tables keep their words. |
| Isolation.Isolated | lab05/so3/kernel/process.c:60-63 | Under the invariant each user page of a running process leads to a frame of its own page list, and no other page of it or of another running process leads to that frame. |
| Isolation.ForkKeepsTables | lab05/so3/arch/arm32/mmu.c:425-484 | A fork keeps every page table well formed and apart from the others if and only if it leaves none with an entry for the freed table. |
| Isolation.CallKeepsProc | lab05/so3/kernel/process.c:547-888 | After any call, a dangling fork too, each running process maps its user pages on frames of its own list, each on another. |
| Isolation.CallKeepsMemInv | lab05/so3/kernel/process.c:308-968 | A call keeps the whole invariant of page tables, frames and process list if and only if it is no fork that leaves a page table dangling. |
| Isolation.RunKeepsMemInv | lab05/so3/kernel/process.c:308-968 | So does a whole run, throughout, if and only if no fork in it does. |
| Isolation.IsolatedFromBoot | lab05/so3/kernel/process.c:60-63 | After any such run from boot no two user pages of running processes share a frame. |
| Isolation.OneProcess | lab05/so3/kernel/process.c:308-322 | A start and a first process with one page of stack, mapped, that meet all this. |
| PageBits.PageNumber | lab07/usr/src/memreplace.c:104-104 | The number is in the upper four bits, and no flag is set. |
| PageBits.InitPageTable | lab07/usr/src/memreplace.c:100-110 | Each page has its number, pages 0 to 2 are in RAM and page 3 is in swap. |
| PageBits.Evicted | lab07/usr/src/memreplace.c:53-54 | Out of RAM and in swap, with the reference bit and the page number kept. |
| Lru.RunIsRecency | lab07/usr/src/memreplace.c:27-61 | After any run the resident pages are the k most recently used distinct pages of the initial ones followed by the accesses. |
| Lru.RecencyIsOrder | lab07/usr/src/memreplace.c:27-61 | In that list each page was used after the last use of those before it. |
| Lru.Inclusion | lab07/usr/src/memreplace.c:27-61 | From suffixes of one history, a larger memory always contains the smaller one's pages. |
| Lru.MoreMemoryFewerFaults | lab07/usr/src/memreplace.c:178-188 | And never faults more. |
| Lru.CompetitiveFrom | lab07/usr/src/memreplace.c:178-188 | Sleator and Tarjan's bound for k frames of LRU against any policy with c of them, from any start. |
| Lru.Competitive | lab07/usr/src/memreplace.c:178-188 | From the same resident pages LRU faults at most k times as often as any policy with k frames. |
| Lru.LruIsAPolicy | lab07/usr/src/memreplace.c:178-188 | LRU is one of the policies it is compared with, and its faults are counted like theirs. |
| LruCounters.Oldest | lab07/usr/src/memreplace.c:40-52 | The valid page with the smallest counter, the first if several, and none exactly when no page is valid. |
| LruCounters.Simulator.constructor | lab07/usr/src/memreplace.c:27-32 | The state main starts from. |
| LruCounters.Simulator.ReplaceLru | lab07/usr/src/memreplace.c:39-55 | The oldest valid page goes to swap; it stops exactly when there is none. |
| LruCounters.Simulator.IncCompteur | lab07/usr/src/memreplace.c:58-61 | The clock ticks modulo 256 and stamps the page; a page out of range changes nothing. |
| LruCounters.Simulator.AccessPage | lab07/usr/src/memreplace.c:170-188 | Refines one access of the counter machine. |
| LruCounters.AccessedEntry | lab07/usr/src/memreplace.c:39-55 | Entry by entry: on a miss the page is in RAM and out of swap, the oldest one out of RAM and in swap, and no other entry changes; on a hit none does. |
| LruCounters.BootEntries | lab07/usr/src/memreplace.c:165-188 | In every run from the start VALID and SWAP exclude each other, page numbers stay, and the pages in RAM or swap are 0 to 3 and those accessed. |
| LruCounters.OldestIsFirst | lab07/usr/src/memreplace.c:40-52 | As long as counters follow recency, the page they call oldest is the least recently used. |
| LruCounters.StepAgrees | lab07/usr/src/memreplace.c:178-188 | An access that does not wrap the clock keeps the counters in the order of recency, and is an access of LRU. |
| LruCounters.RunAgrees | lab07/usr/src/memreplace.c:178-188 | With unbounded counters, or before the clock wraps, a whole run is LRU's run and its replacements are LRU's faults. |
| LruCounters.FirstLap | lab07/usr/src/memreplace.c:178-188 | Up to and including the access that wraps the clock, the resident pages and replacements are LRU's. |
| LruCounters.SimulatorIsCompetitive | lab07/usr/src/memreplace.c:178-188 | The simulator's replacements are at most k times the faults of any k-frame policy, over unbounded counters and on the first lap of bounded ones. |
| LruCounters.WitnessFails | lab07/usr/src/memreplace.c:58-61 | A run of 257 accesses after which the 8-bit counters have dropped the page used last but one. |
| LruCounters.ExactlyOneLap | lab07/usr/src/memreplace.c:27-61 | The 8-bit simulator is LRU throughout every run of n accesses if and only if n is at most 256. |
| WsClock.FirstValid | lab07/usr/src/memreplace.c:70-72 | The first valid page. |
| WsClock.FirstStale | lab07/usr/src/memreplace.c:74-79 | The first page valid, unreferenced and older than DELTA. |
| WsClock.Sweep | lab07/usr/src/memreplace.c:74-75 | A valid page passed loses its reference bit and nothing else. |
| WsClock.Simulator.constructor | lab07/usr/src/memreplace.c:34-36 | The state main starts from. |
| WsClock.Simulator.ReplaceWsc | lab07/usr/src/memreplace.c:64-88 | The victim is the first stale page or else the first valid one; it is out of RAM, in swap and unreferenced; every other page in RAM without a stale page before it loses its reference bit; every other entry is as before; it stops exactly when no page is valid. |
| WsClock.VictimIsFirst | lab07/usr/src/memreplace.c:64-88 | The first page in RAM, unreferenced and more than 2 behind goes; without such a page the first page in RAM. |
| WsClock.ReplacedEntry | lab07/usr/src/memreplace.c:64-88 | The same entry by entry: which pages lose their reference bit, and that the others keep every bit. |
| WsClock.Simulator.UpdateTdu | lab07/usr/src/memreplace.c:91-96 | Exactly the pages whose entry meets the mask get the current time. |
| WsClock.Simulator.AccessPage | lab07/usr/src/memreplace.c:189-202 | Refines one access; with the mask as written no time is ever updated. |
| WsClock.AccessedEntry | lab07/usr/src/memreplace.c:189-202 | Entry by entry: the page accessed is in RAM and referenced, and out of swap if it was fetched; the others are as before on a hit and as the replacement leaves them on a miss; tvc goes on by one modulo 2^16. |
| WsClock.RunClock | lab07/usr/src/memreplace.c:201-201 | After n accesses tvc has gone on by n modulo 2^16. |
| WsClock.MissWithoutStale | lab07/usr/src/memreplace.c:64-88 | A miss while all pages in RAM are referenced takes out the first one, and only the new page is referenced afterwards: the next miss spares it. |
| WsClock.MissWithStale | lab07/usr/src/memreplace.c:64-88 | A miss with an unreferenced page takes out the first such, and the pages before it are unreferenced afterwards. |
| WsClock.SecondChance | lab07/usr/src/memreplace.c:64-88 | The accesses 0, 1, 2, 3, 1, 4 leave pages 1, 3 and 4 in RAM: page 1, used again, is spared. |
| WsClock.VictimIs | lab07/usr/src/memreplace.c:64-88 | Once tvc exceeds DELTA the victim is the first valid unreferenced page, and the first valid one if all are referenced or tvc does not. |
| WsClock.ReplacedKeeps | lab07/usr/src/memreplace.c:64-88 | A replacement takes exactly one page out of RAM and keeps every entry clean. |
| WsClock.StepKeepsInv | lab07/usr/src/memreplace.c:189-202 | An access keeps the number of pages in RAM, VALID against SWAP, REF within VALID, page numbers, the pages known, and times of 0. |
| WsClock.RunKeepsInv | lab07/usr/src/memreplace.c:189-202 | So does every run, and it never exits. |
| WsClock.BootRun | lab07/usr/src/memreplace.c:165-202 | From the start there are always three pages in RAM, and the pages in RAM or swap are 0 to 3 and those accessed. |
| WsClock.UpdateLost | lab07/usr/src/memreplace.c:91-96 | After any access of any run the update that the test names would have changed a time if and only if tvc is not 0. |
| Grid.SumTells | lab02/usr/src/tictactoe_gm.c:157-177 | A sum of m marks is m, or -m, only if all are the one player's. |
| Grid.RowSum | lab02/usr/src/tictactoe_gm.c:158-162 | The loop sums the cells of the row. |
| Grid.ColumnSum | lab02/usr/src/tictactoe_gm.c:170-173 | The loop sums the cells of the column. |
| Grid.DiagonalSums | lab02/usr/src/tictactoe_gm.c:180-185 | The sums are n or -n exactly if all cells (k, k), or all cells (k, n - 1 - k), are the one player's. |
| Grid.LinesByCell | lab02/usr/src/tictactoe_gm.c:153-202 | The lines are the rows, the columns, the cells (k, k) and the cells (k, n - 1 - k). |
| Grid.Win | lab02/usr/src/tictactoe_gm.c:153-202 | For every size: WIN if and only if by row and column a whole row, column or diagonal is 1 or is -1, DRAW if and only if there is none and no cell is 0, PROGRESS otherwise. |
| Grid.NewLineIsMovers | lab02/usr/src/tictactoe_gm.c:276-284 | A move cannot complete a line of the opponent: the mover named by the outcome owns the line. |
| Grid.LowestEmpty | lab02/usr/src/tictactoe_gm.c:85-102 | The first empty cell, and none exactly on a full grid. |
| Grid.Minmax | lab02/usr/src/tictactoe_gm.c:32-71 | For every grid, player and depth it ends, restores every cell and returns 0. |
| Grid.ComputersTurn | lab02/usr/src/tictactoe_gm.c:78-106 | It restores every cell and returns the lowest empty cell counted from 1, or 0 on a full grid. |
| Grid.WinsByLuck | lab02/usr/src/tictactoe_gm.c:78-106 | The computer's move completes a line if and only if the lowest empty cell is the one missing from a line that is otherwise its own. |
| Grid.MissesAWin | lab02/usr/src/tictactoe_gm.c:78-106 | A grid on which one cell completes a line for the computer and it takes another. |
| Messages.DecimalValue | lab03/usr/src/tictactoe_ipc.c:27-29 | The digits written denote the number. |
| Messages.AtoiReads | lab03/usr/src/tictactoe_ipc.c:20-20 | Reading digits one by one computes the number they denote, up to the first other character. |
| Messages.AtoiOfPrint | lab03/usr/src/tictactoe_ipc.c:15-35 | atoi of a printed int is that int, whatever follows the terminator. |
| Messages.RoundTrip | lab03/usr/src/tictactoe_ipc.c:15-35 | Every command that fits the buffer comes back over the pipe, whatever the uninitialised bytes hold. |
| Messages.Line | lab02/usr/src/tictactoe_player.c:26-33 | The characters before the first terminator. |
| Messages.ParseLine | lab02/usr/src/tictactoe_player.c:26-62 | Accepts exactly the lines of digits, shorter than the buffer, that denote 1 to 9, and returns that number less one; a line of digits that denotes no int may be refused or read as any cell. |
| Messages.AcceptedLines | lab02/usr/src/tictactoe_player.c:26-62 | The lines that denote 1 to 9 are those of any zeros and then one digit from 1 to 9. |
| Messages.ReadsExactly | lab02/usr/src/tictactoe_player.c:35-54 | Every line is read as it denotes if and only if the buffer holds no ten digits. |
| Game.Manager.GetPlayerMove | lab02/usr/src/tictactoe_gm.c:245-264 | Sends one grant and one rejection for each illegal move, and takes the first legal move and no other. |
| Game.Manager.CheckGameState | lab02/usr/src/tictactoe_gm.c:269-293 | Announces a win to the side that moved or a draw, exactly when the grid has one, and then the game is over. |
| Game.Manager.ComputerMoves | lab02/usr/src/tictactoe_gm.c:318-327 | Marks the lowest empty cell; outside the grid only if it is full. |
| Game.Manager.GameManager | lab02/usr/src/tictactoe_gm.c:298-339 | Sends exactly what `Sends` says for the moves that arrive: GAME_START, one request for each move read, the outcome of the final grid and GAME_END; and ends for every stream of moves. |
| Game.AnswersMoves | lab02/usr/src/tictactoe_gm.c:245-264 | A player's turn in which the first moves are illegal sends a grant and one rejection for each. |
| Game.PlayerLoop | lab02/usr/src/tictactoe_player.c:112-170 | One move for each request read, in order, and nothing read after the first command that ends it. |
| Game.RequestsAre | lab02/usr/src/tictactoe_player.c:112-170 | The requests are the grants and the rejections. |
| Game.MarkKeepsBoard | lab02/usr/src/tictactoe_gm.c:306-327 | A mark on an open grid keeps the alternation of marks and leaves only the mover with a possible line. |
| Game.CheckedBoard | lab02/usr/src/tictactoe_gm.c:269-293 | What is announced names the one side that owns a line, or a draw on a full grid without one. |
| Game.AnnouncementIs | lab02/usr/src/tictactoe_gm.c:269-293 | After a move a full line is announced as a win or a loss by who moved, a full grid without one as a draw, and otherwise nothing. |
| Game.OutcomeIs | lab02/usr/src/tictactoe_gm.c:269-293 | The outcome is YOU_WIN for a full line of the player's marks, YOU_LOSE for one of the computer's, NO_WINNER for neither. |
| Game.InitialInv | lab02/usr/src/tictactoe_gm.c:298-303 | The invariant of the two processes holds at the start. |
| Game.StepKeepsInv | lab02/usr/src/tictactoe_gm.c:245-339 | Every step of either process keeps it. |
| Game.RunKeepsInv | lab02/usr/src/tictactoe_gm.c:245-339 | Every interleaving keeps it. |
| Game.Protocol | lab03/usr/src/tictactoe_ipc.c:41-105 | Over every interleaving: never both blocked on empty pipes, at most 1 message to the manager and 2 to the player, each request answered by one move, exactly one outcome handled, the right one, and never GAME_END. |
| Game.Marking | lab02/usr/src/tictactoe_gm.c:298-339 | Over every interleaving: player marks equal computer marks or exceed them by one, at most as many marks as cells, the computer moves only with a free cell, and never both sides own a line. |
| Game.OnlyTheEndStops | lab02/usr/src/tictactoe_gm.c:335-359 | A state without a next step is the end: GAME_END sent, the player gone with the outcome of the grid. |
| Game.StepUsesWork | lab02/usr/src/tictactoe_gm.c:298-339 | Every step but a refused move or line brings the end nearer. |
| Game.GamesEnd | lab02/usr/src/tictactoe_gm.c:298-339 | A game has at most 7 steps for each cell and 9 more, 3 for each rejected move and 1 for each refused line. |
| Game.CanAnswer | lab02/usr/src/tictactoe_player.c:48-53 | A line the manager would accept exists if and only if one of the first nine cells is empty, and always on grids up to 3 by 3. |
| Transcript.RunDelivers | lab03/usr/src/tictactoe_ipc.c:41-105 | In every run nothing is lost in a pipe and nothing overtakes: what was in it and put in is what was taken out and is in it. |
| Transcript.RunSends | lab02/usr/src/tictactoe_gm.c:298-339 | What the manager says in any interleaving, with what its loop says from there for any further moves, is what the loop says for the moves read and those. |
| Transcript.RunPlaysAlong | lab02/usr/src/tictactoe_player.c:112-170 | In every run the player has typed one move for each request heard, but for one still to be typed, and hears nothing after the first command that ends it. |
| Transcript.ProgramsMeet | lab02/usr/src/tictactoe_gm.c:298-339 | So in every game from the start the commands said are a prefix of what the manager's loop sends for the moves it has read, and all of it when it waits; and each program has taken in a prefix of what the other has put out. |
| StuckGame.EveryLineRefused | lab02/usr/src/tictactoe_player.c:48-53 | A game on a 4 by 4 grid that reaches a state, the player to move, in which every line is refused however it is read. |
| MemSim.Build.EntryFields | lab06/usr/src/memsim.c:325-341 | The frame number of a page is the last one less the page, and valid bit and access pattern read back from the entry. |
| MemSim.PlaceOf | lab06/usr/src/memsim.c:325-327 | A byte is in the frame that mirrors its page, at its offset in the page, in both builds. |
| MemSim.Memory.InitPageTable | lab06/usr/src/memsim.c:315-343 | Every entry is the one of the reversed layout with the attributes of its page. |
| MemSim.Memory.VirtToPte | lab06/usr/src/memsim.c:89-103 | The entry of the page of the address modulo 2^16; it never fails. |
| MemSim.Memory.GetByte | lab06/usr/src/memsim.c:114-153 | Reads the flat memory at the address modulo 2^16, and is refused exactly on pages 5 to 8 of the build with attributes. |
| MemSim.Memory.StoreByte | lab06/usr/src/memsim.c:164-201 | Writes one byte of the flat memory and no other, and is refused, without effect, exactly on pages 5 to 8 and 10 to 12 of the build with attributes. |
| MemSim.Memory.PutByte | lab06/usr/src/memsim.c:194-198 | Writing the place of one address changes that byte of the flat memory and no other. |
| MemSim.Memory.Fill | lab06/usr/src/memsim.c:360-363 | Afterwards every byte is its address modulo 256. |
| MemSim.Memory.TestMem | lab06/usr/src/memsim.c:238-261 | 0 if and only if there are no attributes and every byte is its address modulo 256. |
| MemSim.Memory.FillAndTest | lab06/usr/src/memsim.c:358-364 | The test after the fill succeeds, for both page sizes. |
| MemSim.Memory.TestAddress | lab06/usr/src/memsim.c:276-303 | One round succeeds exactly when the page has the permissions the round expects; pages that are not writable keep their bytes. |
| MemSim.Memory.TestMem2 | lab06/usr/src/memsim.c:267-308 | Succeeds in the small build and fails in the large one, and pages that are not writable keep their bytes. |
| MemSim.LastStoreWins | lab06/usr/src/memsim.c:114-201 | After any sequence of stores a byte is what the last accepted store to its address modulo 2^16 wrote, or its old value if there was none: read-only and invalid pages keep theirs. |
| MemSim.Apart | lab06/usr/src/memsim.c:146-150 | Two addresses never share a byte. |

## Left out

- TLB and cache maintenance, flushes of page-table entries, `mmu_configure`, `mmu_switch`, domains and inline assembly: hardware effects.
- Kernel heap and frame allocator internals: the heap of tables is a pool of blocks and a map of word sequences, frames are a set; in-place update of second-level tables is modelled on that map.
- The NULL page-table argument of `create_mapping` and `release_mapping`: the caller's table is always named.
- Ranges that are empty or run past 2^32, mapping small pages behind an entry that is a section, and unmapping part of an entry that has no second-level table: the loops of the code then leave the table or follow a pointer that is none.
- UnmapPages.ResetL1Pgtable: has no `remove` flag; freeing the first-level block itself is counted as `tableFrees` in the process list only.
- Fork.DuplicateUserSpace: requires that the parent's transitional entry is no section, and that it has a table or at least one user page is mapped, since otherwise the code writes into a section as if it were a table, or releases a mapping it never made.
- Processes.Kernel.TurnOverPages: is about the frames only; the page table and the layout are in `Exec`.
- Processes.Kernel.CreateProcess: takes the frames of the stack and does not map them; the mapping is in `Isolation.CreateMemory`.
- ForkLaws.DuplicateProcess: sets the memory fields of the child; its parent link is in `Processes`, and stack slots and file descriptors are not modelled.
- Processes.Kernel.DoFork: takes as many frames as the parent's page list has, which `ForkLaws.ForkProcess` and `ForkLaws.ForksKeepLayout` justify, and does not copy memory again.
- Processes.Kernel.DoExec: is about the frames only; the image and its arguments are in `Exec`.
- Processes.Kernel.DoWaitpid: has no ptrace branches; a wait that sleeps ends there as `Blocked`, with the PCB it remembers, and goes on in `FinishWait`, and joining a thread that is already gone is `NoThread`. As in the code nothing checks that the caller is the parent.
- Isolation.IsolatedFromBoot: is about running processes. A zombie's page table keeps leading to the frames it has released until it is waited for; nothing runs on it.
- Waits.FreedTwice: takes joining a thread to let every sleeper go on once the process has exited; the code of `thread_join` is not shown. What a write through a freed PCB does is not modelled.
- Exec.SetupProcImageReplace: takes the kernel block as the start of memory long enough for whatever `strcpy` writes before the size check; the entry point is the start of a page.
- Exec.DoSbrk: has no case for a thread without a process.
- Pid wrap-around, file descriptors, signals, threads and their stacks, names, priorities, IRQ flags, the scheduler, and register save in fork.
- ELF parsing and `load_process`; shell, `ls`, `ln`, sockets, `count`, `threads`, timer driver and boot.
- Terminal and grid drawing: the user is an arbitrary sequence of lines, page numbers or moves.
- Messages.RoundTrip: is for whole messages and pipes without errors.
- Messages.AtoiReads: is about numbers of any size; where the range of int matters it is in `AtoiInt`.
- Game.Manager.GetPlayerMove: sees the moves that will arrive as a sequence; waiting is its end. The two programs meet in the step relation of `Game`, and `Transcript` relates its runs to them.
- `print_page`, `print_memory`, `do_renice`, `do_fork2` and the dump functions, which each have one branch or only print.
