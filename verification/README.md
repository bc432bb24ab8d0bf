# C exercises, verified

A Dafny model of eight components of a repository of low-level C programs, with proofs of what
they are for. `dafny verify dfyconfig.toml` checks everything.

- **Kernel memory manager.** `HeapModel` is the heap of `kmalloc.c` as a value, `HeapRuns` what
  every run of `kmalloc` and `kfree` keeps. `ChunkList` says what a raw memory has to hold to
  represent such a heap, and the class `Kmalloc.Arena` is the C code over that memory, field by
  field and loop by loop. `PageWalk` is the processor's four-level walk (Intel SDM Volume 3A,
  section 4.5), `UserPaging` and `Boot` the entries that `translate.c` and the hypervisor write,
  and the class `KernelPaging.PageTables` puts allocator and tables together: the tables, built
  lazily out of zeroed blocks, refine a plain map from user pages to frames and permissions. The
  proof uses what the allocator guarantees: a table is new, page-aligned and zero, and no block of
  the kernel's own is a table. `KernelRuns` says what whole runs amount to, pages mapped between
  allocations, frees and writes of other blocks. What is said of user addresses is about the table
  walk.
- **Gosper's hack.** `Bits`, `BitCounts`, `SwarPop` and `Snoob`: six ways to the next larger number
  with as many one bits, one specification (the least such number), so they agree.
- **S-records to flash.** `SRecord` is the text format and what the program makes of any line,
  `TextFile` what fscanf reads, `Flash` the frames and the device that parses them, and the class
  `H8Write.Writer` the loops of `h8write.c`: with a page size that is a power of two and divides
  the ROM, an erased device ends up holding exactly the image of the file. sscanf is a parameter:
  on hex digits it gives their value, for an empty string it leaves the variable alone, on other
  text it is up to the library. fscanf cuts tokens at 256 characters, so a longer record loses the
  end of its data to what the buffer held, and a last line without a newline is lost.
- **XMODEM receiver.** `Xmodem` is the receiver over a serial line, `XmodemStream` what it makes of
  every byte stream, and `StopAndWait` its guarantees with a sender that resends over a line that
  garbles blocks.
- **Guest arguments.** `ArgvStack`: what `copy_argv` lays out, the guest's entry code reads back.
- **Breakpoint call stack.** `Breakpoints` and the class `CallStack.Stack`: an undo log over
  overlapping words of a tracee's memory.
- **Codecs and parsers.** `Base64` against section 4 of RFC 4648; `Ipv6Walk` against the header
  formats of section 4 of RFC 8200 and section 2.2 of RFC 4302, with exactly when its answer is the
  one of RFC 8200; `Vlan` below it.
- **Substring matcher.** `NoteSearch`: exactly what it finds, for every keyword and note, and the
  class of keywords for which that is everything.

`ByteMemory` (bytes and little-endian words, the class `Ram`) and `Checksum` (byte sums) are shared.

Where the code differs from its documentation or from what it is for, the model follows the code
and a lemma says where it falls short: `SRecord.LastByteErased`, `NoteSearch.CompleteIff` with
`Missed`, `SRecord.RightAlways` with `MisreadExample`, `Snoob.NoNext`, `Ipv6Walk.RightIff` with
`BehindNoNextHeader`, `BehindLaterFragment` and `BehindLaterHopByHop`, `Flash.FrameRightIff`,
`XmodemStream.SentAgain`, `TextFile.LastLine`, `Vlan.FrameIsSkipped` (a ninth tag). Four slips of
the text are read as meant: `chunk2mem` (kmalloc.c line 21) casts to `uint8_t` and is taken as the
inverse of `mem2chunk`; a null `victim` (line 118) is returned without clearing; the branch at lines
59-63 is dead, so the bin is searched for an exact fit; and base64.c line 57 reads `input[1]`
(`Base64.AsWrittenIff` says exactly when the text as written decodes right).

## Model

| member | source | states |
|---|---|---|
| ByteMemory.Ram.Memset | C/vm/kvm_hypervisor_ver3/kernel/utils/string.c:18-23 | memset writes its byte to exactly the bytes asked for and to no other, for lengths its `int` counter can reach |
| ByteMemory.Ram.StoreWord | C/elf_programming/binary_analysis/ftrace.c:165-165 | a poke replaces the eight bytes at the pointer, little-endian, and nothing else (through `Poke`, whose facts are `SetWord`) |
| ByteMemory.SetWord | C/elf_programming/binary_analysis/ftrace.c:158-165 | after a word is stored it reads back, every byte outside it is unchanged, and so is every word that does not overlap it |
| ByteMemory.WordIs | C/elf_programming/binary_analysis/ftrace.c:158-165 | a word is its eight bytes, the least significant first |
| ByteMemory.StoreLoaded | C/elf_programming/binary_analysis/ftrace.c:170-180 | storing back a word loaded earlier restores the whole memory, whatever happened inside that word since |
| HeapModel.RoundUp | C/vm/kvm_hypervisor_ver3/kernel/mm/kmalloc.c:109-114 | the chunk size is the least multiple of 0x80 that covers the request |
| HeapModel.InsertPos | C/vm/kvm_hypervisor_ver3/kernel/mm/kmalloc.c:41-49 | the bin walk stops in front of the first chunk that is not smaller |
| HeapModel.FitPos | C/vm/kvm_hypervisor_ver3/kernel/mm/kmalloc.c:51-73 | the bin walk stops at the first chunk of exactly the size wanted |
| HeapModel.Consume | C/vm/kvm_hypervisor_ver3/kernel/mm/kmalloc.c:95-96 | fewer than 0x1000 bytes are skipped, and the pointer handed out next is then page-aligned |
| HeapRuns.InitGood | C/vm/kvm_hypervisor_ver3/kernel/mm/kmalloc.c:24-32 | a fresh arena satisfies the invariant |
| HeapModel.PushTopWf | C/vm/kvm_hypervisor_ver3/kernel/mm/kmalloc.c:75-83 | carving a chunk off the top keeps tiling, bin order and the live/free partition; the chunk is new |
| HeapModel.TakeFromBinWf | C/vm/kvm_hypervisor_ver3/kernel/mm/kmalloc.c:51-73 | handing out a bin chunk keeps the invariant; the chunk was not live |
| HeapModel.PopTopWf | C/vm/kvm_hypervisor_ver3/kernel/mm/kmalloc.c:128-131 | giving the last chunk back to the top keeps the invariant |
| HeapModel.ToBinWf | C/vm/kvm_hypervisor_ver3/kernel/mm/kmalloc.c:132-134 | giving any other chunk to the bin keeps the invariant, the bin ascending and free of duplicates |
| HeapModel.InsertSortedAscending | C/vm/kvm_hypervisor_ver3/kernel/mm/kmalloc.c:41-49 | insertion keeps the bin ascending in size |
| HeapModel.ChunksApart | C/vm/kvm_hypervisor_ver3/kernel/mm/kmalloc.c:6-17 | distinct chunks never overlap and all lie below the top |
| HeapRuns.PushThenFree | C/vm/kvm_hypervisor_ver3/kernel/mm/kmalloc.c:98-105 | a gap that is cut and freed at once leaves the heap exactly as it was |
| HeapRuns.KmallocAllOrNothing | C/vm/kvm_hypervisor_ver3/kernel/mm/kmalloc.c:85-107 | a kmalloc that returns null changed nothing, on the page-aligned path after the gap was cut too |
| HeapRuns.KmallocGood | C/vm/kvm_hypervisor_ver3/kernel/mm/kmalloc.c:111-120 | kmalloc keeps the invariant and the one odd-sized gap |
| HeapRuns.KfreeGood | C/vm/kvm_hypervisor_ver3/kernel/mm/kmalloc.c:122-135 | kfree keeps the invariant and the one odd-sized gap |
| HeapRuns.KmallocHandsOut | C/vm/kvm_hypervisor_ver3/kernel/mm/kmalloc.c:111-120 | success adds exactly one block to the live ones: new, and large enough for the request |
| HeapRuns.KmallocAligned | C/vm/kvm_hypervisor_ver3/kernel/mm/kmalloc.c:95-106 | a page-aligned request is answered with a multiple of 0x1000 or null |
| HeapRuns.KmallocAnswers | C/vm/kvm_hypervisor_ver3/kernel/mm/kmalloc.c:85-120 | what a request without alignment gets, in numbers: the first bin chunk of exactly the least multiple of 0x80 that covers it and 16 bytes, else the bytes at the top, and null exactly if they do not suffice or for 2^32 bytes and more |
| HeapRuns.KmallocPageAnswers | C/vm/kvm_hypervisor_ver3/kernel/mm/kmalloc.c:95-106 | what a page-aligned request gets: the first multiple of 0x1000 behind a header at the top; the bytes skipped go to the bin; null exactly if the arena ends before it |
| HeapRuns.KfreeAnswers | C/vm/kvm_hypervisor_ver3/kernel/mm/kmalloc.c:122-135 | a block that ends at the top goes back to it, any other one to the bin in front of the first chunk that is not smaller |
| HeapRuns.FreedServes | C/vm/kvm_hypervisor_ver3/kernel/mm/kmalloc.c:111-135 | after a block is freed a request of its size succeeds |
| HeapRuns.Conservation | C/vm/kvm_hypervisor_ver3/kernel/mm/kmalloc.c:75-135 | live bytes, bin bytes and untouched top add up to the arena |
| HeapRuns.ChunkStarts | C/vm/kvm_hypervisor_ver3/kernel/mm/kmalloc.c:85-107 | chunks up to the gap start at 0 mod 0x80, those above it at 0x70 |
| HeapRuns.RunGood | C/vm/kvm_hypervisor_ver3/kernel/mm/kmalloc.c:24-135 | every state of every run of kmalloc and kfree satisfies the invariant |
| HeapRuns.RunTiles | C/vm/kvm_hypervisor_ver3/kernel/mm/kmalloc.c:24-135 | in every state of every run: the chunks tile [base, top), each is live or in the bin exactly once, the bin ascends, every chunk holds its link, no byte is lost |
| HeapRuns.RunGap | C/vm/kvm_hypervisor_ver3/kernel/mm/kmalloc.c:51-107 | once a run has cut an odd-sized gap it stays in the bin for the rest of the run, the top never retreats past it, no second one appears, and it decides where every chunk starts |
| ChunkList.LaidPush | C/vm/kvm_hypervisor_ver3/kernel/mm/kmalloc.c:75-83 | in raw memory: writing the size at the old top represents the heap with the new chunk; live blocks keep their bytes |
| ChunkList.LaidPop | C/vm/kvm_hypervisor_ver3/kernel/mm/kmalloc.c:128-131 | in raw memory: clearing the size of the last chunk represents the heap without it |
| ChunkList.LaidInsert | C/vm/kvm_hypervisor_ver3/kernel/mm/kmalloc.c:41-49 | in raw memory: two link writes represent the bin with the chunk inserted, and touch only free chunks |
| ChunkList.LaidTake | C/vm/kvm_hypervisor_ver3/kernel/mm/kmalloc.c:51-73 | in raw memory: unlinking a chunk and rebuilding its header represents the bin without it |
| ChunkList.LaidClient | C/vm/kvm_hypervisor_ver3/kernel/mm/kmalloc.c:111-135 | a client write inside its own block leaves all bookkeeping and every other block alone |
| Kmalloc.Arena.SetNext | C/vm/kvm_hypervisor_ver3/kernel/mm/kmalloc.c:47-48 | prev->next = v, where prev may be the arena head or a chunk |
| Kmalloc.Arena.WalkSmaller | C/vm/kvm_hypervisor_ver3/kernel/mm/kmalloc.c:42-46 | the loop over memory stops at the first chunk of the bin that is not smaller |
| Kmalloc.Arena.WalkFit | C/vm/kvm_hypervisor_ver3/kernel/mm/kmalloc.c:52-56 | the loop over memory stops at the first exact fit and never panics on a sound heap |
| Kmalloc.Arena.InsertSorted | C/vm/kvm_hypervisor_ver3/kernel/mm/kmalloc.c:41-49 | the list walk over memory implements the sorted insertion of the model and keeps every live block |
| Kmalloc.Arena.FetchSortedBin | C/vm/kvm_hypervisor_ver3/kernel/mm/kmalloc.c:51-73 | the list walk takes out the first exact fit, or nothing; it never panics on a sound heap |
| Kmalloc.Arena.MallocTop | C/vm/kvm_hypervisor_ver3/kernel/mm/kmalloc.c:75-83 | takes a chunk off the top, or returns null and changes nothing |
| Kmalloc.Arena.IntKmalloc | C/vm/kvm_hypervisor_ver3/kernel/mm/kmalloc.c:85-107 | follows the model of both alignments step by step and panics on any other |
| Kmalloc.Arena.Kmalloc | C/vm/kvm_hypervisor_ver3/kernel/mm/kmalloc.c:111-120 | returns a block that no owner had, all zero over its length, page-aligned when asked; every other live block reads as before; failure changes nothing; only a bad alignment panics |
| Kmalloc.Arena.Kfree | C/vm/kvm_hypervisor_ver3/kernel/mm/kmalloc.c:122-135 | takes one block away; every other live block reads as before; never panics on a block that kmalloc returned |
| Kmalloc.Arena.InitAllocator | C/vm/kvm_hypervisor_ver3/kernel/mm/kmalloc.c:24-32 | accepts exactly the nonzero multiples of 0x1000; on memory that exists, starts on a page and is shorter than 2^31 the arena is sound |
| Kmalloc.Arena.ClientStore | C/vm/kvm_hypervisor_ver3/kernel/mm/kmalloc.c:111-135 | a word written by the owner of a block changes that word in its own view, no other owner's view, and keeps the arena sound |
| Kmalloc.Arena.RunOps | C/vm/kvm_hypervisor_ver3/kernel/mm/kmalloc.c:111-135 | over any run of calls and owners' writes the heap goes through the states of the model, and what all owners see evolves event by event: a new block is zero, a freed one gone, a write changes one word of one block |
| Kmalloc.ReadsLastWrite | C/vm/kvm_hypervisor_ver3/kernel/mm/kmalloc.c:111-135 | so an owner reads back the word it wrote last, whatever else happened |
| PageWalk.WalkAgrees | C/vm/kvm_hypervisor_ver3/kernel/mm/translate.c:22-26 | tables that agree along the path of an address translate it alike |
| PageWalk.WalkReaches | C/vm/kvm_hypervisor_ver3/kernel/mm/translate.c:28-45 | the processor's walk of an address passes every table that its address bits name |
| PageWalk.TranslateIs | C/vm/kvm_hypervisor_ver3/kernel/mm/translate.c:22-45 | the walk written out in numbers: nine address bits a level, the present, writable, user and large bits, the frame in bits 51 to 12, and each permission given at every level |
| PageWalk.OtherWalks | C/vm/kvm_hypervisor_ver3/kernel/mm/translate.c:28-49 | one entry written changes no address whose path does not use it |
| PageWalk.LinkEmptyTable | C/vm/kvm_hypervisor_ver3/kernel/mm/translate.c:33-41 | linking a zeroed page that is no table yet, where nothing was, changes no translation and keeps the tree |
| PageWalk.LeafDecides | C/vm/kvm_hypervisor_ver3/kernel/mm/translate.c:46-48 | once its page table exists, one leaf entry decides a page |
| PageWalk.LeafKeepsTree | C/vm/kvm_hypervisor_ver3/kernel/mm/translate.c:46-48 | writing a leaf keeps the tree of tables |
| UserPaging.LeafMeans | C/vm/kvm_hypervisor_ver3/kernel/mm/translate.c:46-48 | for a page-aligned address the leaf holds its frame, is present, user-accessible exactly for PROT_R and writable exactly for PROT_W |
| UserPaging.LeafBits | C/vm/kvm_hypervisor_ver3/kernel/mm/translate.c:31-48 | the leaf for any address: present, the page of the address without bit 39, and the user and writable bits that are asked for or that the address has itself |
| UserPaging.UserRangeIs | C/vm/kvm_hypervisor_ver3/kernel/mm/translate.h:25-29 | the addresses admitted are those of 48 bits but for the 2 MiB of the boot page and the 512 GiB of the kernel |
| UserPaging.TableEntry | C/vm/kvm_hypervisor_ver3/kernel/mm/translate.c:36-39 | a page address with the three flags added is present, user-accessible, writable, no large page, and masking the flags off gives the address back |
| UserPaging.NewTable | C/vm/kvm_hypervisor_ver3/kernel/mm/translate.c:35-35 | the page kmalloc returns is outside every table in use |
| UserPaging.ZeroEntry | C/vm/kvm_hypervisor_ver3/kernel/mm/translate.c:35-35 | a block that kmalloc zeroed reads as 512 absent entries |
| UserPaging.UserOpen | C/vm/kvm_hypervisor_ver3/kernel/mm/translate.c:33-41 | every link above a user page is user-accessible and writable |
| UserPaging.LeafWritten | C/vm/kvm_hypervisor_ver3/kernel/mm/translate.c:46-48 | writing the leaf changes the translation of its page to what the leaf says and of no other address |
| UserPaging.TableLinked | C/vm/kvm_hypervisor_ver3/kernel/mm/translate.c:33-41 | a missing table linked in changes no translation |
| UserPaging.AllocatorKeepsTables | C/vm/kvm_hypervisor_ver3/kernel/mm/translate.c:28-49 | allocating other blocks changes no translation |
| Boot.SetupPaging | C/vm/kvm_hypervisor_ver3/hypervisor/hypervisor.c:58-74 | the hypervisor's three entries, and nothing else in the table area |
| Boot.InitPagetable | C/vm/kvm_hypervisor_ver3/kernel/mm/translate.c:5-14 | the kernel window: one PML4 entry, one PDP entry, 512 large pages |
| Boot.BootTree | C/vm/kvm_hypervisor_ver3/hypervisor/hypervisor.c:58-74 | the boot tables form a tree with open links on every user path |
| Boot.WindowWalk | C/vm/kvm_hypervisor_ver3/kernel/mm/translate.c:5-14 | KERNEL_BASE_OFFSET + x translates to x for every x below 1 GiB, closed to user code |
| Boot.BootPageWalk | C/vm/kvm_hypervisor_ver3/hypervisor/hypervisor.c:62-74 | the first 2 MiB translate to themselves, closed to user code |
| Boot.UserWalk | C/vm/kvm_hypervisor_ver3/kernel/mm/translate.h:27-29 | no address in the user range is mapped at boot |
| KernelPaging.PageTables.constructor | C/vm/kvm_hypervisor_ver3/hypervisor/hypervisor.c:48-74 | after boot the tables refine the empty page map, the kernel mappings hold and the arena is fresh |
| KernelPaging.PageTables.Paging | C/vm/kvm_hypervisor_ver3/kernel/mm/translate.c:33-41 | one PAGING step reaches or makes the next table without changing any translation or any block that is no table; it never panics on a supervisor entry, and on a null pointer only with the arena exhausted |
| KernelPaging.PageTables.Descend | C/vm/kvm_hypervisor_ver3/kernel/mm/translate.c:42-44 | PAGING at one level of the path of a user address keeps the page map and every translation; the supervisor panic does not occur |
| KernelPaging.PageTables.StoreLeaf | C/vm/kvm_hypervisor_ver3/kernel/mm/translate.c:46-48 | a leaf write moves one page and nothing else |
| KernelPaging.PageTables.WriteLeaf | C/vm/kvm_hypervisor_ver3/kernel/mm/translate.c:46-48 | the frame and then one flag after the other leave the leaf that was asked for |
| KernelPaging.PageTables.AddTransUser | C/vm/kvm_hypervisor_ver3/kernel/mm/translate.c:28-49 | a returning call maps the page of vaddr to the page of paddr, user-accessible with bit 0 of prot and writable with bit 1; every other address translates as before; of the three panics, "not allowed" comes exactly below 2 MiB, from 2^48 on and from 2^39 up to 2^40, "invalid address" never, and the one in `physical` only with the arena exhausted; no page mapping moves then |
| KernelPaging.PageTables.AddAll | C/vm/kvm_hypervisor_ver3/kernel/mm/translate.c:28-49 | after any list of returning calls the tables send every address from 2 MiB up to 2^48, but for 2^39 up to 2^40, to the frame and permissions of the last call that names its page, and otherwise where they did before |
| KernelPaging.PageTables.Work | C/vm/kvm_hypervisor_ver3/kernel/mm/translate.c:28-49 | over any run that mixes those calls with the kernel's own allocations, frees of its blocks and writes into them, up to a call that panics and with what makes it panic: the same of every user address; every block held is its own, was not in use before and holds exactly what was written in it; blocks of before are untouched; and every block in use was in use before, is a table or is held |
| KernelPaging.GrantedIs | C/vm/kvm_hypervisor_ver3/kernel/mm/translate.c:31-48 | the entry written decodes, for any paddr and prot, to the frame and permissions written out in numbers |
| KernelPaging.PageTables.AllocElsewhere | C/vm/kvm_hypervisor_ver3/kernel/mm/kmalloc.c:111-120 | the kernel's other allocations change no translation and no block, and what they return is zero, no table and no block in use |
| KernelPaging.PageTables.FreeElsewhere | C/vm/kvm_hypervisor_ver3/kernel/mm/kmalloc.c:122-135 | freeing a block that is no table changes no translation and no other block |
| KernelPaging.PageTables.StoreElsewhere | C/vm/kvm_hypervisor_ver3/kernel/mm/kmalloc.c:111-120 | a word written into a block of the kernel's own changes that word of that block, no other block and no translation |
| KernelRuns.LastCallDecides | C/vm/kvm_hypervisor_ver3/kernel/mm/translate.c:28-49 | the page map after a list of calls holds the last call for each page |
| KernelRuns.TableMade | C/vm/kvm_hypervisor_ver3/kernel/mm/translate.c:35-36 | a table made of a new block leaves every block of the kernel's own alone, and only a table is new |
| KernelRuns.TableWritten | C/vm/kvm_hypervisor_ver3/kernel/mm/translate.c:36-48 | so does an entry written in a table |
| KernelRuns.HoldingStored | C/vm/kvm_hypervisor_ver3/kernel/mm/kmalloc.c:111-135 | a write into a held block changes the data of that block and no other, however the blocks were allocated and freed before |
| KernelRuns.AccountedLess | C/vm/kvm_hypervisor_ver3/kernel/mm/kmalloc.c:122-135 | a freed block is no longer in use, and every other block still is one of before, a table or held |
| KernelPaging.KernelKept | C/vm/kvm_hypervisor_ver3/kernel/mm/translate.h:27-29 | mapping a user page keeps the kernel window and the boot page |
| BitCounts.Ntz | C/bit_calc/snoob.c:4-28 | the halving search returns the number of trailing zeros, 32 for 0 |
| BitCounts.Nlz | C/bit_calc/snoob.c:30-57 | the doubling search returns 32 less the bit length |
| SwarPop.Pop | C/bit_calc/snoob.c:59-66 | the bit-parallel sum returns the population count |
| Snoob.Decompose | C/bit_calc/snoob.c:68-76 | every positive number is digits, a zero, a run of ones, trailing zeros |
| Snoob.MovedIsNext | C/bit_calc/snoob.c:68-76 | moving the top bit of the lowest run up and the rest to the bottom gives the least larger number with as many ones |
| Snoob.BelowRipple | C/bit_calc/snoob.c:71-72 | between x and the ripple every number has more ones |
| Snoob.AboveRipple | C/bit_calc/snoob.c:72-75 | between the ripple and the result every number has fewer ones |
| Snoob.NextUnique | C/bit_calc/snoob.c:68-128 | so there is only one such number, and all variants agree |
| Snoob.Common | C/bit_calc/snoob.c:71-75 | what x & -x, the ripple, the exclusive-or, the quotients and x & ~ripple are, for every x whose ripple fits |
| Snoob.NoNext | C/bit_calc/snoob.c:71-72 | when the ripple does not fit, no 32-bit number has as many ones |
| Snoob.Snoob | C/bit_calc/snoob.c:68-76 | returns the next number exactly when the ripple fits 32 bits; otherwise none is there to find, and the result is the ones of x, less two, in the lowest places |
| Snoob.TopRun | C/bit_calc/snoob.c:71-72 | a number whose ripple wraps is a run of ones up to the top bit |
| Snoob.Snoob1 | C/bit_calc/snoob.c:78-87 | by shifting: the next number exactly when the ripple fits, otherwise the ones less two in the lowest places |
| Snoob.Snoob2 | C/bit_calc/snoob.c:89-97 | by leading zeros: 0 for 0, else the next number exactly when the ripple fits, otherwise the ones less two, while the shift count stays below 32 |
| Snoob.Snoob3 | C/bit_calc/snoob.c:99-107 | by population count: the next number exactly when the ripple fits, otherwise the ones less two in the lowest places |
| Snoob.NextSetOfNElements | C/bit_calc/snoob.c:109-119 | the same next number; 0 for 0; all ones when the ripple wraps |
| Snoob.Snoob4 | C/bit_calc/snoob.c:121-128 | on ints, negative ones too: the bit pattern of the next number when the ripple of the pattern fits, -1 when it wraps; the shift loop ends |
| Snoob.Enumerate | C/bit_calc/snoob.c:147-161 | the six columns main prints always agree, and the first lists every byte with n ones once, ascending |
| SRecord.ScannerExists | C/embedded_os/src/tools/h8write/h8write.c:1626-1640 | a library that does what is asked of sscanf exists |
| SRecord.WellFormedRead | C/embedded_os/src/tools/h8write/h8write.c:1609-1643 | a complete hex line is read as the format says, whatever buffer and variables held before |
| SRecord.WellFormedFile | C/embedded_os/src/tools/h8write/h8write.c:1607-1647 | so is each such line of a file, among whatever other lines |
| SRecord.RecordMeans | C/embedded_os/src/tools/h8write/h8write.c:1607-1643 | a record laid out by the format keeps all its data in the 256 characters of a token exactly with up to 125 bytes of data and address digits, and the token then means that address and data |
| SRecord.RecordRead | C/embedded_os/src/tools/h8write/h8write.c:1607-1643 | what the program makes of such a record, whatever the buffer and variables held: it is skipped outside the range, read as its address and data if fscanf does not cut it, and otherwise read with the bytes behind the cut scanned from the NUL and the rest of the buffer |
| SRecord.CutReadRight | C/embedded_os/src/tools/h8write/h8write.c:1607-1643 | a cut record is read right exactly when that rest of the buffer spells the bytes behind the cut; never when the first of them differs from the byte before |
| SRecord.RightAlways | C/embedded_os/src/tools/h8write/h8write.c:1607-1643 | a record is read right whatever came before it exactly when its data is not cut, or one byte is cut off that equals the byte before it |
| SRecord.FileRecord | C/embedded_os/src/tools/h8write/h8write.c:1607-1647 | in any file, among whatever other lines, each record is read in that way, with the bytes the buffer held at the start behind the cut |
| SRecord.MisreadExample | C/embedded_os/src/tools/h8write/h8write.c:1607-1643 | 124 zeros and a one, in a record for address 0, are read as 125 zeros whatever came before |
| SRecord.RestSkipped | C/embedded_os/src/tools/h8write/h8write.c:1607-1646 | what fscanf leaves of a longer line is skipped |
| SRecord.OtherSkipped | C/embedded_os/src/tools/h8write/h8write.c:1609-1623 | a line that does not start with S1, S2 or S3 contributes nothing |
| SRecord.DigitIs | C/embedded_os/src/tools/h8write/h8write.c:1624-1640 | the hex digits, in either case |
| SRecord.Examples | C/embedded_os/src/tools/h8write/h8write.c:1609-1643 | one record of each kind, in characters |
| SRecord.ImageErased | C/embedded_os/src/tools/h8write/h8write.c:1605-1646 | an address no record covers stays 0xff |
| SRecord.ImageLast | C/embedded_os/src/tools/h8write/h8write.c:1605-1646 | the last record that covers an address decides its byte |
| SRecord.TakenInRange | C/embedded_os/src/tools/h8write/h8write.c:1631-1635 | a record that is taken ends before the last byte of the ROM |
| SRecord.LastByteErased | C/embedded_os/src/tools/h8write/h8write.c:1631-1635 | the range test is one byte too strict: no file can write the last byte of the ROM |
| SRecord.LastByteSkipped | C/embedded_os/src/tools/h8write/h8write.c:1631-1635 | a record inside the ROM, of any length and whatever came before it, is skipped exactly when it reaches that byte |
| SRecord.LastByteExample | C/embedded_os/src/tools/h8write/h8write.c:1631-1635 | "S1047FFFAACF" is skipped for a ROM of 32 KiB, whatever came before it |
| Flash.PageBit | C/embedded_os/src/tools/h8write/h8write.c:1596-1600 | the loop finds the least power of two that reaches the page size |
| Flash.PageBitExact | C/embedded_os/src/tools/h8write/h8write.c:1596-1660 | the loop finds the exponent of any power-of-two page size up to 2^16 |
| Flash.PageAddressIff | C/embedded_os/src/tools/h8write/h8write.c:1660-1665 | i << pagebit is i * pagesize, for any page but the first, exactly for such a page size |
| Flash.DirtyMeans | C/embedded_os/src/tools/h8write/h8write.c:1636-1643 | a page is dirty exactly when some record covers a byte of it |
| Flash.CleanErased | C/embedded_os/src/tools/h8write/h8write.c:1605-1643 | a byte on a clean page is 0xff in the image |
| Flash.NumberRead | C/embedded_os/src/tools/h8write/h8write.c:1319-1333 | the four bytes sent for an address read back as the address |
| Flash.CheckedSum | C/embedded_os/src/tools/h8write/h8write.c:1662-1670 | a frame with its checksum sums to 0 modulo 256 |
| Flash.FrameRun | C/embedded_os/src/tools/h8write/h8write.c:1658-1670 | a device that checks command, address and sum accepts a frame and stores its page where it came from |
| Flash.FramesRun | C/embedded_os/src/tools/h8write/h8write.c:1656-1734 | it accepts the whole log of frames up to the end frame |
| Flash.WrittenAt | C/embedded_os/src/tools/h8write/h8write.c:1656-1668 | byte by byte: enabled pages come from the image, other pages keep what they had |
| H8Write.Writer.constructor | C/embedded_os/src/tools/h8write/h8write.c:1596-1606 | for any page size: page bit found, image erased, page table clear |
| H8Write.Writer.Clear | C/embedded_os/src/tools/h8write/h8write.c:1605-1606 | image erased, page table clear |
| H8Write.Writer.Fscanf | C/embedded_os/src/tools/h8write/h8write.c:1607-1607 | fscanf over the text of the file: white space skipped, up to 256 characters and a NUL over the start of the buffer, end of file when it runs into the end |
| H8Write.Writer.CopyData | C/embedded_os/src/tools/h8write/h8write.c:1636-1643 | the inner loop stores the scanned bytes and marks exactly their pages |
| H8Write.Writer.LoadRecord | C/embedded_os/src/tools/h8write/h8write.c:1609-1645 | any line, malformed ones too, updates image, page table and the variables carried on exactly as `SRecord.Read` says, within the 512-byte buffer |
| TextFile.FileSeen | C/embedded_os/src/tools/h8write/h8write.c:1607-1646 | of any file of words the loop sees all, in order, long ones in pieces of 256 characters, but for a last one that nothing follows, of which it misses the last piece unless that is full |
| TextFile.FileOfWords | C/embedded_os/src/tools/h8write/h8write.c:1607-1646 | every file is one of words |
| TextFile.LinesSeen | C/embedded_os/src/tools/h8write/h8write.c:1607-1646 | a file whose lines are at most 256 characters long and all end in white space is seen line by line |
| TextFile.LastLine | C/embedded_os/src/tools/h8write/h8write.c:1607-1608 | a last line that nothing follows is the one that is not seen, unless it has 256 characters |
| TextFile.SpaceIs | C/embedded_os/src/tools/h8write/h8write.c:1607-1607 | white space is the six characters of isspace |
| H8Write.Writer.Load | C/embedded_os/src/tools/h8write/h8write.c:1607-1647 | after the record loop the image holds the records of the tokens seen in the text, in order, and a page is enabled exactly when it is dirty |
| H8Write.OneRecordFile | C/embedded_os/src/tools/h8write/h8write.c:1607-1647 | the file "S1047FFEAAD4" with a newline is read as its record, without one as nothing |
| H8Write.OneRecordImage | C/embedded_os/src/tools/h8write/h8write.c:1605-1647 | its image has 0xaa at 0x7ffe and 0xff elsewhere; without the newline 0xff everywhere |
| H8Write.Writer.PutLong | C/embedded_os/src/tools/h8write/h8write.c:1319-1333 | sends the address most significant byte first and returns the running checksum |
| H8Write.Writer.SendPage | C/embedded_os/src/tools/h8write/h8write.c:1660-1669 | one page goes out as a checksummed frame, for any page size: the address is i << pagebit, the bytes start at i * pagesize, inside the buffer |
| H8Write.Writer.SendPages | C/embedded_os/src/tools/h8write/h8write.c:1656-1669 | the enabled pages go out in order, and only those |
| H8Write.Writer.SendEnd | C/embedded_os/src/tools/h8write/h8write.c:1724-1732 | the frame that ends the writing |
| H8Write.Writer.WriteFile | C/embedded_os/src/tools/h8write/h8write.c:1596-1734 | for any page size the image and page table of the file go out as frames; for a power of two that divides the ROM they program an erased device with exactly the image of the file |
| Flash.FrameRightIff | C/embedded_os/src/tools/h8write/h8write.c:1660-1668 | any page but the first goes out with its own address exactly where the page size is the power of two that the loop found |
| Flash.FrameBytes | C/embedded_os/src/tools/h8write/h8write.c:1660-1669 | in bytes: 0x50, the address with its top byte first, the page, and a byte that makes the sum 0 modulo 256 |
| Flash.EndFrameBytes | C/embedded_os/src/tools/h8write/h8write.c:1724-1732 | the end frame is 50 ff ff ff ff b4 |
| Flash.SentIsFrames | C/embedded_os/src/tools/h8write/h8write.c:1656-1669 | for a power of two the frames sent are those of the pages of the ROM, each with its own address |
| H8Write.FlashIsImage | C/embedded_os/src/tools/h8write/h8write.c:1656-1734 | any image and page table that hold the records do so |
| Xmodem.XorBytes | C/embedded_os/src/bootload/xmodem.c:38-50 | the exclusive-or tests accept exactly complements and equal checksums |
| Xmodem.ReadBlockInto | C/embedded_os/src/bootload/xmodem.c:29-54 | one block read: 128 bytes into place, or -1 after consuming what was read; earlier data is untouched |
| Xmodem.XmodemWait | C/embedded_os/src/bootload/xmodem.c:16-27 | while the sender is quiet, one NAK for every two million looks at the line |
| Xmodem.XmodemRecv | C/embedded_os/src/bootload/xmodem.c:56-89 | for any stream, and any buffer as long as the receiver reaches into it, the loop computes the receiver function of the byte stream: size, data and every reply |
| Xmodem.ReachBound | C/embedded_os/src/bootload/xmodem.c:42-53 | the receiver never reaches further into the buffer than the file it returns and one block |
| XmodemStream.PieceReceived | C/embedded_os/src/bootload/xmodem.c:29-87 | of a block with another number only SOH and that byte are read, of one with a wrong complement one byte more, of a garbled one all of it; each gets its NAK, and the next byte decides |
| XmodemStream.StreamReceived | C/embedded_os/src/bootload/xmodem.c:56-89 | any list of noise, blocks and refused pieces is received piece by piece |
| XmodemStream.PiecesAre | C/embedded_os/src/bootload/xmodem.c:56-89 | every byte stream is such a list up to a byte that ends it or an unfinished block |
| XmodemStream.DoneIff | C/embedded_os/src/bootload/xmodem.c:56-89 | a size, its data and replies are returned exactly for such pieces and an EOT behind them |
| XmodemStream.FailedIff | C/embedded_os/src/bootload/xmodem.c:71-86 | -1 is returned exactly for such pieces and a CAN, or a byte that is no SOH or EOT once a block has started |
| XmodemStream.WaitingIff | C/embedded_os/src/bootload/xmodem.c:56-89 | and the receiver waits for more exactly for such pieces and an unfinished block |
| XmodemStream.SentAgain | C/embedded_os/src/bootload/xmodem.c:33-35 | a block sent again after it was taken makes the transfer fail whatever follows, but for number 251, whose complement ends it, and 254, whose complement starts a block |
| XmodemStream.SentAgainExample | C/embedded_os/src/bootload/xmodem.c:33-86 | the first block twice: -1, with the replies ACK and NAK |
| StopAndWait.TakenIffOk | C/embedded_os/src/bootload/xmodem.c:29-54 | a block is taken exactly when number, complement and checksum are right |
| StopAndWait.FramesInOrder | C/embedded_os/src/bootload/xmodem.c:61-82 | the blocks taken stand in the input in order and without overlap, each right after an SOH |
| StopAndWait.AnyStream | C/embedded_os/src/bootload/xmodem.c:56-89 | on any byte stream a returned size is 128 times the blocks taken; these stand in the input in order and apart; the buffer is their payloads in order, block k carried k mod 256 with right complement and checksum, and the ACKs count the blocks and the end |
| StopAndWait.CopyReceived | C/embedded_os/src/bootload/xmodem.c:72-82 | an intact copy of the block expected is taken and acknowledged, one garbled after the header is refused, and either way all of it is read |
| StopAndWait.Delivered | C/embedded_os/src/bootload/xmodem.c:56-89 | with a sender that obeys the replies, a returned size means exactly the sender's blocks, in order, no loss and no duplicate, for any number of blocks |
| StopAndWait.ExchangeEnds | C/embedded_os/src/bootload/xmodem.c:56-89 | with finitely many garbled transmissions the exchange ends with the file delivered, after at most one extra transmission for each |
| ArgvStack.CopyStrings | C/vm/kvm_hypervisor_ver3/hypervisor/hypervisor.c:228-232 | the strings stand one below the other from rsp down, each with its NUL, and nothing else changed |
| ArgvStack.CopyPointers | C/vm/kvm_hypervisor_ver3/hypervisor/hypervisor.c:235-237 | the null word and below it the pointers in order, and nothing else changed |
| ArgvStack.CopyArgv | C/vm/kvm_hypervisor_ver3/hypervisor/hypervisor.c:220-243 | the guest reads back exactly the arguments: count, pointers, null word, strings; the strings adjoin up to rsp, below them at most 15 bytes of padding to a multiple of 16; nothing outside [rsp after, rsp before) changed, and all within the 0x4000 bytes of the stack exactly when strings, padding and words fit |
| ArgvStack.ReadsBack | C/vm/kvm_hypervisor_ver3/kernel/entry.s:4-7 | a memory laid out like that reads as the argument list through the entry code's registers |
| ArgvStack.CStringIs | C/vm/kvm_hypervisor_ver3/hypervisor/hypervisor.c:228-232 | following a pointer up to the first zero gives the string |
| Breakpoints.TrapIs | C/elf_programming/binary_analysis/ftrace.c:161-161 | (orig & ~0xff) | 0xcc replaces the low byte |
| Breakpoints.TrapByte | C/elf_programming/binary_analysis/ftrace.c:156-168 | planting a trap changes one byte of the tracee |
| Breakpoints.CallKeeps | C/elf_programming/binary_analysis/ftrace.c:187-190 | a push keeps memory equal to the text with traps at the pending return addresses |
| Breakpoints.ReturnKeeps | C/elf_programming/binary_analysis/ftrace.c:192-198 | so does a pop, also for repeated addresses and overlapping words |
| Breakpoints.MemoryIsMarked | C/elf_programming/binary_analysis/ftrace.c:156-198 | after any calls and returns memory is the text with those traps; with none pending it is the text |
| Breakpoints.TrapsArePending | C/elf_programming/binary_analysis/ftrace.c:153-180 | after any calls and returns the bytes are 0xcc at exactly the return addresses of the calls that have not returned and have a word of memory there, and the text elsewhere |
| Breakpoints.UnwindingRestores | C/elf_programming/binary_analysis/ftrace.c:192-198 | popping to empty restores memory exactly |
| CallStack.Stack.constructor | C/elf_programming/binary_analysis/ftrace.c:182-185 | an empty stack over an unmarked tracee |
| CallStack.Stack.PeekText | C/elf_programming/binary_analysis/ftrace.c:158-158 | the word at the address, or -1 where there is none |
| CallStack.Stack.PokeText | C/elf_programming/binary_analysis/ftrace.c:165-165 | replaces the word at the address, or nothing where there is none |
| CallStack.Stack.SetBreakpoint | C/elf_programming/binary_analysis/ftrace.c:156-168 | saves the word, -1 if there is none, and plants the trap for the top entry |
| CallStack.Stack.RemoveBreakpoint | C/elf_programming/binary_analysis/ftrace.c:170-180 | stores the saved word back |
| CallStack.Stack.Push | C/elf_programming/binary_analysis/ftrace.c:187-190 | one call of the undo log, with the entry copied to the top |
| CallStack.Stack.Pop | C/elf_programming/binary_analysis/ftrace.c:192-198 | one return of the undo log, or null on an empty stack |
| Base64.TablesInverse | C/network/network_security/base64.c:34-43 | the two tables are inverse on the alphabet |
| Base64.EncodedSize | C/network/network_security/base64.c:7-32 | the encoding has 4 * ceil(n / 3) characters |
| Base64.EncoderBits | C/network/network_security/base64.c:9-27 | the encoder's masks and shifts are the quotients and remainders of section 4 of RFC 4648 |
| Base64.LetterIs | C/network/network_security/base64.c:5-5 | the table is the alphabet of RFC 4648, character by character |
| Base64.EncodeGroup | C/network/network_security/base64.c:9-28 | one pass writes the group's four characters |
| Base64.Encode | C/network/network_security/base64.c:7-32 | writes for every nonempty input 4 * ceil(n / 3) characters, each the one of the alphabet at six bits of the input, or "=" where no bit is left; then a NUL, and nothing beyond |
| Base64.EncodedCharacters | C/network/network_security/base64.c:7-32 | so is the encoding, character by character |
| Base64.Padding | C/network/network_security/base64.c:11-24 | it ends in "==", "=" or no "=" by the length modulo 3 |
| Base64.DecodeQuad | C/network/network_security/base64.c:57-68 | one pass writes the bytes of a group (line 57 read as `input[1]`) |
| Base64.CheckQuad | C/network/network_security/base64.c:50-55 | accepts exactly the characters of the alphabet and the padding |
| Base64.Decode | C/network/network_security/base64.c:45-73 | returns -1 exactly on a character that is neither of the alphabet nor "=", else the decoded bytes and their number |
| Base64.DecodedJoin | C/network/network_security/base64.c:45-73 | groups are decoded one after the other, wherever a "=" stands |
| Base64.DecodedGroup | C/network/network_security/base64.c:57-68 | a group in numbers: 24 bits from the places in the alphabet, less a byte for each "=" in third or fourth place |
| Base64.Vectors | C/network/network_security/base64.c:7-73 | the test vectors of section 10 of RFC 4648, in both directions |
| Base64.RoundTrip | C/network/network_security/base64.c:7-73 | decoding an encoding gives the bytes back |
| Base64.AsWrittenIff | C/network/network_security/base64.c:57-57 | with `input[i]` as written, decoding is right on exactly those texts where each group is followed by a character with the high bits of its second one |
| Base64.AsWrittenFails | C/network/network_security/base64.c:57-57 | "TWFu" with its NUL behind it is decoded wrongly as written |
| Ipv6Walk.LocateL4 | C/network/libpcap_example/find_payload.c:77-127 | every read is inside the captured bytes, the loop ends, and it computes the walk |
| Ipv6Walk.HeaderSize | C/network/libpcap_example/find_payload.c:94-123 | every extension header takes at least 8 bytes |
| Ipv6Walk.BuiltIsFound | C/network/libpcap_example/find_payload.c:77-127 | a packet built from fragment, AH and generic headers ending in TCP, UDP or ICMPv6 is walked to exactly that protocol past exactly those headers |
| Ipv6Walk.FoundIff | C/network/libpcap_example/find_payload.c:77-127 | on any bytes a protocol and offset are reported exactly when a chain of headers of the shapes the code knows leads there |
| Ipv6Walk.ReportedIs | C/network/libpcap_example/find_payload.c:85-88 | nothing but the protocols 6, 17 and 58 is ever reported |
| Ipv6Walk.Packets | C/network/libpcap_example/find_payload.c:77-127 | a packet of each protocol, plain, behind options, in a first fragment and behind an authentication header, and an encrypted one, in bytes |
| Ipv6Walk.NeverMisses | C/network/libpcap_example/find_payload.c:77-127 | whatever header the walk of section 4 of RFC 8200 finds, the program finds |
| Ipv6Walk.RightIff | C/network/libpcap_example/find_payload.c:77-127 | what the program finds in a packet is what the standard finds exactly when the headers it passed are all of extension header types, Hop-by-Hop Options at most the first of them, and no later fragment |
| Ipv6Walk.BuiltIsRight | C/network/libpcap_example/find_payload.c:77-127 | in any packet built from headers of the shapes the code knows the standard finds the protocol if they conform, and nothing otherwise; the program finds it anyway |
| Ipv6Walk.BehindNoNextHeader | C/network/libpcap_example/find_payload.c:115-125 | behind next header 59 the program reports a TCP header that the standard says is not there |
| Ipv6Walk.BehindLaterFragment | C/network/libpcap_example/find_payload.c:94-100 | and behind a fragment header with a nonzero offset |
| Ipv6Walk.BehindLaterHopByHop | C/network/libpcap_example/find_payload.c:115-125 | and behind Hop-by-Hop Options that follow Destination Options, where the standard discards the packet |
| Vlan.SkipVlan | C/network/libpcap_example/find_payload.c:34-55 | computes the tag walk, at most eight tags, within the captured bytes |
| Vlan.FrameIsSkipped | C/network/libpcap_example/find_payload.c:34-55 | a frame with any tags: up to eight are skipped and the type behind them returned, a ninth is reported as the type |
| Vlan.SkippedIff | C/network/libpcap_example/find_payload.c:34-55 | on any bytes an offset and a type are reported exactly when such tags lead there |
| Vlan.TooShortIff | C/network/libpcap_example/find_payload.c:35-45 | -1 is returned exactly for a frame that ends before its type or in the middle of a tag |
| Vlan.Frames | C/network/libpcap_example/find_payload.c:34-55 | an untagged frame, one with each of the tags 0x8100, 0x88a8 and 0x9100, and one with two, in bytes |
| NoteSearch.SearchNote | C/buffer_orverflow/notesearch.c:82-116 | 1 is returned only if the keyword occurs in the note |
| NoteSearch.CompleteIff | C/buffer_orverflow/notesearch.c:82-116 | every occurrence is found, in all notes, exactly for keywords in which every repetition of a start goes on like the start |
| NoteSearch.FoundIff | C/buffer_orverflow/notesearch.c:92-113 | for every keyword and note: 1 is returned exactly if the note is made of pieces of the keyword's start that were broken off or cut for a new start, the keyword, and anything behind it |
| NoteSearch.Missed | C/buffer_orverflow/notesearch.c:92-113 | for any other keyword, a note that contains it and is answered 0 |
| NoteSearch.FirstCharacterUnique | C/buffer_orverflow/notesearch.c:98-106 | keywords whose first character does not come again are always found |
| NoteSearch.MissesAab | C/buffer_orverflow/notesearch.c:92-113 | "aab" is not found in "aaab" |

## Left out

- Kmalloc.Arena.Kmalloc: a request that fails returns null and does not clear memory at address 0, see above.
- Kmalloc.Arena.Kfree: takes null or a pointer that kmalloc returned and kfree has not taken back; what a foreign pointer does is undefined in the source.
- KernelPaging.PageTables.AddTransUser: an exhausted arena makes `physical(0)` panic; the tables added by earlier levels of that call then stay linked, which no translation shows.
- KernelPaging.PageTables.AddAll: the statements about user addresses are about the table walk alone; USER_MEM_RANGE_OK also admits 2^47 to 2^48, which are not canonical, so that the processor faults on them before any walk.
- KernelPaging.PageTables.FreeElsewhere: the kernel never frees a table, so freeing one is excluded.
- KernelPaging.PageTables.Work: the kernel frees and writes only blocks it holds, within the lengths it asked for, and does not write through a null pointer.
- KernelPaging.PageTables.constructor: the page-table area is taken to be zero, as fresh anonymous memory is; guest memory is addressed through the kernel window from the start.
- Physical effects of writes through mapped frames, caches and the translation lookaside buffer, the no-execute bit: only translations are modelled.
- Snoob.Snoob1: needs a nonzero argument, as a shift by 32 is undefined in C.
- Snoob.Snoob2: needs fewer than 30 trailing zeros, as a shift by the word width is undefined in C.
- Snoob.Snoob3: needs an argument other than 0 and 0x80000000, for which its shift count would be negative.
- Snoob.Snoob4: excludes 0, for which its loop does not end, the least int, and positive arguments whose ripple overflows, which is undefined in C.
- Snoob.Enumerate: parsing of the argument and printing.
- H8Write.Writer.LoadRecord: what sscanf does with characters that are no hex digits is the library's; the range test for addresses within 255 of 2^31, which overflows in C, is taken on unbounded integers.
- H8Write.Writer.constructor: needs a ROM that fits the buffers and a page size of at most 2^16; the device sends it as two bytes. The queries themselves are not modelled.
- H8Write.Writer.WriteFile: what a device makes of the frames of a page size that is no power of two (`Flash.FrameRightIff`: the addresses of all pages but the first are then wrong) or does not divide the ROM; the protocol of the CPUs without boot commands (lines 1586-1595, 1649-1655, 1711-1721), option parsing, and the error replies of the device.
- Xmodem.XmodemRecv: how long the sender stays quiet before each byte is arbitrary; a line that goes dead is reported instead of waiting for ever.
- StopAndWait.Delivered: the line may change payload and checksum bytes as long as the byte sum no longer matches, not the header, and replies arrive intact.
- ArgvStack.CopyArgv: register access by ioctl; arguments that would run below the guest's memory, which the source does not check, are excluded.
- CallStack.Stack.Push: the source has no test for a full stack of 1000000 entries; one more would be written beyond the array.
- Base64.Decode: a text of length 0 reads beyond its input in the source; the assertion on the length is a precondition.
- Base64.Unletter: the table is written as ranges of character codes instead of a list of 129 entries.
- Ipv6Walk.RightIff: the walk of the standard runs over the captured bytes like the program's, and asks what section 4 of RFC 8200 says of header types, the place of Hop-by-Hop Options and fragment offsets; options inside the headers, the packet's own length field, and the padding of authentication headers to eight bytes are not looked at.
- Ipv6Walk.LocateL4: offsets are unbounded integers; captured packets are far shorter than a `size_t` can count.
- The IPv4 branch of find_payload.c, capture and printing.
- hypercall.c, the ELF and archive dumpers, the HTTP code, byte-swap helpers and the string routines beside memset: they would add easy members or leave their intent unclear.
- kernel_main is not part of this model; ArgvStack stops at the two registers that the entry code loads.
