# The memory machinery of the QNX startup library

This project models the part of the startup library (`lib/` of the board support package for the
STM32MP257F-DK) that decides where everything goes before the kernel runs, and proves what its
callers rely on. It is written in the form of the C code: fields that functions edit in place are
fields of classes, loops stay loops, and a call to `crash` is a result `ok == false`.

| file | models |
|---|---|
| `PageTable.dfy`, `MapTables.dfy` | 4K page tables: building them lazily, the contiguous-hint path, and the walker |
| `Elf.dfy` | the 64-bit ELF loader on top of allocator, copying and page tables |
| `Blocks.dfy`, `Avoids.dfy`, `Ram.dfy`, `RamRuns.dfy` | the free list, the avoid list, the work space allocator, and whole runs of them |
| `AsInfo.dfy`, `Sysram.dfy` | the address space table, splitting a range over nested containers, and keeping "sysram" in step with the free list |
| `Arena.dfy`, `ArenaRuns.dfy` | the system page under construction: sections that grow by shifting, and whole runs of that |
| `Callouts.dfy` | sizing and writing the callouts, and the space set aside between the two passes |
| `Strings.dfy`, `TypedStrings.dfy` | interned strings and strings filed by type |
| `Memory.dfy` | memory as bytes; `memcpy`, `memmove`, `copy_memory` |
| `EfiMap.dfy`, `RamInfoEfi.dfy` | heap sort and walk of the firmware's memory map, and the three passes that feed the allocator from it |
| `BootArgs.dfy` | editing the packed argument and environment list |
| `Timer.dfy`, `Fractions.dfy`, `Calendar.dfy` | frequency to period and ticks to nanoseconds; seconds to calendar and back |
| `Align.dfy`, `Flat.dfy`, `Option.dfy` | rounding, concatenation, missing values |

The main results, in the order the parts depend on each other:

* **Loading is faithful.** `Elf.Loader.LoadElf64Mmu`: after loading, each virtual byte of each
  loadable segment, read through the page-table walker over the bytes of memory, is the byte of the
  file or zero behind it, with the permissions that the header's bits ask for; and loading fails only
  for want of memory or address space.
  It rests on `MapTables.PageTables.Map` (the walker agrees with the builder and every other
  address keeps its translation), on `Memory.Memmove`, and on the allocator never handing out a
  byte twice. The tables live in the same memory as everything else: `MapTables.Backed` says that
  memory holds each descriptor, `MapTables.WalkReadsTables` that a walk over the bytes of memory
  gives the same answers, and `MapTables.Grew` that no byte changes which is neither free nor in a
  table.
* **The contiguous path is only an optimisation.** `MapTables.BurstsRefineSinglePages` compares
  two results of the loops, with the path and without; `MapTables.ContigKept`.
* **Automatic mappings last.** `MapTables.AutoNeverOverlaps` and `MapTables.AutoStays` over any run
  of `aarch64_map`.
* **The free list is a set.** `AddMem` is union, `Carve` is difference although it inserts while it
  scans, and `Blocks.CanonicalUnique` makes the list a function of the set.
* **A search is determined.** It answers the lowest place that the avoid list leaves
  (`Ram.RamAllocator.FindRam`), so state and arguments fix every answer and the list it leaves:
  `RamRuns.AllocUnique`, `RamRuns.WsAllocUnique`, `RamRuns.AddRamUnique`.
* **Nothing is handed out twice.** `RamRuns.BlocksNeverOverlap` over all interleavings of the early
  bump phase, searches, explicit carves, added RAM and avoided ranges, as long as work space is not
  asked for after the RAM ran out, no handed-out byte is added again, searches name an alignment (a
  power of two, as `AllocRam` requires), no avoided range reaches 2^64, and no entry of the avoid list
  ends at 0 when a block is handed out that is only avoided. The last holds if every avoided range
  ends above 0: `RamRuns.NothingIsHidden`.
* **Pieces have the right owners.** `AsInfo.AsTable.AddContaining`; and `AllocRam` keeps "sysram"
  equal to the free list.
* **Converted clocks.** `Timer.ClockNeverAhead`: from any frequency that loses no digit, through
  inversion and conversion, no number of ticks reads as more nanoseconds than have passed.
* **Growing the system page loses nothing.** `Arena.SysPage.GrowSection`, `SetSection`, `Reloc`,
  and `ArenaRuns.RunKeepsContents` over any run of them: only the header's words `total_size` and
  `size` change, and they stay true.

Some things the code does not do, each with its exact condition:

* An `avoid_ram` range that ends at address 0, such as the `avoid_ram(0, 0)` of the option `-r0,0`
  (`lib/common_options.c:135-142`), ends the avoid list for searches: `Avoids.LaterRangeVisible`. Two
  calls of `ws_alloc` behind it return the same block (`RamRuns.HiddenEntryReusesMemory`), and a second
  call may do so exactly when searches see nothing of what the first one avoided:
  `RamRuns.SecondCallExact`.
* The avoid fold can give up a candidate with room left, or keep too little of it
  (`Avoids.GreedyFoldLosesRoom`). It does so exactly when the list holds a range with room on both
  sides of what is left at its turn and does not avoid all of the side that the fold drops there:
  `Avoids.KeepsRoomExactly`.
* `find_ram` with alignment 0 answers address 0 or nothing, because `ROUND(s, 0)` is 0: `FindRam`.
* Once all RAM is taken `ws_alloc` goes back to the bump window: `RamRuns.DryAllocExact`.
* `aarch64_map` adds the page offset twice to its result for an explicit address: the last clause of
  `Map`.
* `load_elf64mmu` takes a `boot_vaddr_base` of 0 for none, so a segment that starts in page 0 is forgotten
  unless the last one does (`Elf.PageZeroIsForgotten`): `Elf.BaseIsLowest`.
* `memcpy` counts rounds of words in 32 bits and copies all bytes exactly when an address is not
  word aligned or there are at most 2^36 words: `Memory.Memcpy`, `Memory.MemcpyIsComplete`.
* `copy_memory` cuts its chunk size to 32 bits: it never ends for a positive multiple of 2^32
  (`Memory.ChunkStalls`), and is a move of all bytes, whatever memory holds, exactly when the length
  is below 2^32 or the destination does not lie behind the start of the source and inside it:
  `Memory.CopyMemory`, `Memory.ChunksMoveExactly`.
* `efi_walk_map` returns one descriptor too many when the map size is no multiple of the descriptor
  size: `EfiMap.WalkOverrunsOnRemainder`.
* The argument list's fields stop being true when both strings are NULL or the result does not fit
  them: `BootArgs.Bootargs.ArgAdjust`.
* The comment of `invert_timer_freq` promises the highest possible precision; above a tenth of the
  32-bit range the last digit of the frequency is dropped first, and a clock can run ahead
  (`Timer.FastClockRunsAhead`), with a scale of at least -18, so below 2328306500 Hz, exactly when the
  period is too long: `Timer.NeverAheadIff`, `Timer.LostDigit`; with the scale -19 exactly when the
  period without its last digit is too long, or the period is and its product with the least number of
  ticks that shows it, which `Fractions.Simplest` computes, fits 64 bits: `Timer.NeverAheadAtLastScale`.
* `timer_tick2ns` divides by zero for some number of ticks exactly from 1000000010 Hz on:
  `Timer.UsableIff`.
* `calc_time_t` and `_gmtime` disagree about century years: `Calendar.RoundTrip`.

Nothing was executed; `dafny verify dfyconfig.toml` checks every proof.

## Model

| member | source | states |
|---|---|---|
| `PageTable.WalkIsLeaf` | bsp/qnx800.bsp.hw.st_stm32mp257f-dk/bsp/BSP_st-stm32mp257f-dk_be-800/src/hardware/startup/lib/aarch64/aarch64_map.c:285-349 | On well-formed tables the walker of an address outside the recursive entries answers exactly with the level 3 descriptor of its page: unmapped, or output address plus page offset |
| `PageTable.GigaBlockWalk` | bsp/qnx800.bsp.hw.st_stm32mp257f-dk/bsp/BSP_st-stm32mp257f-dk_be-800/src/hardware/startup/lib/aarch64/aarch64_map.c:312-321 | A block descriptor of level 1 translates its 1G to consecutive addresses |
| `PageTable.MegaBlockWalk` | bsp/qnx800.bsp.hw.st_stm32mp257f-dk/bsp/BSP_st-stm32mp257f-dk_be-800/src/hardware/startup/lib/aarch64/aarch64_map.c:324-336 | One of level 2 its 2M |
| `PageTable.IndexOfPage` | bsp/qnx800.bsp.hw.st_stm32mp257f-dk/bsp/BSP_st-stm32mp257f-dk_be-800/src/hardware/startup/lib/aarch64/aarch64_map.c:227-259 | The three table indices taken from an address are the digits of one page number below 2^27, so no two pages of a root share a descriptor |
| `PageTable.StoreLeaf` | bsp/qnx800.bsp.hw.st_stm32mp257f-dk/bsp/BSP_st-stm32mp257f-dk_be-800/src/hardware/startup/lib/aarch64/aarch64_map.c:270-274 | One store into a level 3 table changes the translation of exactly one page and keeps the tables a tree |
| `PageTable.HangTable` | bsp/qnx800.bsp.hw.st_stm32mp257f-dk/bsp/BSP_st-stm32mp257f-dk_be-800/src/hardware/startup/lib/aarch64/aarch64_map.c:242-258 | Hanging a fresh zeroed table into an empty entry changes no translation and keeps the tables a tree |
| `MapTables.InitTablesTree` | bsp/qnx800.bsp.hw.st_stm32mp257f-dk/bsp/BSP_st-stm32mp257f-dk_be-800/src/hardware/startup/lib/aarch64/aarch64_map.c:117-138 | The tables built at start form a tree, the upper root and the level 2 table lead back to the root through their recursive entries, and nothing outside those is translated |
| `MapTables.PageTables.PtAlloc` | bsp/qnx800.bsp.hw.st_stm32mp257f-dk/bsp/BSP_st-stm32mp257f-dk_be-800/src/hardware/startup/lib/aarch64/aarch64_map.c:81-90 | A new table is an all-zero page that was free, is none of the tables and stands empty in memory; the other tables still stand and no byte changed that was neither free nor in a table; it crashes only if the allocator refuses a page |
| `MapTables.PageTables.StoreDesc` | bsp/qnx800.bsp.hw.st_stm32mp257f-dk/bsp/BSP_st-stm32mp257f-dk_be-800/src/hardware/startup/lib/aarch64/aarch64_map.c:126-137 | A 64-bit store puts the descriptor into its table in memory; every other entry of every table still stands, and no byte outside free memory and tables changed |
| `MapTables.WalkReadsTables` | bsp/qnx800.bsp.hw.st_stm32mp257f-dk/bsp/BSP_st-stm32mp257f-dk_be-800/src/hardware/startup/lib/aarch64/aarch64_map.c:285-349 | Walking a plain address through the bytes of memory, which the tables stand in, gives exactly what the walk of the tables says |
| `MapTables.PageTables.MapInit` | bsp/qnx800.bsp.hw.st_stm32mp257f-dk/bsp/BSP_st-stm32mp257f-dk_be-800/src/hardware/startup/lib/aarch64/aarch64_map.c:101-138 | After initialisation the tables stand in memory, every plain page is unmapped, the recursive entries lead back to the root and automatic addresses start at the startup base; no memory in use changed; it crashes only if the allocator refuses a page |
| `MapTables.BurstTest` | bsp/qnx800.bsp.hw.st_stm32mp257f-dk/bsp/BSP_st-stm32mp257f-dk_be-800/src/hardware/startup/lib/aarch64/aarch64_map.c:33-34 | The test for the contiguous path holds exactly where an aligned group of 16 pages starts that lies in the range and has aligned outputs |
| `MapTables.BurstStep` | bsp/qnx800.bsp.hw.st_stm32mp257f-dk/bsp/BSP_st-stm32mp257f-dk_be-800/src/hardware/startup/lib/aarch64/aarch64_map.c:264-277 | All descriptors of one turn agree on the contiguous bit of their group, a burst never runs past its table or the range, and afterwards the loop stands in the middle of no burst |
| `MapTables.ContigGroups` | bsp/qnx800.bsp.hw.st_stm32mp257f-dk/bsp/BSP_st-stm32mp257f-dk_be-800/src/hardware/startup/lib/aarch64/aarch64_map.c:31-34 | A descriptor with the contiguous bit belongs to a full aligned group of 16 with consecutive outputs from a 64K border |
| `MapTables.BurstsRefineSinglePages` | bsp/qnx800.bsp.hw.st_stm32mp257f-dk/bsp/BSP_st-stm32mp257f-dk_be-800/src/hardware/startup/lib/aarch64/aarch64_map.c:260-278 | What the loops make of a range with the contiguous path and what they make of it without translate every address alike, to the same output and permissions; without it no contiguous descriptor is stored |
| `MapTables.ContigKept` | bsp/qnx800.bsp.hw.st_stm32mp257f-dk/bsp/BSP_st-stm32mp257f-dk_be-800/src/hardware/startup/lib/aarch64/aarch64_map.c:264-277 | Mapping pages that were unmapped leaves every contiguous descriptor of all tables in a whole aligned group |
| `MapTables.JobTranslates` | bsp/qnx800.bsp.hw.st_stm32mp257f-dk/bsp/BSP_st-stm32mp257f-dk_be-800/src/hardware/startup/lib/aarch64/aarch64_map.c:227-280 | Once each page of a call has its descriptor, every byte address of the range translates to its counterpart and no other address changed |
| `MapTables.PageTables.StoreRun` | bsp/qnx800.bsp.hw.st_stm32mp257f-dk/bsp/BSP_st-stm32mp257f-dk_be-800/src/hardware/startup/lib/aarch64/aarch64_map.c:270-274 | A run of stores maps precisely the next pages, keeps the tree and touches one table |
| `MapTables.PageTables.FillLeaf` | bsp/qnx800.bsp.hw.st_stm32mp257f-dk/bsp/BSP_st-stm32mp257f-dk_be-800/src/hardware/startup/lib/aarch64/aarch64_map.c:259-278 | Filling one level 3 table maps the pages up to the end of the table or of the range, whichever comes first |
| `MapTables.PageTables.FillDir` | bsp/qnx800.bsp.hw.st_stm32mp257f-dk/bsp/BSP_st-stm32mp257f-dk_be-800/src/hardware/startup/lib/aarch64/aarch64_map.c:248-279 | The middle loop maps the pages up to the end of the level 2 table or of the range |
| `MapTables.PageTables.FillRange` | bsp/qnx800.bsp.hw.st_stm32mp257f-dk/bsp/BSP_st-stm32mp257f-dk_be-800/src/hardware/startup/lib/aarch64/aarch64_map.c:227-280 | The three nested loops, with or without the contiguous path, map all pages of the range and no others; the tables keep standing in memory and new ones only take free pages; they stop only if the allocator refuses a page |
| `MapTables.PageTables.CheckRange` | bsp/qnx800.bsp.hw.st_stm32mp257f-dk/bsp/BSP_st-stm32mp257f-dk_be-800/src/hardware/startup/lib/aarch64/aarch64_map.c:198-218 | A range passes exactly when it ends below 2^64 and lies wholly below the end of user space or starts at or above the startup base |
| `MapTables.PageTables.Map` | bsp/qnx800.bsp.hw.st_stm32mp257f-dk/bsp/BSP_st-stm32mp257f-dk_be-800/src/hardware/startup/lib/aarch64/aarch64_map.c:172-283 | A call that does not crash makes the walker translate every byte of the range to its counterpart, changes no other address, keeps the tables a tree that memory holds, keeps contiguous groups whole on unmapped ranges, moves the next automatic address by the rounded size only for automatic calls and changes no byte that was neither free nor in a table; it returns the address it mapped, plus the page offset once more for an explicit one; it crashes only if the page offset of an explicit address differs, the range wraps, leaves user space or starts below the startup base, or the allocator refuses a page |
| `MapTables.AutoNeverOverlaps` | bsp/qnx800.bsp.hw.st_stm32mp257f-dk/bsp/BSP_st-stm32mp257f-dk_be-800/src/hardware/startup/lib/aarch64/aarch64_map.c:189-191 | In any run of calls an automatic mapping starts behind the end of every earlier one |
| `MapTables.AutoStays` | bsp/qnx800.bsp.hw.st_stm32mp257f-dk/bsp/BSP_st-stm32mp257f-dk_be-800/src/hardware/startup/lib/aarch64/aarch64_map.c:189-191 | An automatic mapping still translates all of its bytes after any further calls, as long as those that name their own address stay clear of it |
| `Elf.PlanCovers` | bsp/qnx800.bsp.hw.st_stm32mp257f-dk/bsp/BSP_st-stm32mp257f-dk_be-800/src/hardware/startup/lib/elf64.c:76-90 | The in-place arithmetic splits the pages of a segment into front pages that stay in the image, up to the last whole page of the file or all of them without a tail, and a tail that carries exactly the rest of the file |
| `Elf.Loader.ElfMap` | bsp/qnx800.bsp.hw.st_stm32mp257f-dk/bsp/BSP_st-stm32mp257f-dk_be-800/src/hardware/startup/lib/elf64.c:84-89 | Mapping whole pages of a segment translates precisely those; it fails only if they leave their region or the allocator refuses a page |
| `Elf.Loader.FreshCopy` | bsp/qnx800.bsp.hw.st_stm32mp257f-dk/bsp/BSP_st-stm32mp257f-dk_be-800/src/hardware/startup/lib/elf64.c:87-88 | Fresh zeroed memory, in no table, holds the copied file bytes followed by zeros; nothing that was in use changed and the tables still stand; it fails only if the allocator refuses the block |
| `Elf.Loader.LoadTail` | bsp/qnx800.bsp.hw.st_stm32mp257f-dk/bsp/BSP_st-stm32mp257f-dk_be-800/src/hardware/startup/lib/elf64.c:85-90 | The pages behind the front hold the rest of the file and zeros, so that all pages of the segment are there, with the permissions of the header's bits |
| `Elf.Loader.LoadInPlace` | bsp/qnx800.bsp.hw.st_stm32mp257f-dk/bsp/BSP_st-stm32mp257f-dk_be-800/src/hardware/startup/lib/elf64.c:79-90 | Every byte of the pages of a segment with a physical address is mapped, writable exactly for PF_W and executable exactly for PF_X: front pages to the image itself, the tail to a copy, zeros behind the file; it fails only if the pages leave their region or the allocator refuses a request |
| `Elf.Loader.LoadCopied` | bsp/qnx800.bsp.hw.st_stm32mp257f-dk/bsp/BSP_st-stm32mp257f-dk_be-800/src/hardware/startup/lib/elf64.c:112-116 | The same for a segment without a physical address, all of whose pages are fresh memory |
| `Elf.PagedStays` | bsp/qnx800.bsp.hw.st_stm32mp257f-dk/bsp/BSP_st-stm32mp257f-dk_be-800/src/hardware/startup/lib/elf64.c:56-120 | Later mappings elsewhere, with the descriptors and tables they store, and later allocations leave every byte of the pages of a loaded segment as it is |
| `Elf.Loader.LoadSegment` | bsp/qnx800.bsp.hw.st_stm32mp257f-dk/bsp/BSP_st-stm32mp257f-dk_be-800/src/hardware/startup/lib/elf64.c:62-118 | One loadable header: every byte of its pages is there with the permissions of the header's bits, other addresses keep their translation, and the boot address window grows to include it |
| `Elf.Loader.LoadElf64Mmu` | bsp/qnx800.bsp.hw.st_stm32mp257f-dk/bsp/BSP_st-stm32mp257f-dk_be-800/src/hardware/startup/lib/elf64.c:56-120 | After loading an image whose bytes are neither free nor in a table, for every loadable segment each virtual byte read through the walker, over the tables and over the bytes of memory that hold them, is the file byte, or zero behind the file, in memory that is neither free nor in a table, with a mapping that is writable exactly for PF_W, executable exactly for PF_X and neither for users nor uncached; addresses outside the pages of these segments keep their translation; the window of boot addresses ends at the highest end and, unless a segment starts in page 0, begins at the lowest start; it fails only if the pages of a segment leave their region or the allocator refuses a request of at most a page more than one of them takes |
| `Elf.BaseIsLowest` | bsp/qnx800.bsp.hw.st_stm32mp257f-dk/bsp/BSP_st-stm32mp257f-dk_be-800/src/hardware/startup/lib/elf64.c:69-74 | No loadable segment starts below the window of boot addresses if and only if none starts in page 0 or the last one does |
| `Elf.PageZeroIsForgotten` | bsp/qnx800.bsp.hw.st_stm32mp257f-dk/bsp/BSP_st-stm32mp257f-dk_be-800/src/hardware/startup/lib/elf64.c:69-71 | With two segments at 0 and 0x1000 the window begins at 0x1000 |
| `Ram.RamAllocator.WsInit` | bsp/qnx800.bsp.hw.st_stm32mp257f-dk/bsp/BSP_st-stm32mp257f-dk_be-800/src/hardware/startup/lib/ram.c:56-79 | The early state: no RAM known, the list area and the startup program avoided, the bump pointer behind them |
| `Avoids.InitialAvoidsSound` | bsp/qnx800.bsp.hw.st_stm32mp257f-dk/bsp/BSP_st-stm32mp257f-dk_be-800/src/hardware/startup/lib/ram.c:56-79 | The first avoid list covers exactly the list area and the startup program, with no entry ending at zero |
| `Blocks.CanonicalUnique` | bsp/qnx800.bsp.hw.st_stm32mp257f-dk/bsp/BSP_st-stm32mp257f-dk_be-800/src/hardware/startup/lib/ram.c:82-113 | Sorted lists with gaps that cover the same addresses are equal, so equal sets give equal free lists |
| `Ram.RamAllocator.AddMem` | bsp/qnx800.bsp.hw.st_stm32mp257f-dk/bsp/BSP_st-stm32mp257f-dk_be-800/src/hardware/startup/lib/ram.c:82-113 | The free list becomes the union with the new range and is canonical again, or the call crashes exactly when the 3K of the list have no entry to spare |
| `Ram.RamAllocator.Coalesce` | bsp/qnx800.bsp.hw.st_stm32mp257f-dk/bsp/BSP_st-stm32mp257f-dk_be-800/src/hardware/startup/lib/ram.c:100-110 | Merging makes the list canonical without changing the covered set |
| `Avoids.RemainderSound` | bsp/qnx800.bsp.hw.st_stm32mp257f-dk/bsp/BSP_st-stm32mp257f-dk_be-800/src/hardware/startup/lib/ram.c:115-148 | What survives folding a whole avoid list is a nonempty part of the candidate, clear of every avoid range |
| `Avoids.FoldKeepsRoom` | bsp/qnx800.bsp.hw.st_stm32mp257f-dk/bsp/BSP_st-stm32mp257f-dk_be-800/src/hardware/startup/lib/ram.c:115-148 | If no avoid range leaves room on both sides of the candidate, the fold gives up only a candidate with nothing left and otherwise keeps every address that is not avoided |
| `Avoids.SplitsLoseRoom` | bsp/qnx800.bsp.hw.st_stm32mp257f-dk/bsp/BSP_st-stm32mp257f-dk_be-800/src/hardware/startup/lib/ram.c:136-146 | For one range at the front: whatever lists of one-sided ranges follow, no room is lost, if and only if it does not leave room on both sides of the candidate |
| `Avoids.KeepsRoomExactly` | bsp/qnx800.bsp.hw.st_stm32mp257f-dk/bsp/BSP_st-stm32mp257f-dk_be-800/src/hardware/startup/lib/ram.c:115-148 | For a given list the fold keeps every address that is not avoided if and only if, for each range with room on both sides of what is left at its turn, the list avoids every address of the side that is dropped |
| `Avoids.GreedyFoldLosesRoom` | bsp/qnx800.bsp.hw.st_stm32mp257f-dk/bsp/BSP_st-stm32mp257f-dk_be-800/src/hardware/startup/lib/ram.c:136-146 | A candidate that the fold gives up although an address in it is not avoided, with a list that two calls of avoid_ram make from the initial one |
| `Ram.RamAllocator.FoldAvoids` | bsp/qnx800.bsp.hw.st_stm32mp257f-dk/bsp/BSP_st-stm32mp257f-dk_be-800/src/hardware/startup/lib/ram.c:216-222 | The loop over the avoid list computes the fold, stopping at the first entry that ends at zero |
| `Avoids.LaterRangeVisible` | bsp/qnx800.bsp.hw.st_stm32mp257f-dk/bsp/BSP_st-stm32mp257f-dk_be-800/src/hardware/startup/lib/ram.c:407-414 | After two calls of avoid_ram, searches see all of the second range if and only if the first one did not end at address zero or the addresses are covered by the entries in front of it or by the entry the second call extended |
| `Ram.RamAllocator.FindRamInRange` | bsp/qnx800.bsp.hw.st_stm32mp257f-dk/bsp/BSP_st-stm32mp257f-dk_be-800/src/hardware/startup/lib/ram.c:203-260 | A block that is found lies in one free entry, clear of every avoid range that searches see, inside the asked range, and aligned unless it starts at the range start; with no range given it is the lowest of all aligned places that the avoid fold leaves in any free entry, and nothing is found only if there is no such place |
| `Ram.RamAllocator.FindTopRamAlignedLimit` | bsp/qnx800.bsp.hw.st_stm32mp257f-dk/bsp/BSP_st-stm32mp257f-dk_be-800/src/hardware/startup/lib/ram.c:150-192 | A block that is found is free, clear of avoids, ends at or below the limit, and is aligned unless it ends exactly at the limit; no aligned place that the avoid fold leaves below the limit starts higher, and none is found only if there is no such place above address 0 |
| `Ram.RamAllocator.FindRam` | bsp/qnx800.bsp.hw.st_stm32mp257f-dk/bsp/BSP_st-stm32mp257f-dk_be-800/src/hardware/startup/lib/ram.c:262-272 | A found block is available and aligned, whatever the avoid list holds, and the lowest such place that the avoid fold leaves in any free entry; none is found only if no candidate has room; with alignment 0 the only address it answers is 0 |
| `Ram.RamAllocator.CarveBlock` | bsp/qnx800.bsp.hw.st_stm32mp257f-dk/bsp/BSP_st-stm32mp257f-dk_be-800/src/hardware/startup/lib/ram.c:294-316 | Taking a range out of one free entry leaves exactly the rest of it, in all overlap cases |
| `Ram.RamAllocator.Carve` | bsp/qnx800.bsp.hw.st_stm32mp257f-dk/bsp/BSP_st-stm32mp257f-dk_be-800/src/hardware/startup/lib/ram.c:293-316 | The carve loop, which inserts entries while it scans, ends and subtracts exactly the range; it crashes exactly when a full list would have to be split |
| `Ram.RamAllocator.AllocRam` | bsp/qnx800.bsp.hw.st_stm32mp257f-dk/bsp/BSP_st-stm32mp257f-dk_be-800/src/hardware/startup/lib/ram.c:274-350 | The free set loses exactly the returned range; a searched block is the lowest aligned place that the avoid fold leaves in any free entry, and a search fails only if there is none; the sysram entries lose exactly the same range, whose inclusive end wraps for nothing at address 0, and stay in step with the free list; the only crashes are a full list, a full table and a swallowed entry |
| `Ram.RamAllocator.CallocRam` | bsp/qnx800.bsp.hw.st_stm32mp257f-dk/bsp/BSP_st-stm32mp257f-dk_be-800/src/hardware/startup/lib/ram.c:352-361 | Like the allocation, and the block is zero while no byte in use changed |
| `Ram.RamAllocator.AvoidRam` | bsp/qnx800.bsp.hw.st_stm32mp257f-dk/bsp/BSP_st-stm32mp257f-dk_be-800/src/hardware/startup/lib/ram.c:400-419 | The list gets one entry more or its last one is extended, at the wrap too, and the call crashes exactly when that takes more than 1K; if nothing wraps the avoided set grows by exactly the range, and searches go on to see all of the list if and only if the range does not end at 0 |
| `Ram.RamAllocator.RecordRam` | bsp/qnx800.bsp.hw.st_stm32mp257f-dk/bsp/BSP_st-stm32mp257f-dk_be-800/src/hardware/startup/lib/ram.c:368-373 | The addresses in "ram" entries grow by exactly those of the new range that lie in "memory", where the first call files all memory and the lowest 4G; every new entry has the RAM attribute, the default priority, no kids and an owner that is "memory"; crashes only on a full table |
| `Ram.RamAllocator.PlaceTempSyspage` | bsp/qnx800.bsp.hw.st_stm32mp257f-dk/bsp/BSP_st-stm32mp257f-dk_be-800/src/hardware/startup/lib/ram.c:387-393 | Unless there was a temporary system page before, it goes to the lowest place for 48K at a page border that the avoid fold leaves in any free entry, and is avoided from then on; none is placed only if there is no such place |
| `Ram.RamAllocator.AddRam` | bsp/qnx800.bsp.hw.st_stm32mp257f-dk/bsp/BSP_st-stm32mp257f-dk_be-800/src/hardware/startup/lib/ram.c:363-398 | The free set becomes the union with the new RAM, less the boot image; if there was no temporary system page it is placed as the search of the new free list says, and only then; every free address lies in a "ram" entry if the range lies in "memory"; without "sysram" it crashes only on a full list or table |
| `Ram.RamAllocator.AddSysram` | bsp/qnx800.bsp.hw.st_stm32mp257f-dk/bsp/BSP_st-stm32mp257f-dk_be-800/src/hardware/startup/lib/ram.c:426-441 | If every free address lies in a "ram" entry and there was no "sysram" yet, the "sysram" entries cover exactly the free list afterwards; every new one has the RAM attribute, the default priority and an owner that is "ram"; crashes only on a full table |
| `Ram.RamAllocator.WsAlloc` | bsp/qnx800.bsp.hw.st_stm32mp257f-dk/bsp/BSP_st-stm32mp257f-dk_be-800/src/hardware/startup/lib/ram.c:444-466 | Before any RAM the bump window, afterwards the lowest aligned place that the avoid fold leaves in any free entry, clear of every avoid range that searches see; in both cases the block is put on the avoid list; none only if no candidate has room |
| `RamRuns.StepKeepsRunInv` | bsp/qnx800.bsp.hw.st_stm32mp257f-dk/bsp/BSP_st-stm32mp257f-dk_be-800/src/hardware/startup/lib/ram.c:274-466 | Every guarded call keeps what makes handed-out blocks exclusive: they stay avoided in the sight of searches or not free, early blocks stay below the bump pointer |
| `RamRuns.BlocksNeverOverlap` | bsp/qnx800.bsp.hw.st_stm32mp257f-dk/bsp/BSP_st-stm32mp257f-dk_be-800/src/hardware/startup/lib/ram.c:274-466 | In any run that never asks for work space after its RAM ran out, re-adds no handed-out byte, searches with a positive alignment, avoids no range that reaches 2^64, and hands out avoided blocks only while no avoid entry ends at 0, all blocks ever returned are pairwise disjoint |
| `RamRuns.DryAllocExact` | bsp/qnx800.bsp.hw.st_stm32mp257f-dk/bsp/BSP_st-stm32mp257f-dk_be-800/src/hardware/startup/lib/ram.c:453-456 | A work space call on an empty free list stays exclusive if and only if the bump window is clear of every earlier block |
| `RamRuns.AllocUnique` | bsp/qnx800.bsp.hw.st_stm32mp257f-dk/bsp/BSP_st-stm32mp257f-dk_be-800/src/hardware/startup/lib/ram.c:203-350 | State and arguments determine the answer of an allocation, searched with a positive alignment or at a named address, and the list it leaves, block for block |
| `RamRuns.WsAllocUnique` | bsp/qnx800.bsp.hw.st_stm32mp257f-dk/bsp/BSP_st-stm32mp257f-dk_be-800/src/hardware/startup/lib/ram.c:444-466 | The same for work space |
| `RamRuns.AddRamUnique` | bsp/qnx800.bsp.hw.st_stm32mp257f-dk/bsp/BSP_st-stm32mp257f-dk_be-800/src/hardware/startup/lib/ram.c:363-398 | And for new RAM, with the place of the temporary system page |
| `RamRuns.DryAllocatorReusesMemory` | bsp/qnx800.bsp.hw.st_stm32mp257f-dk/bsp/BSP_st-stm32mp257f-dk_be-800/src/hardware/startup/lib/ram.c:453-456 | A concrete run from a state that ws_init leaves, which hands out the same address twice once all RAM is taken |
| `RamRuns.NothingIsHidden` | bsp/qnx800.bsp.hw.st_stm32mp257f-dk/bsp/BSP_st-stm32mp257f-dk_be-800/src/hardware/startup/lib/ram.c:400-419 | No entry of the avoid list ends at 0 in a run that starts without one and avoids only ranges that end above 0 and below 2^64 |
| `RamRuns.SecondCallExact` | bsp/qnx800.bsp.hw.st_stm32mp257f-dk/bsp/BSP_st-stm32mp257f-dk_be-800/src/hardware/startup/lib/ram.c:444-466 | A second work space call of the same size may return the same block if and only if an entry that ends at 0 stays in front of the range that the first call avoids, or becomes one that begins behind it and whose other side has no room for the block |
| `RamRuns.HiddenEntryReusesMemory` | bsp/qnx800.bsp.hw.st_stm32mp257f-dk/bsp/BSP_st-stm32mp257f-dk_be-800/src/hardware/startup/lib/ram.c:407-466 | A concrete run from a state that ws_init leaves, which keeps all other guards and calls avoid_ram(0, 0): both following searches see the only block whole, and both calls return its start |
| `Sysram.OverlapMeaning` | bsp/qnx800.bsp.hw.st_stm32mp257f-dk/bsp/BSP_st-stm32mp257f-dk_be-800/src/hardware/startup/lib/as_find_containing.c:51-53 | The three-way overlap test finds exactly the entries that hold an address of the range |
| `Sysram.TrimEntry` | bsp/qnx800.bsp.hw.st_stm32mp257f-dk/bsp/BSP_st-stm32mp257f-dk_be-800/src/hardware/startup/lib/ram.c:332-347 | One entry gives up exactly the range, keeping everything else, or the call crashes because it would vanish or the table is full; what is left above the range becomes a RAM entry called "sysram" with the same owner |
| `Sysram.TrimSysram` | bsp/qnx800.bsp.hw.st_stm32mp257f-dk/bsp/BSP_st-stm32mp257f-dk_be-800/src/hardware/startup/lib/ram.c:323-348 | The search that appends entries while it scans ends, and the covered set loses exactly the range, unless it crashes; old entries keep everything but their range and kids, and every appended entry is called "sysram", has the RAM attribute alone and the default priority, and belongs to the owner of the old entry whose upper part it is |
| `AsInfo.AsTable.AsAdd` | bsp/qnx800.bsp.hw.st_stm32mp257f-dk/bsp/BSP_st-stm32mp257f-dk_be-800/src/hardware/startup/lib/as_add64.c:29-63 | The new entry goes last with its fields, its owner is marked, overlays are added with it; crashes exactly when the section cannot grow |
| `AsInfo.AsTable.MatchNameUp` | bsp/qnx800.bsp.hw.st_stm32mp257f-dk/bsp/BSP_st-stm32mp257f-dk_be-800/src/hardware/startup/lib/as_find_containing.c:28-35 | Walks up to whether the entry or one of its owners carries the name |
| `AsInfo.AsTable.FindContaining` | bsp/qnx800.bsp.hw.st_stm32mp257f-dk/bsp/BSP_st-stm32mp257f-dk_be-800/src/hardware/startup/lib/as_find_containing.c:37-58 | Returns the first entry behind the given one that matches the name and overlaps the range, or none if there is none |
| `AsInfo.SplitCovers` | bsp/qnx800.bsp.hw.st_stm32mp257f-dk/bsp/BSP_st-stm32mp257f-dk_be-800/src/hardware/startup/lib/as_add_containing.c:51-115 | Inserting one more piece adds exactly its addresses to the range list, whatever the list was |
| `AsInfo.SplitHolds` | bsp/qnx800.bsp.hw.st_stm32mp257f-dk/bsp/BSP_st-stm32mp257f-dk_be-800/src/hardware/startup/lib/as_add_containing.c:51-115 | A nested piece takes over exactly its own addresses from the range it splits |
| `AsInfo.OneOwner` | bsp/qnx800.bsp.hw.st_stm32mp257f-dk/bsp/BSP_st-stm32mp257f-dk_be-800/src/hardware/startup/lib/as_add_containing.c:51-115 | In a table whose matching containers are disjoint or nested outermost first, all addresses of a later container have had one innermost owner |
| `AsInfo.AsTable.InsertPiece` | bsp/qnx800.bsp.hw.st_stm32mp257f-dk/bsp/BSP_st-stm32mp257f-dk_be-800/src/hardware/startup/lib/as_add_containing.c:60-114 | The inner loop splits the first range that holds the start of the piece, or appends |
| `AsInfo.AsTable.SplitOverContainers` | bsp/qnx800.bsp.hw.st_stm32mp257f-dk/bsp/BSP_st-stm32mp257f-dk_be-800/src/hardware/startup/lib/as_add_containing.c:51-115 | The ranges cover exactly the part of the request inside matching containers; for nested or disjoint containers they are disjoint and each address belongs to the innermost one |
| `AsInfo.AsTable.EmitPieces` | bsp/qnx800.bsp.hw.st_stm32mp257f-dk/bsp/BSP_st-stm32mp257f-dk_be-800/src/hardware/startup/lib/as_add_containing.c:116-124 | The nonempty ranges become entries in order with the default priority and the asked attributes, all chained; an old entry is marked as having kids exactly if it was before or owns one of them; crashes exactly when the table is full |
| `AsInfo.AsTable.FinishChain` | bsp/qnx800.bsp.hw.st_stm32mp257f-dk/bsp/BSP_st-stm32mp257f-dk_be-800/src/hardware/startup/lib/as_add_containing.c:125-138 | The chain ends at the last piece, and every piece gets its overlay if asked |
| `AsInfo.AsTable.AddContaining` | bsp/qnx800.bsp.hw.st_stm32mp257f-dk/bsp/BSP_st-stm32mp257f-dk_be-800/src/hardware/startup/lib/as_add_containing.c:36-140 | The emitted pieces partition the part of the request inside the containers, each owned by the innermost one, which is marked as having kids; they are appended with the default priority and the asked attributes in one CONTINUED chain that ends with the last piece, overlays included, for which pieces are marked as having kids too; crashes exactly when the table is full |
| `AsInfo.AsTable.SetPriority` | bsp/qnx800.bsp.hw.st_stm32mp257f-dk/bsp/BSP_st-stm32mp257f-dk_be-800/src/hardware/startup/lib/as_set_priority.c:28-37 | Sets the priority of exactly the entries of the chain and of no other |
| `AsInfo.CoversAfterPieces` | bsp/qnx800.bsp.hw.st_stm32mp257f-dk/bsp/BSP_st-stm32mp257f-dk_be-800/src/hardware/startup/lib/as_add_containing.c:116-124 | After the pieces of a name were added, that name covers what it did and the pieces, other names what they did and their own pieces |
| `Arena.SysPage.constructor` | bsp/qnx800.bsp.hw.st_stm32mp257f-dk/bsp/BSP_st-stm32mp257f-dk_be-800/src/hardware/startup/lib/syspage_memory.c:92-124 | A header section that is zero but for the words total_size and size, everything else empty, sections tiling the page |
| `Arena.ShiftedTiles` | bsp/qnx800.bsp.hw.st_stm32mp257f-dk/bsp/BSP_st-stm32mp257f-dk_be-800/src/hardware/startup/lib/syspage_memory.c:57-68 | Shifting what lies behind the growing section keeps the sections disjoint and without holes |
| `Arena.SysPage.RelocOwners` | bsp/qnx800.bsp.hw.st_stm32mp257f-dk/bsp/BSP_st-stm32mp257f-dk_be-800/src/hardware/startup/lib/callouts.c:179-191 | Registered addresses inside the range move by the difference, the others stay |
| `Arena.SysPage.GrowSection` | bsp/qnx800.bsp.hw.st_stm32mp257f-dk/bsp/BSP_st-stm32mp257f-dk_be-800/src/hardware/startup/lib/syspage_memory.c:47-80 | Sections tile the grown page; every section keeps its bytes, but for the word total_size of the header, which becomes the new size; the grown one ends in new zeros and every registered address denotes the field it denoted; the fixed front stays if the section starts behind it; refused exactly beyond the maximum |
| `Arena.SysPage.SetSection` | bsp/qnx800.bsp.hw.st_stm32mp257f-dk/bsp/BSP_st-stm32mp257f-dk_be-800/src/hardware/startup/lib/syspage_memory.c:82-90 | An empty section becomes the next one of the fixed front with zero bytes, everything else as for growing |
| `Arena.SysPage.Reloc` | bsp/qnx800.bsp.hw.st_stm32mp257f-dk/bsp/BSP_st-stm32mp257f-dk_be-800/src/hardware/startup/lib/syspage_memory.c:126-138 | All sections keep size and contents at the new place, but for the word size of the header, which becomes the new maximum; registered addresses follow |
| `ArenaRuns.RunKeepsContents` | bsp/qnx800.bsp.hw.st_stm32mp257f-dk/bsp/BSP_st-stm32mp257f-dk_be-800/src/hardware/startup/lib/syspage_memory.c:47-138 | After any run of growing, setting and moving, each section holds its first contents followed by exactly the zeros it was given, but for the two words of the header, which say the true size and maximum; the size grew by what was given; and every registered address denotes the byte it denoted at first |
| `ArenaRuns.HeaderStaysTrue` | bsp/qnx800.bsp.hw.st_stm32mp257f-dk/bsp/BSP_st-stm32mp257f-dk_be-800/src/hardware/startup/lib/syspage_memory.c:92-138 | After any run from a new page the words total_size and size of the header are the true size and maximum |
| `Callouts.Callouts.SizeOne` | bsp/qnx800.bsp.hw.st_stm32mp257f-dk/bsp/BSP_st-stm32mp257f-dk_be-800/src/hardware/startup/lib/callouts.c:105-122 | One callout adds its code size, and its data block only if the key is new |
| `Callouts.Callouts.SizeAll` | bsp/qnx800.bsp.hw.st_stm32mp257f-dk/bsp/BSP_st-stm32mp257f-dk_be-800/src/hardware/startup/lib/callouts.c:72-122 | The sizing pass reports the bytes of all code and one data block for each key that a routine names and for no other, stacked without holes |
| `Callouts.Callouts.WriteOne` | bsp/qnx800.bsp.hw.st_stm32mp257f-dk/bsp/BSP_st-stm32mp257f-dk_be-800/src/hardware/startup/lib/callouts.c:124-156 | The write pass puts the code where it says, unless a patcher edits it, tells the patcher the data block of the key, and links the entry to the code; the first call clears the data area |
| `Callouts.Callouts.WriteAll` | bsp/qnx800.bsp.hw.st_stm32mp257f-dk/bsp/BSP_st-stm32mp257f-dk_be-800/src/hardware/startup/lib/callouts.c:72-156 | All callouts are written one behind the other from the page border behind the data, with the bytes of their code if no patcher edits them; the page itself is untouched and the data area is zero |
| `Callouts.Callouts.AllocSyspageMemory` | bsp/qnx800.bsp.hw.st_stm32mp257f-dk/bsp/BSP_st-stm32mp257f-dk_be-800/src/hardware/startup/lib/syspage_memory.c:140-203 | If the page grew by at most four address space entries between the passes, page, data and code fit the allocated space and the code fits the size that was reported; less than two pages are lost to rounding |
| `Callouts.CodeApart` | bsp/qnx800.bsp.hw.st_stm32mp257f-dk/bsp/BSP_st-stm32mp257f-dk_be-800/src/hardware/startup/lib/callouts.c:149-155 | Code blocks of different callouts are disjoint, lie behind all data and end within the reported size |
| `Callouts.DataShared` | bsp/qnx800.bsp.hw.st_stm32mp257f-dk/bsp/BSP_st-stm32mp257f-dk_be-800/src/hardware/startup/lib/callouts.c:107-135 | Two callouts share their data block when they name the same key, and have disjoint blocks otherwise |
| `Strings.StringTable.AddString` | bsp/qnx800.bsp.hw.st_stm32mp257f-dk/bsp/BSP_st-stm32mp257f-dk_be-800/src/hardware/startup/lib/strings.c:90-113 | A nonempty name that is known is found at its old offset without any write, a new one is appended; all earlier strings stay where they were; an empty name is not stored; the section grows only if it must, by the least multiple of 128 bytes, and the call crashes exactly if it cannot |
| `Strings.StringTable.Scan` | bsp/qnx800.bsp.hw.st_stm32mp257f-dk/bsp/BSP_st-stm32mp257f-dk_be-800/src/hardware/startup/lib/strings.c:98-104 | The scan stops at the first equal string or behind the last one |
| `TypedStrings.TypedStore.Find` | bsp/qnx800.bsp.hw.st_stm32mp257f-dk/bsp/BSP_st-stm32mp257f-dk_be-800/src/hardware/startup/lib/strings.c:28-43 | The scan finds the record of the type, or the end for the end type, or reports that there is none |
| `TypedStrings.CloseGap` | bsp/qnx800.bsp.hw.st_stm32mp257f-dk/bsp/BSP_st-stm32mp257f-dk_be-800/src/hardware/startup/lib/strings.c:59-64 | The two byte loops close the gap and leave zeros behind |
| `TypedStrings.TypedStore.Del` | bsp/qnx800.bsp.hw.st_stm32mp257f-dk/bsp/BSP_st-stm32mp257f-dk_be-800/src/hardware/startup/lib/strings.c:45-66 | The stored map loses exactly the type, the buffer keeps its length and stays terminated |
| `TypedStrings.TypedStore.Add` | bsp/qnx800.bsp.hw.st_stm32mp257f-dk/bsp/BSP_st-stm32mp257f-dk_be-800/src/hardware/startup/lib/strings.c:68-88 | The stored map is updated at the type and the record can be read at the returned offset, behind all others; the section grows only if it must, by the least multiple of 8 bytes, and the call crashes exactly if it cannot, after the type is gone |
| `TypedStrings.MapOfRemoved` | bsp/qnx800.bsp.hw.st_stm32mp257f-dk/bsp/BSP_st-stm32mp257f-dk_be-800/src/hardware/startup/lib/strings.c:53-65 | Closing the gap of a record removes its key from the map and nothing else |
| `Memory.DuffIsComplete` | bsp/qnx800.bsp.hw.st_stm32mp257f-dk/bsp/BSP_st-stm32mp257f-dk_be-800/src/hardware/startup/lib/memcpy.c:43-70 | The unrolled loop with its 32-bit counter copies every word if and only if there are at most 2^36 |
| `Memory.MemcpyIsComplete` | bsp/qnx800.bsp.hw.st_stm32mp257f-dk/bsp/BSP_st-stm32mp257f-dk_be-800/src/hardware/startup/lib/memcpy.c:30-84 | memcpy reaches every byte if and only if an address is not word aligned or there are at most 2^36 words |
| `Memory.CopyDuff` | bsp/qnx800.bsp.hw.st_stm32mp257f-dk/bsp/BSP_st-stm32mp257f-dk_be-800/src/hardware/startup/lib/memcpy.c:43-70 | Entered in the middle of a round, the loop moves exactly as many words as its 32-bit round counter allows, whatever their number, and returns the advanced pointers |
| `Memory.Memcpy` | bsp/qnx800.bsp.hw.st_stm32mp257f-dk/bsp/BSP_st-stm32mp257f-dk_be-800/src/hardware/startup/lib/memcpy.c:30-84 | Equals copying all at once the bytes that its 32-bit word rounds and the byte loop reach, for every alignment and length, and touches nothing else |
| `Memory.Memmove` | bsp/qnx800.bsp.hw.st_stm32mp257f-dk/bsp/BSP_st-stm32mp257f-dk_be-800/src/hardware/startup/lib/memmove.c:28-50 | Equals copying all bytes at once for every overlap, up to 2^36 words; beyond that only forward copies between word-aligned addresses stop early |
| `Memory.CopyMemory` | bsp/qnx800.bsp.hw.st_stm32mp257f-dk/bsp/BSP_st-stm32mp257f-dk_be-800/src/hardware/startup/lib/memfuncs.c:34-56 | Writes for every length exactly the bytes of a forward copy in chunks of the 32-bit chunk size, which must not be zero; that equals copying all bytes at once unless the length takes more than 32 bits and the destination lies behind the start of the source and inside it |
| `Memory.LongOverlapFails` | bsp/qnx800.bsp.hw.st_stm32mp257f-dk/bsp/BSP_st-stm32mp257f-dk_be-800/src/hardware/startup/lib/memfuncs.c:34-56 | For every longer length with such a destination there are memory contents of which copy_memory makes something else than a copy |
| `Memory.ChunksMoveExactly` | bsp/qnx800.bsp.hw.st_stm32mp257f-dk/bsp/BSP_st-stm32mp257f-dk_be-800/src/hardware/startup/lib/memfuncs.c:34-56 | What copy_memory makes of memory is a move of all bytes, whatever memory holds, if and only if the length is below 2^32 or the destination does not lie behind the start of the source and inside it |
| `Memory.ChunkStalls` | bsp/qnx800.bsp.hw.st_stm32mp257f-dk/bsp/BSP_st-stm32mp257f-dk_be-800/src/hardware/startup/lib/memfuncs.c:34-56 | One round moves nothing if and only if the length is a multiple of 2^32 |
| `EfiMap.RootIsLast` | bsp/qnx800.bsp.hw.st_stm32mp257f-dk/bsp/BSP_st-stm32mp257f-dk_be-800/src/hardware/startup/lib/efi_entry_point.c:113-133 | The first descriptor of a heap starts highest |
| `EfiMap.MemoryMap.Heapify` | bsp/qnx800.bsp.hw.st_stm32mp257f-dk/bsp/BSP_st-stm32mp257f-dk_be-800/src/hardware/startup/lib/efi_entry_point.c:113-133 | The first descriptors become a heap, rearranged among themselves, the others stay |
| `EfiMap.MemoryMap.SortMap` | bsp/qnx800.bsp.hw.st_stm32mp257f-dk/bsp/BSP_st-stm32mp257f-dk_be-800/src/hardware/startup/lib/efi_entry_point.c:135-149 | The map becomes an ascending permutation of itself |
| `EfiMap.MemoryMap.WalkMap` | bsp/qnx800.bsp.hw.st_stm32mp257f-dk/bsp/BSP_st-stm32mp257f-dk_be-800/src/hardware/startup/lib/efi_entry_point.c:151-168 | The first call sorts once; walking then visits each descriptor once, in ascending order, and leaves the map alone |
| `EfiMap.WalkOverrunsOnRemainder` | bsp/qnx800.bsp.hw.st_stm32mp257f-dk/bsp/BSP_st-stm32mp257f-dk_be-800/src/hardware/startup/lib/efi_entry_point.c:163-165 | The walk ends right behind the last whole descriptor if and only if the map size is a multiple of the descriptor size |
| `RamInfoEfi.AvoidPass` | bsp/qnx800.bsp.hw.st_stm32mp257f-dk/bsp/BSP_st-stm32mp257f-dk_be-800/src/hardware/startup/lib/init_raminfo_efi.c:134-158 | The avoided set grows by exactly the bytes of all descriptors that are not conventional memory |
| `RamInfoEfi.AddPass` | bsp/qnx800.bsp.hw.st_stm32mp257f-dk/bsp/BSP_st-stm32mp257f-dk_be-800/src/hardware/startup/lib/init_raminfo_efi.c:141-163 | The free set grows by the bytes of all usable descriptors, less the boot image, whatever neighbours were merged; without usable descriptors nothing changes |
| `RamInfoEfi.TakePass` | bsp/qnx800.bsp.hw.st_stm32mp257f-dk/bsp/BSP_st-stm32mp257f-dk_be-800/src/hardware/startup/lib/init_raminfo_efi.c:138-140 | The free set loses exactly the bytes the loader, the firmware and the ACPI tables occupy |
| `RamInfoEfi.AddOne` | bsp/qnx800.bsp.hw.st_stm32mp257f-dk/bsp/BSP_st-stm32mp257f-dk_be-800/src/hardware/startup/lib/init_raminfo_efi.c:142-152 | A usable descriptor that continues the range held back only extends it, any other one has that range added and is held back itself, and one that is not usable changes nothing |
| `RamInfoEfi.InitRaminfoEfi` | bsp/qnx800.bsp.hw.st_stm32mp257f-dk/bsp/BSP_st-stm32mp257f-dk_be-800/src/hardware/startup/lib/init_raminfo_efi.c:44-165 | Free afterwards: conventional memory less the boot image and less everything occupied; all other memory is avoided; the temporary system page is not on it; without "sysram" it crashes only on a full list or table |
| `RamInfoEfi.OrderIrrelevant` | bsp/qnx800.bsp.hw.st_stm32mp257f-dk/bsp/BSP_st-stm32mp257f-dk_be-800/src/hardware/startup/lib/init_raminfo_efi.c:44-165 | Maps that are permutations of each other leave the same free list, block for block |
| `BootArgs.Bootargs.Locate` | bsp/qnx800.bsp.hw.st_stm32mp257f-dk/bsp/BSP_st-stm32mp257f-dk_be-800/src/hardware/startup/lib/bootstrap_cmdline.c:39-55 | The scans over the packed bytes find the first string equal to the old one in the chosen list, or its end |
| `BootArgs.Bootargs.Splice` | bsp/qnx800.bsp.hw.st_stm32mp257f-dk/bsp/BSP_st-stm32mp257f-dk_be-800/src/hardware/startup/lib/bootstrap_cmdline.c:71-76 | The bytes of one string make way for those of another, everything behind moves along, nothing else changes, and the bytes read in front of the list have no effect |
| `BootArgs.Bootargs.DoAdjust` | bsp/qnx800.bsp.hw.st_stm32mp257f-dk/bsp/BSP_st-stm32mp257f-dk_be-800/src/hardware/startup/lib/bootstrap_cmdline.c:28-81 | The bytes decode to the spliced list of the chosen strings, the count is stepped in eight bits, the size is stored when it fits; without a match nothing changes |
| `BootArgs.Bootargs.ArgAdjust` | bsp/qnx800.bsp.hw.st_stm32mp257f-dk/bsp/BSP_st-stm32mp257f-dk_be-800/src/hardware/startup/lib/bootstrap_cmdline.c:84-87 | Editing the packed arguments replaces, deletes or appends in the decoded list, leaves environment and trailing bytes alone, and the size and count fields stay true if and only if the result fits sixteen bits, an added argument is at most the 127th, and the call was not given NULL twice |
| `BootArgs.Bootargs.EnvAdjust` | bsp/qnx800.bsp.hw.st_stm32mp257f-dk/bsp/BSP_st-stm32mp257f-dk_be-800/src/hardware/startup/lib/bootstrap_cmdline.c:90-93 | The same for the environment list |
| `BootArgs.AddThenDelete` | bsp/qnx800.bsp.hw.st_stm32mp257f-dk/bsp/BSP_st-stm32mp257f-dk_be-800/src/hardware/startup/lib/bootstrap_cmdline.c:57-69 | Adding a new string and deleting it again changes nothing |
| `BootArgs.ReplaceThenBack` | bsp/qnx800.bsp.hw.st_stm32mp257f-dk/bsp/BSP_st-stm32mp257f-dk_be-800/src/hardware/startup/lib/bootstrap_cmdline.c:57-69 | Replacing a string by a new one and back changes nothing |
| `Timer.NextDigit` | bsp/qnx800.bsp.hw.st_stm32mp257f-dk/bsp/BSP_st-stm32mp257f-dk_be-800/src/hardware/startup/lib/invert_timer_freq.c:55-63 | One turn of the division yields one decimal digit and keeps quotient and remainder exact |
| `Timer.InvertTimerFreq` | bsp/qnx800.bsp.hw.st_stm32mp257f-dk/bsp/BSP_st-stm32mp257f-dk_be-800/src/hardware/startup/lib/invert_timer_freq.c:34-66 | Long division of a power of ten by the frequency, or by a tenth of it above a tenth of the 32-bit range: quotient and remainder are exact for the scale, no step overflows 32 bits, and it stops with the first digit that makes the division exact or the period at least 429496719 |
| `Timer.InvertsUnique` | bsp/qnx800.bsp.hw.st_stm32mp257f-dk/bsp/BSP_st-stm32mp257f-dk_be-800/src/hardware/startup/lib/invert_timer_freq.c:34-66 | That determines period and scale for every frequency |
| `Timer.WrapShows` | bsp/qnx800.bsp.hw.st_stm32mp257f-dk/bsp/BSP_st-stm32mp257f-dk_be-800/src/hardware/startup/lib/timer_tick2ns.c:39-43 | Dividing the 64-bit product detects an overflow exactly |
| `Timer.TimerTick2ns` | bsp/qnx800.bsp.hw.st_stm32mp257f-dk/bsp/BSP_st-stm32mp257f-dk_be-800/src/hardware/startup/lib/timer_tick2ns.c:28-55 | The loop divides late, falls back to a coarser period only while the product does not fit, and divides by zero exactly when the period runs out of digits before the power does and nothing came of the product; a positive power multiplies modulo 64 bits |
| `Timer.NsBelow` | bsp/qnx800.bsp.hw.st_stm32mp257f-dk/bsp/BSP_st-stm32mp257f-dk_be-800/src/hardware/startup/lib/timer_tick2ns.c:37-49 | The result never exceeds the exact value, even when the product does not fit |
| `Timer.UsableIff` | bsp/qnx800.bsp.hw.st_stm32mp257f-dk/bsp/BSP_st-stm32mp257f-dk_be-800/src/hardware/startup/lib/timer_tick2ns.c:38-49 | With an inverted frequency no number of ticks divides by zero if and only if the frequency is below 1000000010 Hz |
| `Timer.NeverAhead` | bsp/qnx800.bsp.hw.st_stm32mp257f-dk/bsp/BSP_st-stm32mp257f-dk_be-800/src/hardware/startup/lib/timer_tick2ns.c:28-55 | A period that is at most 10^-scale / frequency, for every scale up to zero, converts ticks to at most ticks * 10^9 / frequency |
| `Timer.ClockNeverAhead` | bsp/qnx800.bsp.hw.st_stm32mp257f-dk/bsp/BSP_st-stm32mp257f-dk_be-800/src/hardware/startup/lib/timer_tick2ns.c:28-55 | Inverting a frequency up to a tenth of the 32-bit range, or one that ends in the digit 0, and converting gives at most ticks * 10^9 / frequency, for every number of ticks |
| `Timer.LostDigit` | bsp/qnx800.bsp.hw.st_stm32mp257f-dk/bsp/BSP_st-stm32mp257f-dk_be-800/src/hardware/startup/lib/invert_timer_freq.c:49-53 | For any other frequency the period is at most 10^-scale / frequency exactly when period times the lost digit is at most ten times the remainder |
| `Timer.NeverAheadIff` | bsp/qnx800.bsp.hw.st_stm32mp257f-dk/bsp/BSP_st-stm32mp257f-dk_be-800/src/hardware/startup/lib/timer_tick2ns.c:28-55 | With a scale of at least -18 the converted clock never runs ahead, for any number of ticks, if and only if the period is at most 10^-scale / frequency |
| `Timer.SlowScale` | bsp/qnx800.bsp.hw.st_stm32mp257f-dk/bsp/BSP_st-stm32mp257f-dk_be-800/src/hardware/startup/lib/invert_timer_freq.c:34-66 | Every frequency below 2328306500 Hz has a scale of at least -18 |
| `Timer.NeverAheadAtLastScale` | bsp/qnx800.bsp.hw.st_stm32mp257f-dk/bsp/BSP_st-stm32mp257f-dk_be-800/src/hardware/startup/lib/timer_tick2ns.c:28-55 | With the scale -19 it never runs ahead if and only if the period without its last digit is at most 10^18 / frequency, and the period is at most 10^19 / frequency or its product with the least number of ticks that would run ahead takes more than 64 bits; 10^10 ticks run ahead exactly when the first of these fails |
| `Timer.FittingTicks` | bsp/qnx800.bsp.hw.st_stm32mp257f-dk/bsp/BSP_st-stm32mp257f-dk_be-800/src/hardware/startup/lib/timer_tick2ns.c:28-55 | Among the ticks whose product with the period fits 64 bits none runs ahead if and only if the period is not too long, or the numerator of the simplest fraction between 10^10 / period and frequency / 10^9 times the period does not fit |
| `Timer.FastClockRunsAhead` | bsp/qnx800.bsp.hw.st_stm32mp257f-dk/bsp/BSP_st-stm32mp257f-dk_be-800/src/hardware/startup/lib/invert_timer_freq.c:49-53 | One second of a 429496739 Hz clock converts to 1000000020 nanoseconds |
| `Timer.NotFarBehind` | bsp/qnx800.bsp.hw.st_stm32mp257f-dk/bsp/BSP_st-stm32mp257f-dk_be-800/src/hardware/startup/lib/timer_tick2ns.c:28-55 | When the product fits, the result is less than one nanosecond short, besides what the inexact period costs; with fewer than nine digits there is no rounding at all |
| `Calendar.FindYear` | bsp/qnx800.bsp.hw.st_stm32mp257f-dk/bsp/BSP_st-stm32mp257f-dk_be-800/src/hardware/startup/lib/gmtime.c:35-39 | The year in which the day falls, and the day inside it |
| `Calendar.FindMonth` | bsp/qnx800.bsp.hw.st_stm32mp257f-dk/bsp/BSP_st-stm32mp257f-dk_be-800/src/hardware/startup/lib/gmtime.c:41-45 | The month in which the day of the year falls, and the day inside it |
| `Calendar.GmTime` | bsp/qnx800.bsp.hw.st_stm32mp257f-dk/bsp/BSP_st-stm32mp257f-dk_be-800/src/hardware/startup/lib/gmtime.c:25-53 | Every field is in range and the fields add up to the time, with leap years every fourth year |
| `Calendar.BrokenDownUnique` | bsp/qnx800.bsp.hw.st_stm32mp257f-dk/bsp/BSP_st-stm32mp257f-dk_be-800/src/hardware/startup/lib/gmtime.c:25-53 | A time has only one such breakdown |
| `Calendar.KnownTime` | bsp/qnx800.bsp.hw.st_stm32mp257f-dk/bsp/BSP_st-stm32mp257f-dk_be-800/src/hardware/startup/lib/gmtime.c:25-53 | Time 951827696 breaks down to Tuesday, the 29th of February 2000, 12:34:56, the 60th day of its year, and to nothing else |
| `Calendar.CalcTimeT` | bsp/qnx800.bsp.hw.st_stm32mp257f-dk/bsp/BSP_st-stm32mp257f-dk_be-800/src/hardware/startup/lib/calc_time_t.c:33-61 | The seconds the fields add up to, a day less exactly from March on in a century year that is no multiple of 400; crashes exactly on a month out of range |
| `Calendar.RoundTrip` | bsp/qnx800.bsp.hw.st_stm32mp257f-dk/bsp/BSP_st-stm32mp257f-dk_be-800/src/hardware/startup/lib/calc_time_t.c:33-61 | Breaking down and adding up is the identity, except for that lost day |

## Left out

- Page size: only the default 4K pages (`lib/public/startup.h:129-131`); the 64K branches of `aarch64_map.c` are not modelled.
- Per-CPU L0 tables and translation registers at the end of `aarch64_map_init`: they are not read by the walker.
- Descriptor bits other than valid, type, contiguous, address and the protection flags; the encodings come from `aarch64/mmu.h`, which is not part of this model, so the eight bytes of a descriptor and the way to read them back are a parameter, all zero for the empty one and read back for page addresses below 2^48. The address-space borders and the recursive slots from there are parameters; the user range is assumed to fit one root (39 bits) and the startup base to lie in the top 39 bits.
- Physical addresses are bounded by 2^48 and ranges are assumed not to wrap 64 bits, apart from `avoid_ram`; section sizes are assumed below 2^32.
- The table entries of the recursive self-map: translations through them are not stated, because they show the tables themselves.
- `aarch64_map` for images that are not virtual, where it returns the physical address at once.
- MapTables.ContigKept: says nothing about mapping over pages that are already mapped, where the code can cut a contiguous group.
- `load_elf64` outside the loop over the program headers, 32-bit images, and the branch for bootstraps that run one to one.
- Elf.Loader.FreshCopy: the code does not look at a failed `calloc_ram`; here that ends the run like a crash.
- Cache maintenance and `startup_memory_map`, which is the identity on this CPU.
- The secure-system branch of `alloc_ram`, watcher callbacks, `reserve_ram`, and colouring (`find_ram_in_range` with a nonzero mask has no caller here).
- Ram.RamAllocator.FindRam: None means that no candidate has room after the avoid fold; that a block is found whenever one exists is not true of the code (`Avoids.GreedyFoldLosesRoom`).
- Ram.RamAllocator.AddRam: `init_asinfo` of the board and the move of the system page to its new place are not part of the call; `Arena.SysPage.Reloc` models the move.
- Free list and avoid list are sequences with the capacities of `ws_init`; their terminating entries are not stored.
- Attribute bits of address space entries other than overlay, CONTINUED, kids and RAM are one number, because nothing here looks at them; the value 100 of the default priority is in a header that is not part of this model, and nothing depends on it.
- The address space table is a sequence with a capacity, not a section of the page under construction; entry offsets are indices, and the list that `as_add_containing` allocates on the stack is a sequence.
- Arena.SysPage.SetSection: a section that already has a size, or a page whose fixed front was grown into, is excluded; the code would place the section over others.
- Arena.SysPage.constructor: of the header fields only `total_size` and `size` are modelled, as 32-bit words whose offsets and byte order are parameters, because `sys/syspage.h` is not part of this model; the first sections that `init_syspage_memory` fills are left out.
- Callouts.Callouts.WriteOne: what a patcher does to the code it is given is unknown, so the bytes of a patched routine are not stated. The data registered for a patcher is not modelled, and the 32-bit counters are unbounded.
- Callouts.Callouts.AllocSyspageMemory: the per-CPU pages behind the callouts and the remapping to read-only are left out.
- Strings.StringTable.AddString and TypedStrings.TypedStore.Add see their section as a buffer that grows at its end; `Arena.SysPage.GrowSection` shows that growing a section of the page does that.
- TypedStrings.TypedStore.Add: the type `_CS_NONE` that ends the list is taken to be 0 and not accepted as a type, and records are little endian.
- EFI descriptors are exchanged as a whole; bytes that the firmware may keep behind the fields of a descriptor are not modelled. An empty map is excluded, as the specification does (section 7.2 of the UEFI specification). Descriptors end below 2^64, none that is to be avoided ends at address 0, where `avoid_ram` would end its list, and no entry of the list ends there before.
- BootArgs.Bootargs.ArgAdjust: the caller's strings are values, so a new string that lies inside the list being moved is not covered; free memory behind the list and readable memory in front of it are required, because the code checks neither, and a new string is shorter than 2^31, as the `int` that holds the difference demands.
- Timer.TimerTick2ns: a call that divides by zero ends the run like a crash; the scale is an unbounded number.
- Calendar.GmTime: years are unbounded numbers, not `int`.
- Calendar.CalcTimeT: years before 1970, which wrap to a far future in the code, are excluded.
- `write_syspage_memory`, the GIC, UART, RTC, PCI and watchdog drivers, secondary-core start, FDT, ACPI and SMBIOS lookups, decompression, printing and option parsing.
