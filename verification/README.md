# Model of the unix-p6 kernel's memory, screen and archive code

A Dafny 4.11 project that models the parts of the kernel that keep state across calls, and the
archive and text code around them, and proves what they are for. `dafny verify dfyconfig.toml`
checks all of it.

| part | files |
|---|---|
| kernel heap (`kmalloc`, `kfree`) | `HeapChain.dfy`, `HeapOps.dfy`, `HeapUnits.dfy`, `HeapImage.dfy`, `HeapClients.dfy`, `Heap.dfy` |
| physical frames (`frame_alloc`, `frame_free`) | `Bits.dfy`, `FrameSearch.dfy`, `FrameDrift.dfy`, `Frames.dfy`, `FrameDecode.dfy`, `FrameOwnership.dfy`, `FrameRuns.dfy`, `FrameReturns.dfy`, `FrameBoot.dfy`, `FrameHints.dfy`, `FrameAllocator.dfy` |
| boot-time set-up of regions | `RegionSetup.dfy`, `MemoryMap.dfy`, `BootMap.dfy` |
| text terminal | `MemWords.dfy`, `Tape.dfy`, `Terminal.dfy` |
| archive lookup | `CStrings.dfy`, `Octal.dfy`, `Tar.dfy` |
| numbers and formats | `Numerals.dfy`, `Numbers.dfy`, `Format.dfy` |
| 32-bit registers, quotients | `Words.dfy`, `Division.dfy` |

Each part has a reference on values (a chain of blocks, a list of regions, an endless tape, a walk
over headers, a numeral) with its theorems, and methods that work in place as the code does and are
proved to compute the reference.

## Where the code departs from its intent

The code is modelled as it stands. Where that breaks the intended property there is a lemma with
the exact condition, and the further theorems hold under it or under the correction named here.

- Heap units. `data` is declared as an array of pointers (`src/kernel/arch/dmm.c:24`), so the split
  counts units of four bytes while everything else counts bytes. `CompiledMallocTiles`: a call keeps
  the heap tiled exactly when it returns NULL, or `data` is byte-typed and the size is at most
  2^32 - 18. `DeclaredUnitsGrowHeap` gives the damage of one allocation and free. `Heap.dfy` is the
  code with `uint8_t data[0]`, and `KMalloc` requires the size bound.
- Aligned frame search. Skipping an unaligned bit number leaves the mask behind
  (`src/kernel/arch/pmm.c:212-214`). `AlignedSearchRightIff`: the search is right for every word and
  count exactly when the alignment is not in 2..31. `NeverTwiceIff`: from boot, with regions that
  share no addresses and requests that the regions' own frames can serve, no run of allocations
  hands out a byte of memory twice exactly for those alignments; `SameFrameTwice` is a run of three
  calls that does. `SearchDrifts` says for every alignment what the code computes instead: it tests the
  bits one after the other and answers with the number it has reached. The flag `fixed` (`synced` inside a word) is the correction that moves the mask
  along.
- Frame free. `% 31` and a range test that compares bytes with frames
  (`src/kernel/arch/pmm.c:272-276`). `RestoredIff`: a free gives back what was allocated exactly when
  the frame number is below 31 modulo 992 and passes that test; with `fixed` (`% 32`, and
  `addr < first_block + blocks_count * BLOCK_SIZE`) always. `FreeKeepsOwnedIff`: the same condition
  decides whether giving back a live range leaves the bitmaps right, and `RunOwned` takes exactly
  those frees in both forms.
- Tail bits. The bitmap has more bits than the region has frames, and boot leaves them clear
  (`src/kernel/arch/pmm.c:161-174`), so `frame_alloc` may hand out addresses beyond the region: the
  first of them is that of the bitmap (`TailIsBitmap`), and others may be frames of another region
  (`TailSharesAddress`). `Owned` compares ranges by region and bit, and has a capacity per region,
  its frames or all its bits. `BootRunOwned`: from boot, over any chain of regions, live ranges are
  disjoint as bits and the bitmaps say exactly what is live; they are always frames of their regions
  exactly when each allocation finds, in the first region that has a run at all, one among the
  region's own frames (`AllocWithinIff` is the condition for one call); and then, if the regions
  share no addresses, no byte of memory is in two of them. `FreeUndoesAllocIff`: with the
  corrections a free undoes an allocation exactly when that run at least starts at a frame of the
  region.
- Boot maps. `MapRightIff`: boot sets up a map as meant exactly when it makes nothing of an entry
  that does not contain the kernel's end, and no region without room for a bitmap. Such a map gives
  at most one region (`HandsOver`) and every run on it hands out memory behind kernel and heap
  (`BootRunsInRam`). `ClearOfHeapIff`: regions keep clear of the heap exactly when no other entry
  becomes a region; one that ends above the kernel is moved down onto the heap.
- Search hint. Frees never lower it, so `AllocFirstFit` is complete from the hint upwards.
- Kernel cut. `KernelCutRightIff`: right exactly for the entry that contains the kernel's end.
  `SetStartKeepsEndIff`: moving a start keeps the end exactly when it moves up by at most 2^31.
- Region chain. A rejected entry breaks the chain (`src/kernel/arch/pmm.c:313-318`).
  `AllChainedIff`: all regions are reachable exactly when nothing is accepted after that.
- Region sizing. `SizingOptimalIff`: right exactly for sizes from 4 up to 2^32 - 2^17.
- Archive lookup starts at the second record (`src/kernel/fs/tar.c:22`).
  `SkippingFirstIsRightIff`: right exactly when the first entry carries no data.
- Numbers. In bases above 201 a digit prints as a NUL byte (`src/kernel/tools/t_sai.c:172-177`), and
  `reverse_str` then stops there. `UintTextsRightIff`, `IntTextsRightIff`: the texts denote their
  numbers exactly in the bases up to 201. `int_to_str` cannot negate INT32_MIN
  (`src/kernel/tools/t_sai.c:136`); `IntTextRightIff`: its text denotes every other number and not
  that one.
- Region layout. `InitLaysOutIff`: an entry becomes a region laid out as meant exactly when it
  contains the kernel's end and one bitmap word still fits behind the first page boundary.
  `PageUpIff`: `align_up` wraps in the last page.
- Terminal. A backspace on the window's first cell stays there
  (`src/kernel/drivers/tvga.c:102-107`). `FollowsIff`: the cursor is where an endless tape would have
  it exactly when there is none.
- `tmemcpyw` copies upwards (`src/kernel/tools/t_mem.c:14-23`). `CopyCorrectIff`: a correct move
  exactly when the destination does not start strictly inside the source. `CopyEndsIff`: its
  16-bit counter reaches the count exactly up to 65535.

## Model

| member | source | states |
|---|---|---|
| HeapChain.PayloadsDisjoint | src/kernel/arch/dmm.c:60-72 | any two blocks of a chain that tiles the heap occupy disjoint byte ranges inside it, headers included |
| HeapChain.TilesExtent | src/kernel/arch/dmm.c:35-43 | headers and payloads add up to the heap, whatever the splits and merges |
| HeapChain.CanonicalUnique | src/kernel/arch/dmm.c:31-113 | heap extent and set of live (address, size) pairs determine the whole block list: addresses, sizes, flags, links |
| HeapOps.MallocSound | src/kernel/arch/dmm.c:47-87 | an allocation adds exactly one live block, at a new address (none for size 0), keeps the tiling and leaves no two free neighbours |
| HeapOps.MallocComplete | src/kernel/arch/dmm.c:54-87 | NULL exactly when no gap between live blocks holds n + 33 bytes; otherwise the lowest block that fits |
| HeapOps.CoalesceSound | src/kernel/arch/dmm.c:32-44 | gluing keeps tiling and live blocks and ends without free neighbours |
| HeapOps.FreeSound | src/kernel/arch/dmm.c:93-113 | a free removes exactly the live block whose payload has the given address, if any, and keeps the chain canonical |
| HeapOps.FreeOfNothing | src/kernel/arch/dmm.c:94-113 | freeing a pointer that names no live block, an already free one included, leaves the block list as it was |
| HeapOps.FreeUndoesMalloc | src/kernel/arch/dmm.c:89-113 | freeing what an allocation returned restores the block list before it |
| HeapOps.FreesCommute | src/kernel/arch/dmm.c:93-113 | two frees give the same list in either order |
| HeapOps.RunCanonical | src/kernel/arch/dmm.c:31-113 | every run of allocations and frees keeps the chain canonical and the total extent constant |
| HeapOps.ReachableDeterminedByLive | src/kernel/arch/pmm.c:137-143 | two runs from boot with the same live blocks end in the same block list |
| HeapOps.FreeingAllRestoresBoot | src/kernel/arch/pmm.c:137-143 | after any run, freeing all live payloads in any order restores the single boot block |
| HeapUnits.PassesMeans | src/kernel/arch/dmm.c:57 | the fit test asks for n + 17 bytes, and for sizes above 2^32 - 18 for 2^32 less |
| HeapUnits.CompiledMallocTiles | src/kernel/arch/dmm.c:57-72 | with the declared pointer units, or with sizes that wrap the test, exactly which calls keep the tiling |
| HeapUnits.DeclaredUnitsGrowHeap | src/kernel/arch/dmm.c:62-65 | with the declared units an allocation puts the next header behind 4 n bytes, and its free makes the boot block 12 bytes larger than the heap |
| HeapImage.HeaderLayout | src/kernel/arch/dmm.c:19-25 | a header is four little-endian words: link, task, flag, size, at bytes 0, 4, 8 and 12 |
| HeapImage.MarkSpelled | src/kernel/arch/dmm.c:99 | rewriting one flag in memory leaves every other header spelling its block |
| HeapImage.MergeSpelled | src/kernel/arch/dmm.c:36-42 | rewriting size and link of one header in memory spells the chain with its successor absorbed |
| HeapImage.ClientStoreSpelled | src/kernel/arch/dmm.c:60-81 | whatever a caller stores in its live payload, every header still spells its block |
| HeapImage.SplitSpelled | src/kernel/arch/dmm.c:58-72 | the two headers written inside a block spell the chain with that block split |
| Heap.KernelHeap.constructor | src/kernel/arch/pmm.c:137-143 | boot writes one free block over the whole heap and touches no byte beyond its header |
| Heap.KernelHeap.MergeBlocks | src/kernel/arch/dmm.c:32-44 | ends with a block whose successor is not free with it, keeps the live blocks, the prefix of the chain and all live payload bytes, although nodes vanish during the walk |
| Heap.KernelHeap.Sweep | src/kernel/arch/dmm.c:102-106 | the walk over the shrinking chain terminates with no free neighbours left and the same live blocks |
| Heap.KernelHeap.KMalloc | src/kernel/arch/dmm.c:47-91 | memory spells the chain Malloc computes; no byte outside the heap or in a live payload changes; NULL changes nothing; both headers belong to task 0 |
| Heap.KernelHeap.KFree | src/kernel/arch/dmm.c:93-113 | memory spells the chain Free computes; no byte outside the heap or in another live payload changes; a pointer that names no live block, an already free one included, changes no byte at all |
| Heap.KernelHeap.Serve | src/kernel/arch/dmm.c:47-113 | over any sequence of calls, with callers storing into their live payloads in between, memory ends up spelling the chain of the whole run, and a payload none of the calls frees is still live and holds byte by byte what was last stored there |
| Bits.TestIs | src/kernel/arch/pmm.c:12 | masking with 1 << j tests bit j, for the bitwise operators defined digit by digit |
| Bits.FullIff | src/kernel/arch/pmm.c:199-200 | a word equals 0xffffFFFF exactly when all 32 frames are taken |
| Bits.EmptyUndoesFill | src/kernel/arch/pmm.c:237-241 | clearing a run that was clear before it was set gives the same word back |
| Bits.SetRun | src/kernel/arch/pmm.c:234-241 | the set loop marks exactly the run's bits |
| Bits.ClearRun | src/kernel/arch/pmm.c:286-290 | the clear loop clears exactly the run's bits |
| FrameSearch.SearchWord | src/kernel/arch/pmm.c:199-250 | the loop over a word computes the search function, mask drift and early exit included |
| FrameSearch.SearchRight | src/kernel/arch/pmm.c:202-250 | the lowest aligned run of clear bits, or none when there is none: passing over a broken streak loses nothing |
| FrameSearch.SeesIff | src/kernel/arch/pmm.c:202-230 | the search sees a clear bit exactly when one is aligned and has room for the run |
| FrameDrift.SearchDrifts | src/kernel/arch/pmm.c:202-250 | as written, for every alignment: the answer is the number reached at the lowest run of clear bits, aligned or not, and there is none exactly when the run has no room there |
| FrameDrift.SeesDrifting | src/kernel/arch/pmm.c:212-230 | as written, a clear bit is seen exactly when the lowest one is tested while there is room for the run |
| FrameSearch.HandsOutTaken | src/kernel/arch/pmm.c:212-217 | for every alignment from 2 to 31, a word for which the code hands out a taken frame |
| FrameSearch.AlignedSearchRightIff | src/kernel/arch/pmm.c:205-250 | as written the search is right for all words and counts exactly when the alignment is not in 2..31 |
| FrameSearch.SingleSearch | src/kernel/arch/pmm.c:226-243 | for single frames: a clear bit is seen exactly when one is found, exactly when the word is not full, and it is the lowest |
| Frames.AllocMarks | src/kernel/arch/pmm.c:182-260 | exactly the reported run is marked in any bitmap, at every alignment; hints never decrease and stay below the word count |
| Frames.AllocFirstFit | src/kernel/arch/pmm.c:190-258 | lowest region, word and bit at or above the hints, and NULL exactly when no word there has a suitable run |
| Frames.AllocHints | src/kernel/arch/pmm.c:193-230 | for every count and alignment, the hint of each region searched moves to the first word from the old hint on in which a clear bit is seen, and stays where there is none; other regions keep theirs |
| Frames.AllocRight | src/kernel/arch/pmm.c:182-260 | as it is called: NULL and nothing changed for 0 or more than 32 frames, alignment 0 meaning none, and otherwise the first fit, marked |
| FrameOwnership.AllocKeepsOwned | src/kernel/arch/pmm.c:182-260 | for any capacities, whether tail bits are set or clear: bits are still set exactly beyond the capacity and in live ranges, and the new range is disjoint from all live ones |
| FrameOwnership.FreeFinds | src/kernel/arch/pmm.c:270-280 | among all regions, an address anywhere in a frame is decoded to its own region and frame number; as written, not at all when its byte distance exceeds the frame count |
| FrameOwnership.FreeKeepsOwnedIff | src/kernel/arch/pmm.c:262-292 | giving back a live range that starts at a frame of its region leaves exactly the other live ranges marked, exactly when corrected or when the frame number is below 31 modulo 992 and passes the range test |
| FrameOwnership.StrayFreeIff | src/kernel/arch/pmm.c:262-292 | a free at any other address leaves all live ranges marked exactly when it clears no bit that is set |
| FrameRuns.RunOwned | src/kernel/arch/pmm.c:182-302 | over any run, as written and corrected, for any capacities, live ranges are disjoint and the bitmaps say exactly which bits are live |
| FrameRuns.GiveKeepsOwnedIff | src/kernel/arch/pmm.c:262-292 | the frees such a run may contain are exactly those that keep this |
| FrameRuns.AllocWithinIff | src/kernel/arch/pmm.c:190-258 | the run handed out has the wanted frames of its region exactly when the first region with any run has such a run, whatever the tail bits |
| FrameRuns.RunInsideIff | src/kernel/arch/pmm.c:182-302 | throughout a run all live ranges are frames of their regions exactly when at each allocation the first region with a run has one among its own frames |
| FrameRuns.RunAddresses | src/kernel/arch/pmm.c:182-302 | if so, and the regions share no addresses, no byte of memory is ever in two live ranges |
| FrameDecode.DecodeRightIff | src/kernel/arch/pmm.c:274-280 | as written, bit and word are decoded correctly exactly for frame numbers below 31 modulo 992 |
| FrameDecode.OwnerIs | src/kernel/arch/pmm.c:270-272 | among all regions, a frame's address is accepted by its own region, or as written by none when its byte distance exceeds the frame count |
| FrameReturns.RestoredIff | src/kernel/arch/pmm.c:262-292 | over any chain of regions (as written, at distinct addresses): exactly when freeing a run restores every bitmap, as written and corrected |
| FrameReturns.FreeUndoesAllocIff | src/kernel/arch/pmm.c:232-292 | corrected: freeing the answer, NULL included, restores every bitmap word of every region exactly when the first region with a run has one that starts at one of its frames |
| FrameBoot.BootRunOwned | src/kernel/arch/pmm.c:161-302 | from the bitmaps boot leaves, over any run: live ranges disjoint as bits, bits set exactly where live, all of them inside the regions exactly under the condition of RunInsideIff, and then, for regions that share no addresses, disjoint as memory |
| FrameBoot.SealedIsOwned | src/kernel/arch/pmm.c:161-174 | a free region with its tail bits set starts the ownership runs that stay inside it, the region boot leaves does not |
| FrameBoot.SameFrameTwice | src/kernel/arch/pmm.c:205-242 | from boot, three calls of which two return the same frame, for every alignment from 2 to 31 |
| FrameBoot.NeverTwiceIff | src/kernel/arch/pmm.c:182-260 | as written and from boot, over regions that share no addresses and runs whose allocations find frames of the regions: the memory handed out is in no live range, for all runs at an alignment, exactly when the alignment is not in 2..31 |
| FrameBoot.TailSharesAddress | src/kernel/arch/pmm.c:193-242 | without that condition on the runs, two unaligned calls from boot return the same page, through a tail bit of one region and a frame of the next |
| FrameHints.SingleKeepsFullBelow | src/kernel/arch/pmm.c:226-230 | single-frame requests keep every word below every hint full |
| FrameHints.HintRefinesPlainSearch | src/kernel/arch/pmm.c:193-200 | the hinted search then finds the same frame as a search from word 0 |
| FrameHints.BootPrefix | src/kernel/arch/pmm.c:161-174 | in the region boot leaves, no bit is taken and the hint skips nothing |
| FrameHints.ConsecutiveFrames | src/kernel/arch/pmm.c:161-174 | after boot, unaligned request n yields frame n at its address for every bit of the bitmap, a frame of the region exactly when n is below its frame count |
| FrameAllocator.RegionNode.SearchWords | src/kernel/arch/pmm.c:193-251 | the loop over a region's words leaves words and hint as the region function says |
| FrameAllocator.RegionNode.ClearFrames | src/kernel/arch/pmm.c:274-290 | the words of one region after a free, the out-of-word case included |
| FrameAllocator.FrameMap.Append | src/kernel/arch/pmm.c:313-318 | a further record extends the chain of regions and changes no other |
| FrameAllocator.FrameMap.FrameAlloc | src/kernel/arch/pmm.c:182-260 | regions are those of the chain function, for every count and alignment, and the address is that of the bit it marks, or NULL |
| FrameAllocator.FrameMap.FrameFree | src/kernel/arch/pmm.c:262-302 | regions are those of the chain function: only the first region that accepts the address changes |
| RegionSetup.CalcBlocksAndBitmaps | src/kernel/arch/pmm.c:55-71 | the loop terminates for every size, wrap-around included, with the bound on bitmap words that frame_alloc uses |
| RegionSetup.SizingOptimalIff | src/kernel/arch/pmm.c:55-71 | the result is the greatest number of frames that fits with its bitmap exactly for sizes from 4 up to 2^32 - 2^17 |
| RegionSetup.SizingSteps | src/kernel/arch/pmm.c:60-67 | at most one frame is given up per 1024 bitmap words, at most 32 in all |
| RegionSetup.SetStartKeepsEndIff | src/kernel/arch/pmm.c:73-78 | the end stays put exactly when the start moves up by at most 2^31 |
| RegionSetup.MovedDown | src/kernel/arch/pmm.c:73-78 | moved down, an entry loses as much length as its start moves, wrapping if it has less; above 2^31 the end stays put |
| RegionSetup.AlignUpMeans | src/kernel/arch/pmm.c:36-45 | the least multiple of any alignment at or above an address, unless it wraps; alignment 0 leaves it |
| RegionSetup.PageUpIff | src/kernel/arch/pmm.c:36-45 | the least page boundary at or above an address exactly for addresses up to 2^32 - 4096, and 0 beyond |
| RegionSetup.KernelCutRightIff | src/kernel/arch/pmm.c:120-133 | what is left lies in the entry and clear of the kernel exactly for the entry that contains the kernel's end; an entry below keeps its part below the kernel, one above starts at the kernel's end |
| RegionSetup.InitMakesIff | src/kernel/arch/pmm.c:105-159 | from address, length, kernel's end and heap alone: exactly which entries give up a heap, exactly which become a region, and where both start; nothing is made of one that ends below 1 MiB |
| RegionSetup.InitLaysOutIff | src/kernel/arch/pmm.c:105-180 | for every entry: heap, page-aligned frames and bitmap words lie disjoint and in order inside it, above 1 MiB and clear of the kernel, with the most frames that fit, exactly when it contains the kernel's end and one bitmap word fits behind the page boundary after kernel and heap |
| RegionSetup.MemBlock.InitMemBlock | src/kernel/arch/pmm.c:105-180 | narrowing the entry in place computes that layout; the entry is reserved exactly when no region comes of it |
| MemoryMap.MmInit | src/kernel/arch/pmm.c:304-323 | from the entries themselves: each available entry is set up in turn; it fails exactly when they yield more regions than the pool has records, and otherwise the records chained from the first one are those made before a rejection that follows an acceptance, in order, and no others |
| MemoryMap.OneHeap | src/kernel/arch/pmm.c:135-146 | at most one entry of the map gives up its front for the heap |
| MemoryMap.HasHeapIff | src/kernel/arch/pmm.c:135-140 | there is a heap exactly when an earlier entry has given it up |
| MemoryMap.RegionOfRecord | src/kernel/arch/pmm.c:163-179 | the records are numbered in the order of the accepted entries |
| MemoryMap.FirstRunStops | src/kernel/arch/pmm.c:311-318 | the chain ends exactly before the first rejection that follows an acceptance |
| MemoryMap.AllChainedIff | src/kernel/arch/pmm.c:313-318 | every region is chained exactly when no entry is accepted after such a rejection |
| BootMap.MapRightIff | src/kernel/arch/pmm.c:105-180 | what boot makes of every entry of a map lies in that entry, behind the kernel and in order, exactly when it makes nothing of entries without the kernel's end and no region without room for its bitmap |
| BootMap.OrdinaryMapFits | src/kernel/arch/pmm.c:105-180 | from addresses only: a map of entries below 1 MiB and one that contains the kernel's end with room for a bitmap is set up as meant, the region comes of that one, and so does the heap exactly if 1 MiB is left |
| BootMap.ClearOfHeapIff | src/kernel/arch/pmm.c:122-146 | once the entry with the kernel's end has given up the heap, all regions start behind the heap exactly when no other entry becomes a region; one that ends above the kernel starts inside the heap |
| BootMap.HandsOver | src/kernel/arch/pmm.c:304-323 | a map set up as meant leaves a chain of at most one region, none of them unreachable, with the bitmaps and the distinct addresses the run theorems start from |
| BootMap.HeapComesFirst | src/kernel/arch/pmm.c:135-171 | heap and region come of the same entry and lie one behind the other, after the kernel |
| BootMap.BootRunsInRam | src/kernel/arch/pmm.c:182-323 | from such a map on, over any run that finds frames of the regions, no byte is in two live ranges, and all of them lie behind the kernel and the heap and before the bitmap |
| BootMap.TailIsBitmap | src/kernel/arch/pmm.c:169-171 | the address handed out for the first tail bit is that of the region's own bitmap |
| MemWords.CopyWords | src/kernel/tools/t_mem.c:14-23 | the buffer after the upward copy, overlapping or not |
| MemWords.CopyCorrectIff | src/kernel/tools/t_mem.c:14-23 | the copy is a correct move of every buffer exactly when the destination does not start strictly inside the source |
| MemWords.CopyEndsIff | src/kernel/tools/t_mem.c:19 | the 16-bit counter reaches the count, so that the loop ends, exactly for counts up to 65535 |
| MemWords.SetWords | src/kernel/tools/t_mem.c:86-94 | the fill and nothing else |
| Tape.EntryMeans | src/kernel/drivers/tvga.c:18-21 | character in the low byte, colour in the high byte |
| Tape.PutMeans | src/kernel/drivers/tvga.c:87-136 | for every character: where the cursor goes, which single cell shows what, when the window moves and that what it exposes is blank in the current attribute |
| Tape.RunLater | src/kernel/drivers/tvga.c:59-150 | over any run of texts and commands, rows that left the window never change, the window never moves back, the cursor stays inside it |
| Tape.WriteLater | src/kernel/drivers/tvga.c:138-150 | a text of n characters scrolls at most n rows, so one character at most one |
| Tape.WriteSplits | src/kernel/drivers/tvga.c:145-150 | a text may be written in pieces |
| Tape.PrintableText | src/kernel/drivers/tvga.c:109-136 | n printable characters land in row-major order, scroll exactly max(0, (p + n) / 80 - 24) rows and change no other cell |
| Tape.PrintableShows | src/kernel/drivers/tvga.c:118-150 | the written cells show the text in the current attribute, exposed ones blanks |
| Tape.TextWithoutWindow | src/kernel/drivers/tvga.c:87-143 | text without a backspace on the window's first cell gives the cells and cursor of a tape without any window, and the window is as low as the furthest position visited requires |
| Tape.FollowsIff | src/kernel/drivers/tvga.c:87-143 | the cursor is where the endless tape has it after every part of a text exactly when the text has no such backspace |
| Terminal.TextTerminal.constructor | src/kernel/drivers/tvga.c:42-57 | a screen of blanks in colour 0x0F, the cursor in its first cell |
| Terminal.TextTerminal.ScrollScreen | src/kernel/drivers/tvga.c:109-116 | the screen moves up one row and a row blank in the current attribute appears |
| Terminal.TextTerminal.PutCh | src/kernel/drivers/tvga.c:118-143 | screen and cursor stay the window of the tape, advanced by one character; a printable one is then on the screen, in the current attribute |
| Terminal.TextTerminal.Write | src/kernel/drivers/tvga.c:145-150 | the same for a text |
| Terminal.TextTerminal.Command | src/kernel/drivers/tvga.c:59-85 | the same for commands: clearing leaves blanks and the cursor in the first cell, the cursor and the attribute are set and nothing else; code 2 and no change for a cursor off the screen, code 1 and no change for an unknown command |
| CStrings.ComparisonMeans | src/kernel/tools/t_sai.c:40-57 | where two strings stop agreeing decides equality and dictionary order of the strings cut at n |
| CStrings.BeforeMeans | src/kernel/tools/t_sai.c:40-57 | dictionary order: a string comes first if it runs out first or has the smaller byte where they part |
| CStrings.Strncmp | src/kernel/tools/t_sai.c:40-57 | zero exactly for equal strings cut at n, otherwise the sign of their dictionary order |
| Octal.TarGetSize | src/kernel/fs/tar.c:10-19 | the field's octal value modulo 2^32, for arbitrary bytes |
| Octal.ValuePlaces | src/kernel/fs/tar.c:10-19 | a digit counts for the power of eight given by its place from the end |
| Octal.NumeralIsOctal | src/kernel/fs/tar.c:10-19 | the archiver's numerals consist of the digits 0 to 7 |
| Octal.FieldRoundTrip | src/kernel/fs/tar.c:10-19 | reading the field an archiver wrote for n gives n |
| Tar.EntryLayout | src/kernel/fs/tar.c:22-45 | the ustar layout: name in the first 100 bytes, size in 11 bytes from offset 124, whole records of 512 bytes |
| Tar.Advance | src/kernel/fs/tar.c:41-45 | the step skips the header and the whole records the data takes up |
| Tar.TarGetFile | src/kernel/fs/tar.c:21-49 | on any memory with a finite walk over headers, size and address from the header where the walk stops, or (0, 0) |
| Tar.LookupInvertsWriting | src/kernel/fs/tar.c:21-49 | on a written archive whose first entry has no data the walk visits exactly the later headers up to the deciding one and answers with the first entry of that name |
| Tar.ExpectedData | src/kernel/fs/tar.c:35-38 | the slice answered is that entry's data |
| Tar.SkippingFirstIsRightIff | src/kernel/fs/tar.c:22-31 | starting at the second record is right for all archives and names behind a first entry exactly when that entry has no data |
| Numerals.NumeralDenotes | src/kernel/tools/t_sai.c:165-186 | the numeral's digits are below the base, denote the number, and do not start with a superfluous zero, in every base up to 201 |
| Numerals.DigitsAre | src/kernel/tools/t_sai.c:172-177 | the digits are 0-9 and A-Z up to base 36, and the bytes that follow beyond |
| Numerals.NumeralIsUsual | src/kernel/tools/t_sai.c:165-186 | in bases up to 36 a numeral consists of those, below the base |
| Numerals.ValuePlaces | src/kernel/tools/t_sai.c:165-186 | a digit counts for the power of the base given by its place from the end |
| Numerals.WordFits | src/kernel/tools/t_doprnt.c:9 | at most 10 decimal and 8 hexadecimal digits, so the 32-byte buffer suffices |
| Numbers.ReverseStr | src/kernel/tools/t_sai.c:100-119 | the string is reversed in place, the terminator and what follows are kept |
| Numbers.UintToStr | src/kernel/tools/t_sai.c:165-186 | the buffer holds the numeral's part behind its last NUL digit (all of it up to base 201) and a terminator, bytes behind it are kept, in every base from 2 to 255 |
| Numbers.UintTextsRightIff | src/kernel/tools/t_sai.c:165-186 | the string left in the buffer denotes the number, for all numbers, exactly in the bases up to 201 |
| Numbers.NegativeText | src/kernel/tools/t_sai.c:128-161 | a negative number opens with a minus sign; for INT32_MIN one character follows, the code of 0 less the last digit of 2^31 |
| Numbers.IntTextRightIff | src/kernel/tools/t_sai.c:128-161 | in bases up to 201, the string int_to_str leaves denotes the number exactly when it is not INT32_MIN |
| Numbers.IntTextsRightIff | src/kernel/tools/t_sai.c:128-161 | that holds for all numbers of a base exactly in the bases up to 201 |
| Numbers.IntToStr | src/kernel/tools/t_sai.c:128-161 | the buffer holds that string for every number, INT32_MIN included, in every base from 2 to 255 |
| Numbers.StrToUint | src/kernel/tools/t_sai.c:89-98 | the value of the longest digit prefix modulo 2^32 |
| Numbers.DecimalRoundTrip | src/kernel/tools/t_sai.c:89-98 | parsing what uint_to_str printed gives the number back |
| Format.PutString | src/kernel/tools/t_doprnt.c:3-6 | exactly the bytes before the first NUL |
| Format.Doprnt | src/kernel/tools/t_doprnt.c:8-67 | the output specified for the format, one argument consumed per conversion that takes one |
| Format.PrintsUnsigned | src/kernel/tools/t_doprnt.c:27-30 | %u prints the decimal digits of its argument |
| Format.PrintsHex | src/kernel/tools/t_doprnt.c:31-36 | %x, %X and %p print its hexadecimal digits, letters in upper case |
| Format.PrintsSigned | src/kernel/tools/t_doprnt.c:22-26 | %d and %i print it as a signed decimal number, and -2^31 as "-(" |
| Format.PrintsChar | src/kernel/tools/t_doprnt.c:19-21 | %c prints its low byte |
| Format.PrintsString | src/kernel/tools/t_doprnt.c:16-18 | %s prints the bytes before the first NUL |
| Format.PrintsItself | src/kernel/tools/t_doprnt.c:62-65 | any other letter, and any character outside a conversion, prints itself and takes no argument |
| Format.Compose | src/kernel/tools/t_doprnt.c:8-67 | printing f1 + f2 with a1 + a2 is printing f1 with a1 and then f2 with a2 when f1 does not end inside a conversion |
| Format.ComposesIff | src/kernel/tools/t_doprnt.c:12-13 | a format composes with every continuation exactly when it does not end inside a conversion |
| Format.SpelledFormatPrints | src/kernel/tools/t_doprnt.c:8-67 | any sequence of literal text and conversions, spelled with doubled percent signs, prints exactly its pieces |

## Left out

- KMalloc: alignments above 1, which no caller uses and which can place the new header over the old one; `task_id` beyond its being zeroed, `m_dyn_available`, and a heap that was never set up.
- KMalloc: on sizes above 2^32 - 18 the test wraps; CompiledMallocTiles states what happens to the chain, the stores at wrapped addresses are not modelled.
- FrameAlloc: a chain without any region, on which the code reads through a null pointer. The chain is held as a sequence of records in link order; `next` pointers appear in MemoryMap.
- FrameFree: the log line for an address no region accepts.
- InitMemBlock: the zeroing of the region, which appears as the all-zero bitmap of a fresh region; the upper 32 bits of addresses and lengths.
- MmInit: what the write through a null pointer does when the pool of 32 records is exhausted; the model stops there.
- InitLaysOutIff: assumes the kernel ends below 2 GiB, since a start that moves up further does not keep its end.
- Doprnt: the unfinished `%l` conversions, which print an uninitialised buffer or step over the end of the format; arguments of the wrong kind.
- UintToStr: bases 0 and 1, on which the code divides by zero or does not end.
- IntToStr: the negation of INT32_MIN is taken to wrap, as on the target.
- CopyWords: counts above 65535, on which the 16-bit loop counter never reaches the end.
- TextTerminal: the hardware cursor registers and port writes.
- TarGetFile: `tar_init`'s allocation; the archive descriptor is passed in, and the descriptor's size field, which the code does not consult.
- The bitwise operators are defined on numbers, digit by digit, rather than on bit-vectors.
- `tfastcpy`, `tmemcpyd_inv`, `strcmp`, the multiboot tag walk, modules, interrupt, segment and serial code, and the framebuffer stubs.
