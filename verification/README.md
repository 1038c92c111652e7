# Verification of the kernel's memory, mount tree and text output

A Dafny model of the stateful core of a small 32-bit x86 kernel, with proofs about it: the kernel
heap, the physical page allocator, paging, the VFS mount tree, the text screen with printf, the
string and number routines, and the ATA reader. `dafny verify dfyconfig.toml` checks everything.

## How it is built

Code that changes things in place is modelled by classes and methods that change things in place:
chunk headers on a doubly linked list, the words of the bitmap, table entries in physical memory,
linked child lists, the screen buffer, character buffers, drive registers. Each method is proved
against a function on values (a block list, a set of frames, an address space, a map from paths to
files, a history of rows, a split of a string, a byte range of a disk), and the main results are
proved about those functions, for every input and every run.

| file | subject |
|---|---|
| `Machine.dfy` | 32-bit ranges and wrap-around |
| `HeapLayout.dfy`, `HeapRuns.dfy` | the heap as a block list, one call and whole runs |
| `HeapList.dfy`, `HeapClient.dfy`, `HeapFaults.dfy` | the linked chunks, whole runs on them, and what two lines do as written |
| `Bitmap.dfy`, `FrameAllocator.dfy`, `FrameRuns.dfy` | bits and words, the page allocator, its runs |
| `Paging.dfy`, `PageMapping.dfy` | the two-level walk (section 4.3 of the Intel SDM, Volume 3A), the kernel window, and mapPage store by store through the address space that it changes |
| `BootTables.dfy`, `VirtualMemory.dfy` | the boot address space, the first tables, mapPage and initVMM in place |
| `PagingRuns.dfy`, `Boot.dfy` | runs of mapPage on frames from the page allocator, and the whole start from the memory map |
| `Tokens.dfy`, `CStrings.dfy`, `Numerals.dfy` | splitting, NUL-terminated buffers, digits |
| `MountMap.dfy`, `MountTree.dfy` | the mount table as a map, and the tree |
| `Screen.dfy`, `Printf.dfy`, `Disk.dfy` | the screen, the format interpreter, the ATA reader |

## Where the code and its intent differ

The code is modelled as written. Where a wanted property fails for it, the exact condition under
which the code does meet the property is proved, and for the first six entries below the failure is
shown on a concrete case. Where it matters the model also has the intended step: `Machine.Form`
chooses between the text as written and as intended.

- `Kernel/src/MM/Heap.cpp:96` links the following chunk back to `chunk->prev`. `HeapList.Heap.Free`
  takes both forms; as written, `prev` stays the inverse of `next` exactly when there is no such
  link to set (`HeapList.RelinkedIff` gives the condition on the blocks). A wrong back link does harm
  exactly when the chunk it names takes over, that is when it passes the test of line 80
  (`HeapLayout.FreeAtTilesIff`). With both lines as written, ten calls on held pointers make malloc
  hand out bytes that are still held (`HeapFaults.HeldRangesOverlap`). `HeapClient.Play` proves whole
  runs on the linked chunks correct under either form of line 80, and with line 96 as intended or
  having no link to set.
- `Kernel/src/MM/Heap.cpp:80` merges into an allocated predecessor. As written it agrees with a
  free predecessor only for the first block (`HeapLayout.WrittenAgreesIff`), and malloc followed by
  free restores the list exactly when there is no live block in front (`HeapLayout.WrittenRestoresIff`).
  `HeapFaults.SecondFreeLosesTheHeap` shows how two mallocs and one free use up all memory.
- `Kernel/src/MM/Heap.cpp:40` asks for one byte more than the request, while the split needs room
  for a header. The split keeps the tiling exactly when the header fits (`HeapLayout.SplitTiles`), and
  a run that frees only held pointers keeps it throughout exactly when every header fits
  (`HeapRuns.RunInv`). On a fresh heap, requests that leave room for one header but not for two are
  granted and break it (`HeapRuns.MisfitBreaks`); for runs of mallocs the condition is a comparison
  of sums (`HeapRuns.MallocsAreBump`).
- `Kernel/src/Lib/String.cpp:14-21`: `memset` writes the bytes numbered 1 to count, and the
  repository's own test (`Kernel/include/Debug/Tests.hpp:35-41`) is written to match that. The page
  allocator and paging are modelled with it. `PageMapping.MapPageIff` says exactly when mapPage is
  still a map update, and `BootTables.StaleFrameBreaks` shows a recycled frame whose stale first entry
  makes mapPage map a page nobody asked for.
- `Kernel/src/MM/VMM.cpp:7`, `Kernel/src/MM/VMM.cpp:49` and `Kernel/src/MM/VMM.cpp:59` reach every
  table at 3 GB above its physical address, in the address space in force, and nothing asks whether
  that page is mapped to the table. The model stores through the address space: a store goes to the
  frame that the walk names, or faults. A call of mapPage works exactly when the frame granted for a
  table is found there, or, if no table is needed, when the request moves no such page
  (`PageMapping.MapPageIff`, and `PagingRuns.RunDoesIff` for runs). Inside the kernel window this
  comes down to frame numbers (`PagingRuns.WindowRun`). The start comes up if four of the free frames
  lie below 1023, and with fewer it ends in a page fault (`Boot.Init`); `Boot.StartFaults` gives a
  memory map for that. Later, a table granted behind the window makes mapPage overwrite heap pages
  and map nothing (`VirtualMemory.HeapPageHit`).
- `Kernel/src/MM/PMM.cpp:67` and `Kernel/src/MM/PMM.cpp:81` move `usedBlocks` the other way than
  allocation does. After initialisation the free counter says how the map entries add up, not how
  many frames are free. `Boot.GuardAfterInit` says exactly when that refuses every request, and
  `Boot.RefusesEverything` shows a map of two entries with 1024 free frames of which none can be had.
- `Kernel/src/MM/Heap.cpp:75-99` never lowers `usedMemory`: it is a lifetime total, and so, while
  every split header fits, all the memory a heap of up to 2 GB can ever hand out is bounded by its
  size (`HeapRuns.LifetimeTotal`).
- `Kernel/src/MM/PMM.cpp:16` fills the map with 0x0F, so before any map entry is read every second
  group of four frames is marked used; with `memset` as above, the first byte keeps what it held
  (`FrameAllocator.Allocator.InitPMM`).
- `Kernel/src/Lib/String.cpp:105-107` and `Kernel/src/Lib/String.cpp:149`: the sign code has no
  effect on an unsigned value, so `itos` prints unsigned numbers, and so does `%d`.
- `Kernel/src/Lib/Log.cpp:58` and `Kernel/src/Lib/Log.cpp:67` size the digit buffer without room for
  the NUL that `itos` writes: the cell behind the buffer is overwritten with NUL
  (`Printf.PrintNumber`).
- `Kernel/src/FS/VFS.cpp:200-231`: opening asks no storage exactly when every token but the last
  names a mount point (`MountMap.AsksStorageIff`). So a path that is not mounted but whose parent is
  opens as the file of the parent, and any path with a single token as the file of the root
  (`MountMap.OpensAsParent`).
- `Kernel/src/Driver/ATA.cpp:51`: the end of the range is found in 32-bit arithmetic. The reader
  works exactly for ranges with 1 <= offset + size <= 2^32 (`Disk.WorksIff`); what it copies
  otherwise is said by `Disk.CopiedIs`.

## Model

| member | source | states |
|---|---|---|
| HeapLayout.FirstFit | Kernel/src/MM/Heap.cpp:33-43 | the walk settles on the first free chunk larger than the request, and passes over no other such chunk |
| HeapLayout.InOrder | Kernel/src/MM/Heap.cpp:51-66 | in a tiling every block ends before any later one starts |
| HeapLayout.Inside | Kernel/src/MM/Heap.cpp:51-66 | every block of a tiling lies in the region |
| HeapLayout.Conservation | Kernel/src/MM/Heap.cpp:17-17 | headers and payloads of a tiling add up to the region's size |
| HeapLayout.SplitTiles | Kernel/src/MM/Heap.cpp:40-66 | the split keeps the tiling if and only if the new header fits into the chosen chunk |
| HeapLayout.AbsorbTiles | Kernel/src/MM/Heap.cpp:91-98 | merging two neighbours keeps the tiling |
| HeapLayout.FreeTiles | Kernel/src/MM/Heap.cpp:75-99 | free keeps the tiling whichever predecessor test line 80 makes |
| HeapLayout.FreeAtTilesIff | Kernel/src/MM/Heap.cpp:75-99 | freeing a block whose back link names any earlier block keeps the tiling if and only if that is the block in front, or none, or one that line 80 does not merge into |
| HeapLayout.SplitCoalesced | Kernel/src/MM/Heap.cpp:51-66 | splitting a free block leaves no two free neighbours |
| HeapLayout.BackwardCoalesced | Kernel/src/MM/Heap.cpp:78-89 | after the backward merge as intended only the freed block and its successor can both be free |
| HeapLayout.FreeCoalesced | Kernel/src/MM/Heap.cpp:75-99 | with line 80 as intended, free leaves no two free neighbours |
| HeapLayout.MallocFreeRestores | Kernel/src/MM/Heap.cpp:51-99 | with line 80 as intended, splitting a chunk and freeing it again restores the block list exactly |
| HeapRuns.MallocReleaseRestores | Kernel/src/MM/Heap.cpp:26-99 | with line 80 as intended, malloc and then free of the pointer it returned restores blocks and books in every reachable state |
| HeapLayout.WrittenRestoresIff | Kernel/src/MM/Heap.cpp:80-89 | with line 80 as written that holds if and only if no live block stands in front of the chosen one |
| HeapLayout.FreeLength | Kernel/src/MM/Heap.cpp:80-98 | how many headers disappear in a free, under either test |
| HeapLayout.WrittenAgreesIff | Kernel/src/MM/Heap.cpp:80-80 | line 80 as written does what was meant if and only if the freed block is the first |
| HeapRuns.SplitCovers | Kernel/src/MM/Heap.cpp:51-72 | after a split exactly the held pointers and the new one are served, each with enough bytes |
| HeapRuns.FreeKeeps | Kernel/src/MM/Heap.cpp:75-99 | a live block other than the freed one keeps its address and does not shrink; with line 80 as intended it does not change |
| HeapRuns.FreeFrom | Kernel/src/MM/Heap.cpp:75-99 | free makes no block live that was not |
| HeapRuns.FreeCovers | Kernel/src/MM/Heap.cpp:75-99 | after a free exactly the pointers still held are served |
| HeapRuns.StepInv | Kernel/src/MM/Heap.cpp:26-99 | a call on held pointers keeps tiling, service of every held pointer and, as intended, coalescing, if and only if the header of the split fits; otherwise the tiling is lost |
| HeapRuns.RunInv | Kernel/src/MM/Heap.cpp:26-99 | a run that frees only held pointers keeps the region tiled throughout if and only if every split header fits, and then keeps all of that |
| HeapRuns.GrantIsNew | Kernel/src/MM/Heap.cpp:35-72 | malloc never hands out a pointer that is held |
| HeapRuns.MallocRespects | Kernel/src/MM/Heap.cpp:26-73 | malloc moves and shrinks no live block, and enters one new pointer in the books or none |
| HeapRuns.ReleaseRespects | Kernel/src/MM/Heap.cpp:75-99 | free takes its pointer off the books, and moves and shrinks no other live block |
| HeapRuns.ClientSafety | Kernel/src/MM/Heap.cpp:26-99 | for every run that frees only held pointers: the chunks tile the region throughout if and only if every split header fits; then no call hands out a held pointer or moves or shrinks a block that is held, the sizes and headers add up to the region, and the held byte ranges lie inside it, apart from each other by at least a header |
| HeapRuns.Canonical | Kernel/src/MM/Heap.cpp:75-99 | a tiling without free neighbours is determined by its live blocks |
| HeapRuns.HistoryIndependent | Kernel/src/MM/Heap.cpp:26-99 | with lines 80 and 96 as intended, two runs on held pointers with fitting split headers that leave the same pointers held leave the same chunk list |
| HeapRuns.WrapRefused | Kernel/src/MM/Heap.cpp:27-49 | a request that wraps the usage guard is still refused by the search, for regions up to 2 GB |
| HeapRuns.StepCharges | Kernel/src/MM/Heap.cpp:68-68 | each success adds its size and a header to usedMemory without wrapping, and nothing else changes it |
| HeapRuns.LifetimeTotal | Kernel/src/MM/Heap.cpp:22-99 | over any run usedMemory is the total ever handed out, headers included, less 2^32 for each wrap-around, and stays below the region's size; in a region up to 2 GB it never wraps while every split header fits |
| HeapRuns.BumpAccepts | Kernel/src/MM/Heap.cpp:27-49 | without frees a request succeeds exactly when the sum so far leaves room, and for requests that do not wrap the guard and the search agree |
| HeapRuns.BumpFitsIff | Kernel/src/MM/Heap.cpp:40-66 | without frees the split header fits if and only if the request is refused or leaves room for two headers |
| HeapRuns.MallocIsBump | Kernel/src/MM/Heap.cpp:26-73 | without frees malloc returns the start plus a header plus all earlier sizes and headers, and the list stays that of a bump allocator if the split header fits |
| HeapRuns.MallocsAreBump | Kernel/src/MM/Heap.cpp:26-73 | a run of mallocs keeps the region tiled if and only if the sums of sizes and headers leave room for two headers at each grant; it then leaves the chunk list and the counter of a bump allocator |
| HeapRuns.MisfitBreaks | Kernel/src/MM/Heap.cpp:27-66 | on a fresh heap every request that leaves room for one header but not for two is granted and breaks the tiling |
| HeapList.Heap.constructor | Kernel/src/MM/Heap.cpp:5-20 | one free chunk fills the region, or there is none if a header does not fit |
| HeapList.Heap.Search | Kernel/src/MM/Heap.cpp:33-43 | the walk along the links returns the chunk first fit names, or null |
| HeapList.Heap.Carve | Kernel/src/MM/Heap.cpp:51-66 | the link and field writes split the chunk on the list and leave next and prev inverse |
| HeapList.Heap.Malloc | Kernel/src/MM/Heap.cpp:26-73 | it fails exactly when the sum with the header, modulo 2^32, does not stay below the size of the heap, or no free chunk has more bytes, changing nothing; else it splits the first fit, adds one header to the list and raises usedMemory |
| HeapList.Heap.TakeOver | Kernel/src/MM/Heap.cpp:81-97 | a merge takes one chunk off the list and adds its bytes to the other; prev stays the inverse of next for the right back link, and for the one of line 96 exactly one link is wrong |
| HeapList.Heap.MergeBack | Kernel/src/MM/Heap.cpp:78-89 | the backward half of free on the linked chunks is the one on the block list |
| HeapList.Heap.MergeForward | Kernel/src/MM/Heap.cpp:91-98 | so is the forward half; the back link behind it is right exactly when line 96 is as intended or has nothing to set |
| HeapList.Heap.Free | Kernel/src/MM/Heap.cpp:75-99 | free with lines 80 and 96 each as written or intended: the new block list, the headers that stay on it, every other chunk untouched, and exactly when the back links survive |
| HeapList.RelinkedIff | Kernel/src/MM/Heap.cpp:91-97 | line 96 has a link to set exactly when the freed block has a free successor that is not the last block |
| HeapClient.Malloc | Kernel/src/MM/Heap.cpp:26-73 | malloc on the linked chunks is a step of the run model, and its result is the pointer the client gains, not one that it holds |
| HeapClient.Free | Kernel/src/MM/Heap.cpp:75-99 | free of a held pointer, with lines 80 and 96 each as written or intended, takes blocks and counter through a step of the run model; next and prev stay inverse if and only if line 96 is as intended or has no link to set |
| HeapClient.Play | Kernel/src/MM/Heap.cpp:5-99 | whole runs on the linked chunks: on held pointers, with fitting headers and no wrong back link set, the chunks are those of the run model, next and prev are inverse, no call hands out a held pointer or moves or shrinks a held block, and held ranges lie in the region and apart |
| HeapFaults.SecondFreeLosesTheHeap | Kernel/src/MM/Heap.cpp:80-98 | as written, two mallocs and a free of the second leave one live block that fills the heap |
| HeapFaults.HeldRangesOverlap | Kernel/src/MM/Heap.cpp:26-99 | as written, six mallocs and four frees, each of a pointer held at the time, leave two held ranges that overlap |
| Bitmap.WithDigitTest | Kernel/include/MM/MemoryManager.hpp:104-114 | writing a bit of a word decides that bit and no other |
| Bitmap.WithDigitIs | Kernel/include/MM/MemoryManager.hpp:104-110 | it adds or takes away the bit's mask |
| Bitmap.FullWord | Kernel/src/MM/PMM.cpp:132-132 | the word that the search skips is the one with all 32 bits set |
| Bitmap.WriteFrames | Kernel/include/MM/MemoryManager.hpp:104-110 | setBit and unsetBit add one frame to the set the bitmap stands for, or take it out |
| Bitmap.StoreFrames | Kernel/src/Lib/String.cpp:16-18 | storing one 0x0F byte decides the eight frames of that byte and no others |
| FrameAllocator.LastDecides | Kernel/src/MM/PMM.cpp:18-52 | the last entry that covers a frame decides whether it is used, and only one of type 1 frees it |
| FrameAllocator.Allocator.SetBit | Kernel/include/MM/MemoryManager.hpp:104-106 | the set of used frames gains the frame |
| FrameAllocator.Allocator.UnsetBit | Kernel/include/MM/MemoryManager.hpp:108-110 | the set of used frames loses the frame |
| FrameAllocator.Allocator.TestBit | Kernel/include/MM/MemoryManager.hpp:112-114 | it tells whether the frame is in the set |
| FrameAllocator.Allocator.FillBytes | Kernel/src/MM/PMM.cpp:16-16 | after memset the frames of bytes 1 to count are used by the low half of each byte; byte 0 and the rest are as before |
| FrameAllocator.Allocator.SetRegionUsed | Kernel/src/MM/PMM.cpp:59-71 | the region's frames and frame 0 become used, and the counter goes down by the number of blocks |
| FrameAllocator.Allocator.SetRegionFree | Kernel/src/MM/PMM.cpp:73-83 | the region's frames become free, and the counter goes up by the number of blocks |
| FrameAllocator.Allocator.ReadMap | Kernel/src/MM/PMM.cpp:18-52 | the variable-stride walk ends, and the last entry covering a frame decides its status, whatever the order and overlap |
| FrameAllocator.Allocator.InitPMM | Kernel/src/MM/PMM.cpp:8-57 | frames 0 to 511 are used; a later frame is used if and only if the last entry covering it is not of type 1, or, with no entry covering it, as the fill or what was there before has it; and what the counter holds |
| FrameAllocator.Allocator.FirstFreePhysicalPagesBits | Kernel/src/MM/PMM.cpp:126-153 | the least start, in any group of 32 frames that lies in memory, whose run is free, and -1 exactly when the size is 0 or there is none |
| FrameAllocator.Allocator.GetFreePhysicalPage | Kernel/src/MM/PMM.cpp:85-107 | it refuses if and only if the free counter is 0, the size is 0, or no run fits that starts in a group of 32 frames in memory; then it returns 0 and changes nothing; else the first fitting run is marked and counted |
| FrameAllocator.Allocator.FreePage | Kernel/src/MM/PMM.cpp:109-120 | the run's frames become free and are counted |
| FrameRuns.Allocate | Kernel/src/MM/PMM.cpp:85-107 | an allocation on the bitmap is a step of the run model; with frame 0 in use it returns 0 if and only if the request is refused |
| FrameRuns.Release | Kernel/src/MM/PMM.cpp:109-120 | so is freeing a live run with its length |
| FrameRuns.NextInv | Kernel/src/MM/PMM.cpp:85-120 | a step keeps live runs apart and inside the map, the used frames exactly reserved plus live, and the gap between counter and bitmap |
| FrameRuns.RunSafety | Kernel/src/MM/PMM.cpp:85-120 | over every run live page runs are pairwise disjoint, reserved frames are never handed out or lost, nothing leaks, and usedBlocks minus the number of set bits is constant modulo 2^32 |
| FrameRuns.NullMeansFailure | Kernel/src/MM/PMM.cpp:56-120 | with frames 0 to 511 reserved every success is at or above 2 MB, so null always means failure |
| FrameRuns.AllocateReleaseRestores | Kernel/src/MM/PMM.cpp:85-120 | freeing a run just allocated restores bitmap, counter and books exactly |
| FrameRuns.Play | Kernel/src/MM/PMM.cpp:8-120 | whole runs of allocations and frees on the bitmap, from the state that initPMM leaves: live runs are disjoint, at or above 2 MB and off the reserved frames, nothing leaks, and each frame starts with the status the memory map gives it |
| Paging.IndicesIdentifyPage | Kernel/include/MM/MemoryManager.hpp:19-20 | directory and table index together identify the page |
| Paging.OutsideTables | Kernel/src/MM/VMM.cpp:43-64 | stores into a frame that is no table change no walk |
| Paging.WindowReaches | Kernel/include/MM/MemoryManager.hpp:12-12 | with the window mapped, the kernel finds every frame below 1024 where it looks for it |
| PageMapping.ScrubIs | Kernel/src/Lib/String.cpp:14-21 | clearing a page through an address space clears the frame it leads to, if that is no table |
| PageMapping.SpilledIs | Kernel/src/Lib/String.cpp:16-18 | losing the low byte of an entry takes pages away and changes nothing else |
| PageMapping.LeafRefines | Kernel/src/MM/VMM.cpp:57-63 | setting a leaf of an existing table changes the walk of its page and of no other |
| PageMapping.RestIs | Kernel/src/MM/VMM.cpp:49-63 | memory after mapPage made a table, when the kernel finds some frame that is no table where it looks for the granted one |
| PageMapping.RestWalk | Kernel/src/MM/VMM.cpp:49-63 | every walk afterwards, when that is the granted frame, with memset as written or as intended |
| PageMapping.LeafWorks | Kernel/src/MM/VMM.cpp:44-63 | for a page whose slot has a table that is found, mapPage is a map update by one store, of a leaf that is present and writable |
| PageMapping.MapPageStores | Kernel/src/MM/VMM.cpp:43-64 | all that mapPage leaves in memory: the leaf and the entry of a new table, present and writable, zeroes in the rest of that table but for its first entry, and no other entry changed but the first one behind it |
| PageMapping.UnreachedFails | Kernel/src/MM/VMM.cpp:49-63 | if the granted frame is not found where the kernel looks for it, mapPage faults, or is no map update, or leaves the table unfound |
| PageMapping.NewTableFails | Kernel/src/MM/VMM.cpp:49-63 | nor does it work if the byte behind the page cannot be reached or takes a page away, or a stale first entry counts |
| PageMapping.MapPageIff | Kernel/src/MM/VMM.cpp:43-64 | with all tables distinct and found, mapPage ends without a fault, is a map update and leaves all tables found, if and only if: the slot has a table and the request moves no page where a table is looked for, or the granted frame is found and memset does no harm; and then the tables stay distinct and the leaf is present and writable |
| PageMapping.WindowSpares | Kernel/src/MM/VMM.cpp:43-64 | with the window mapped and all tables in it, that holds if the page asked for is outside it and a granted frame below 1023 has no table behind it and no stale entry that counts |
| PageMapping.WindowStays | Kernel/src/MM/VMM.cpp:57-63 | and the window stays mapped |
| PageMapping.Misdirected | Kernel/src/MM/VMM.cpp:49-63 | where the kernel finds other frames in place of the granted one, memset and the leaf go into those, and the page asked for stays unmapped |
| PageMapping.StaleEntryBreaks | Kernel/src/MM/VMM.cpp:48-63 | with memset as written and a stale first entry in the granted frame, mapping page 1 of an empty slot 0 also maps page 0 |
| BootTables.StaleFrameBreaks | Kernel/src/MM/VMM.cpp:48-63 | a concrete memory in which that happens |
| Paging.OwnedFresh | Kernel/src/MM/VMM.cpp:49-54 | a frame outside those of the directory and its tables is distinct from all of them |
| PagingRuns.MappedDoes | Kernel/src/MM/VMM.cpp:43-64 | with a frame that is not in use, mapPage works if and only if it is spared |
| PagingRuns.NextDoes | Kernel/src/MM/VMM.cpp:43-64 | each event, a mapPage on the first free frame or whatever other clients do with their frames, does what it should and leaves all tables distinct, in use and found, if and only if the call is spared |
| PagingRuns.RunRefines | Kernel/src/MM/VMM.cpp:43-64 | over every run whose calls are spared, none faults, each page leads where the last request for it said, and pages never asked for lead where they did, while other clients allocate, free and write their own frames |
| PagingRuns.RunDoesIff | Kernel/src/MM/VMM.cpp:43-64 | a run does at each event what it should if and only if every call is spared |
| PagingRuns.WindowStep | Kernel/src/MM/VMM.cpp:43-64 | a call inside the kernel window, by frame numbers, is spared and leaves window and tables as they should be |
| PagingRuns.WindowRun | Kernel/src/MM/VMM.cpp:43-64 | so is every call of a run of such calls |
| PagingRuns.MapPageCall | Kernel/src/MM/VMM.cpp:43-64 | with a frame to spare, mapPage in place is an event of these runs, and fails exactly with a fault |
| PagingRuns.MapAll | Kernel/src/MM/VMM.cpp:43-64 | mapPage calls one after the other, with a frame to spare for each: if all are spared none faults, each page leads where the last request said, and the others where they did |
| BootTables.BootMemset | Kernel/src/Boot/boot.asm:24-35 | in the boot address space memset clears the frames below 1023 and faults on all others |
| BootTables.DirectoryCells | Kernel/src/MM/VMM.cpp:7-27 | every entry of the first table and of the new directory, with memset as written |
| BootTables.DirectoryWalks | Kernel/src/MM/VMM.cpp:7-27 | the new directory is sound and maps the 4 MB from 3 GB on to the bottom of memory |
| BootTables.FirstHeapPage | Kernel/src/MM/VMM.cpp:31-34 | the first heap page gets a table above all others, below 1023, so memset as written does no harm |
| BootTables.FirstHeapFaults | Kernel/src/MM/VMM.cpp:31-34 | if that table would not lie below 1023, the first heap page faults, up to 1 GB |
| BootTables.HeapMappedNext | Kernel/src/MM/VMM.cpp:32-34 | one more heap page extends the mapped part of the heap by that page |
| VirtualMemory.MemoryManager.GetFrame | Kernel/src/MM/PMM.cpp:85-107 | one page: with frames to spare it is the first free one |
| VirtualMemory.MemoryManager.Find | Kernel/include/MM/MemoryManager.hpp:12-23 | where the address space in force takes a page |
| VirtualMemory.MemoryManager.Store | Kernel/src/MM/VMM.cpp:21-27 | one store, to the frame that is found, or a fault |
| VirtualMemory.MemoryManager.ClearPage | Kernel/src/Lib/String.cpp:14-21 | memset, store by store through the address space in force, or a fault |
| VirtualMemory.MemoryManager.MapPage | Kernel/src/MM/VMM.cpp:43-64 | physical memory afterwards, or a fault, with the leaf present and writable in the table that the directory names; and the one frame taken if a table was missing |
| VirtualMemory.MemoryManager.BuildDirectory | Kernel/src/MM/VMM.cpp:7-29 | the directory and its first table, in the first two free frames; it faults exactly when one of them is not below 1023 |
| VirtualMemory.MemoryManager.MapHeap | Kernel/src/MM/VMM.cpp:31-34 | with the table below 1023 the heap loop maps 256 distinct frames through it and fetches one frame more; with the table above it faults, up to 1 GB |
| VirtualMemory.FourLow | Kernel/src/MM/VMM.cpp:7-34 | the three frames that are stored to lie below 1023 if and only if four free frames do |
| VirtualMemory.MemoryManager.InitVMM | Kernel/src/MM/VMM.cpp:6-35 | with 260 allocations to spare and four free frames below 1023: it comes up, the tables are distinct and found, the kernel window leads to the bottom of memory, the heap pages to distinct frames that are neither directory nor table, every entry set is present and writable, and exactly 260 frames are taken; with fewer than four it faults, up to 1 GB |
| VirtualMemory.BootedBehind | Kernel/src/MM/VMM.cpp:31-34 | after the start the kernel finds the heap pages, in order, behind its window, and the directory and tables where it looks for them |
| VirtualMemory.HeapPageHit | Kernel/src/MM/VMM.cpp:49-63 | after the start, a table granted behind the window makes mapPage store into heap pages and leaves the page asked for unmapped |
| Boot.Measure | Kernel/src/MM/MemoryManager.cpp:27-33 | the memory size is the sum of the entries' lengths modulo 2^32 |
| Boot.InitAllocator | Kernel/src/MM/MemoryManager.cpp:27-37 | bitmap and counter after the start, in terms of the memory map alone |
| Boot.LeftAtBoot | Kernel/src/MM/PMM.cpp:8-57 | which frames are free then, and that the free counter is 512 minus the sum of the entries' effects |
| Boot.TakeFrames | Kernel/src/MM/PMM.cpp:85-124 | n single-frame allocations in a row succeed if and only if n frames are free and the counter admits n |
| Boot.EnoughIff | Kernel/src/MM/PMM.cpp:8-57 | from the memory map alone, when those two counts are reached after the start |
| Boot.FourLowIff | Kernel/src/MM/PMM.cpp:8-57 | from the memory map alone, when four of the free frames lie below 1023 |
| Boot.GuardAfterInit | Kernel/src/MM/PMM.cpp:14-89 | right after initialisation every request is refused if and only if the map leaves no frame free or its entries add up to 512 frames modulo 2^32 |
| Boot.RefusesEverything | Kernel/src/MM/PMM.cpp:59-89 | a map of two entries that leaves 1024 frames free and every request refused |
| Boot.Init | Kernel/src/MM/MemoryManager.cpp:14-39 | from the memory map alone, given frames enough: with four free frames below 1023 paging comes up in a state that runs of mapPage can start from, and with fewer the start ends in a page fault, up to 1 GB |
| Boot.StartFaults | Kernel/src/MM/VMM.cpp:7-8 | a map of two entries with frames enough on which the start ends in a page fault |
| Tokens.SplitStep | Kernel/src/Lib/String.cpp:75-89 | one strsep call takes off the first token of the split |
| Tokens.CallsAreSplit | Kernel/src/Lib/String.cpp:64-90 | repeated strsep calls return exactly the split at the delimiters, empty tokens included |
| Tokens.JoinRestores | Kernel/src/Lib/String.cpp:64-90 | there is one token more than delimiters, and joining the tokens with the overwritten delimiters gives the original |
| CStrings.Strlen | Kernel/src/Lib/String.cpp:4-12 | the length of the terminated string |
| CStrings.Strcmp | Kernel/src/Lib/String.cpp:32-43 | 0 exactly for equal strings, else the difference at the first place where they differ |
| CStrings.Strdup | Kernel/src/Lib/String.cpp:45-50 | a new buffer that holds the string |
| CStrings.Strsep | Kernel/src/Lib/String.cpp:64-90 | the token starts at the cursor, the one delimiter is overwritten, the cursor moves behind it or becomes null |
| CStrings.TokenLoop | Kernel/src/Lib/String.cpp:64-90 | calling strsep until null hands out the split |
| Numerals.ParseNumeral | Kernel/src/Lib/String.cpp:123-156 | parsing the numeral of a number gives the number back |
| Numerals.NumeralForm | Kernel/src/Lib/String.cpp:132-147 | no leading zero but for 0 itself, and only digits of the base, from 0 to 9 and then from A to V |
| Numerals.DigitsBound | Kernel/src/Lib/String.cpp:92-103 | a number of k digits lies between the powers k - 1 and k of the base |
| Numerals.CountDigit | Kernel/src/Lib/String.cpp:92-103 | the number of digits in any base from 2 on, and in the bases of itos the length of the numeral |
| Numerals.Swap | Kernel/src/Lib/String.cpp:109-113 | two cells trade places and the rest stays |
| Numerals.Reverse | Kernel/src/Lib/String.cpp:115-121 | the stretch is reversed in place and the rest is untouched |
| Numerals.LowFirstReversed | Kernel/src/Lib/String.cpp:132-155 | the digits in the order the loop finds them are the numeral reversed |
| Numerals.Itos | Kernel/src/Lib/String.cpp:123-156 | the numeral and a NUL are written and nothing else; nothing at all for a base outside 2 to 32 |
| MountMap.StepsAre | Kernel/src/FS/VFS.cpp:62-75 | the tokens that a walk follows are those in front of the first empty one |
| MountMap.MountedIs | Kernel/src/FS/VFS.cpp:62-100 | mounting adds exactly the missing prefixes without a file, sets the path's file and leaves all other files alone |
| MountMap.MountedClosed | Kernel/src/FS/VFS.cpp:62-100 | every path in the table keeps its parent there |
| MountMap.DescendLongest | Kernel/src/FS/VFS.cpp:129-160 | the lookup stops at the longest prefix of the path that is in the table, reading tokens up to the first empty one |
| MountMap.DescendAll | Kernel/src/FS/VFS.cpp:129-160 | when every step is there, the whole text is used up exactly when no token but the last is empty |
| MountMap.OpenAfterMount | Kernel/src/FS/VFS.cpp:39-231 | after a mount, opening the same path asks no storage if and only if no token but the last is empty, and then gives the mounted file |
| MountMap.UsedUpIff | Kernel/src/FS/VFS.cpp:129-160 | the lookup uses up the text if and only if every token but the last is a step of the table, and then stops at the path itself or, if that is missing, at its parent |
| MountMap.AsksStorageIff | Kernel/src/FS/VFS.cpp:116-224 | opening asks no storage if and only if the path is not the root and every token but the last names a mount point; then it gives the file of the mount, and where it asks it finds nothing if no storage answers |
| MountMap.FindAllIff | Kernel/src/FS/VFS.cpp:212-250 | asking for all the names finds a file if and only if a chain of answers leads there |
| MountMap.OpenAsksIff | Kernel/src/FS/VFS.cpp:200-250 | where storage is asked, a file is opened if and only if it ends a chain that starts at the file of the mount, each file but the last being a directory with storage that answers the token of the path at that place with the next |
| MountMap.OpenRootIff | Kernel/src/FS/VFS.cpp:200-250 | opening the root path asks the storage of the root's file for the empty token, and that of the answer for the empty token again |
| MountMap.OpensAsParent | Kernel/src/FS/VFS.cpp:129-231 | a path not in the table opens without asking storage if and only if its parent is there, and then as the file of the parent; a path of one token always does, as the file of the root |
| MountTree.List.Insert | Kernel/include/Lib/List.hpp:15-28 | the new node is the head, in front of the old list |
| MountTree.SiblingsDiffer | Kernel/src/FS/VFS.cpp:77-97 | siblings have different names, so a name has at most one match |
| MountTree.ShapeAdd | Kernel/src/FS/VFS.cpp:93-97 | adding a child whose name was not found keeps the tree a tree |
| MountTree.VFS.constructor | Kernel/src/FS/VFS.cpp:31-37 | an empty root and nothing else |
| MountTree.VFS.LastMatch | Kernel/src/FS/VFS.cpp:77-91 | the search to the end of the list finds the child of that name if the path is in the tree, else nothing |
| MountTree.VFS.FirstMatch | Kernel/src/FS/VFS.cpp:138-157 | the search that stops early finds the same |
| MountTree.VFS.AddChild | Kernel/src/FS/VFS.cpp:93-97 | the tree gains one node without a file, first in its parent's list |
| MountTree.VFS.MountRecursive | Kernel/src/FS/VFS.cpp:62-100 | the files of the tree become those of the mounted map |
| MountTree.VFS.GetMountRecursive | Kernel/src/FS/VFS.cpp:129-160 | the entry where the lookup on the map stops, and the text it leaves |
| MountTree.VFS.Mount | Kernel/src/FS/VFS.cpp:39-60 | the root takes a file once; any other path is mounted as on the map, a file already there replaced; only the root mount sets `root` |
| MountTree.VFS.GetMount | Kernel/src/FS/VFS.cpp:116-127 | the entry and the text left over, as on the map |
| MountTree.VFS.GetMountOf | Kernel/src/FS/VFS.cpp:102-114 | the same entry, with the path left alone |
| MountTree.VFS.OpenFile | Kernel/src/FS/VFS.cpp:200-231 | the mounted file if nothing was left over, else what the storage answers for every token of the path in turn |
| MountTree.AskStorage | Kernel/src/FS/VFS.cpp:212-224 | the tokens are looked up in turn until one is not found |
| Screen.PastIsFixed | Kernel/src/VGA.cpp:24-62 | what stands before the cursor never changes again |
| Screen.TextIsLinear | Kernel/src/VGA.cpp:24-43 | printable text fills consecutive cells across row ends, the character in the low byte and the colour of its moment in the high byte |
| Screen.VGA.Clear | Kernel/src/VGA.cpp:16-22 | all 2000 cells hold a space in the current colour |
| Screen.VgaColorIs | Kernel/include/VGA.hpp:40-42 | the colour byte is the text colour plus 16 times the background, for colours below 16 |
| Screen.VgaEntry | Kernel/include/VGA.hpp:44-46 | the low byte of a cell is the character, the high byte the colour |
| Screen.VGA.Scroll | Kernel/src/VGA.cpp:45-62 | below the last row the in-place ascending copy is a shift by one row with a blank last row; else nothing happens |
| Screen.PutShown | Kernel/src/VGA.cpp:24-62 | the history after one character, as a change of the 25 rows shown: nothing scrolls unless the cursor leaves the last row |
| Screen.VGA.PutChar | Kernel/src/VGA.cpp:24-43 | the screen stays the last 25 rows of the history and the cursor stays on it; the character goes to the cursor's cell in the colour in force, and the other cells stay or move up by one row above a blank one |
| Screen.VGA.Play | Kernel/src/VGA.cpp:16-81 | so it does over any sequence of characters and colour changes |
| Screen.VGA.Print | Kernel/src/Lib/Log.cpp:7-11 | printing a string puts its characters in order |
| Printf.LiteralRun | Kernel/src/Lib/Log.cpp:31-38 | a run of ordinary characters stands for itself |
| Printf.PrintNumber | Kernel/src/Lib/Log.cpp:53-70 | countDigit characters of what itos wrote are the whole numeral, and the cell behind the digit buffer is overwritten with NUL |
| Printf.Printf | Kernel/src/Lib/Log.cpp:22-78 | it ends on every format, prints what the format stands for and takes one argument for each conversion before the first malformed one |
| Printf.Composes | Kernel/src/Lib/Log.cpp:25-77 | a well-formed format followed by any other prints the one and then the other, which goes on with the arguments left |
| Printf.MalformedIsVerbatim | Kernel/src/Lib/Log.cpp:71-76 | from the first malformed conversion on the format is printed as it is and takes no argument |
| Printf.Conversions | Kernel/src/Lib/Log.cpp:41-70 | the text of each of the four conversions; that of %d reads as its argument in base 10, that of %x in base 16 |
| Printf.DoubledPrintsItself | Kernel/src/Lib/Log.cpp:26-40 | printing a string with every % doubled prints the string and takes no argument |
| Disk.Recombined | Kernel/src/Driver/ATA.cpp:88-94 | the four register pieces give back the low 28 bits of the sector number |
| Disk.WordBytes | Kernel/src/Driver/ATA.cpp:107-113 | each word of a sector is two bytes of the drive, the low one first |
| Disk.Turn | Kernel/src/Driver/ATA.cpp:61-80 | each turn copies from inside its sector, starts at the byte that is due, and ends where the next one starts |
| Disk.WorksIff | Kernel/src/Driver/ATA.cpp:47-83 | no turn leaves its sector and the turns add up to the size if and only if 1 <= offset + size <= 2^32 |
| Disk.CopiedIs | Kernel/src/Driver/ATA.cpp:47-83 | when the turns stay inside their sectors, and how much they then copy together: the size, but all 4 GB for the empty range at 0, and nothing for a range beyond 4 GB |
| Disk.Overflow | Kernel/src/Driver/ATA.cpp:51-80 | a range beyond 4 GB copies nothing, or more than its one sector holds |
| Disk.ATA.ReadSector | Kernel/src/Driver/ATA.cpp:85-116 | the 512 bytes of the sector, low byte of each word first |
| Disk.ATA.Read | Kernel/src/Driver/ATA.cpp:47-83 | exactly the bytes [offset, offset + size) of the drive arrive for a range inside 4 GB, otherwise as many from offset on as the turns copy; the buffer behind them is untouched |

## Left out

- Heap headers as bytes: chunks are objects with addresses, so a split whose header does not fit shows as a broken tiling, not as overwritten fields; the magic number and the magic check, which only logs, are left out.
- HeapRuns.HistoryIndependent: runs go on only while every split header fits; after one that does not, which StepInv shows to break the tiling at once, what follows depends on the bytes stored there.
- HeapList.Heap.Free: the chunk's place on the list and that of its back link are passed as proof-only arguments; a pointer that is not that of a chunk on the list is not modelled.
- HeapClient.Play: runs go on only while line 96 sets no wrong back link; what one such link leads to is said by FreeAtTilesIff, not what longer runs with wrong links do.
- FrameAllocator.Allocator.FirstFreePhysicalPagesBits: requires that the map can be read through every run the search tries, since the search tests bits beyond the end of the map.
- FrameRuns.Play: the requests are so short that the map can be read through every run the search tries.
- FrameAllocator.Allocator.ReadMap: entries are whole records at byte offsets, the walk does not wrap at 4 GB, and every entry's frames must lie in the map, which the code does not check either.
- Bit operations on words are given by binary digits, not by machine bit vectors; bit numbers are not limited to signed 31 bits.
- Paging: every access walks the tables anew, without a translation cache; whole entries are stored at once, except that memset starts with the one byte behind the page; the entry bits other than present, write and frame are left out, and the boot directory is taken as it is.
- PagingRuns.MapPageCall: requires a frame to spare, since without one the code goes on with frame 0 as the table.
- VirtualMemory.MemoryManager.InitVMM: that it faults without four low frames is stated for up to 1 GB; above that the addresses at which the kernel looks for a frame wrap around to slot 0, where stale bytes may decide.
- The one MemoryManager class is split into the page allocator and the part that builds tables; Boot puts them together.
- Boot.Measure: the memory size starts at 0, as a field of the one static object does.
- MountTree: names are immutable strings in nodes, allocation always succeeds, and the buffers of strdup are not freed, as in the code.
- MountTree.VFS.OpenFile: what a storage object answers is a parameter, and the flags argument is not read, as in the code.
- MountTree.VFS.Mount: the path is not empty; for an empty one the code reads behind it.
- Printf.Printf: an argument of the wrong kind, or one too few, is excluded, as the code cannot tell; output goes to a text sink that stands for the serial port or the screen.
- Printf.PrintNumber: the digit buffer and the cell behind it are one array here; what else of the caller that cell belongs to is not modelled.
- Numerals.Itos: the caller provides room for the NUL.
- Disk.ATA.Read: requires that the turns stay inside their sector buffers and that the caller's buffer has room for what they copy; CopiedIs says when and how much that is.
- Disk: drive errors, the busy loop, the sector count and the features register have no effect on the data read, and the sector buffers are not freed, as in the code.
- Screen: the hardware cursor port writes.
- Descriptor tables, interrupts, port I/O and boot assembly.
- Ext2, partition tables and Storage::findDirectory, which are stubs or commented out.
- kmalloc, operator new and delete, strcpy and strcat, the dump functions, log prefixes and panic, which would add only easy members.
