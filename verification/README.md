# IcarusOS: heap, paging, tasks and printf

A Dafny model of the parts of the IcarusOS kernel that carry real invariants, with proofs.
`dafny verify dfyconfig.toml` checks everything. Code that updates state in place is modelled by
methods over classes, arrays and memory; each of those is proved equal to a function of the old state,
and the properties are lemmas about those functions and about whole runs of them.

| file | models |
|---|---|
| `Machine.dfy` | 32-bit words and byte-addressed little-endian memory |
| `OrderedArray.dfy` | the insertion-sorted pointer array |
| `HeapCells.dfy` | headers, footers, the heap invariant `Wf`, and the frame rule `PatchKeepsWf` |
| `HeapAlloc.dfy`, `HeapExpand.dfy`, `HeapFree.dfy` | search, split, page-aligned carve, expansion, both merges, contraction |
| `HeapPlacement.dfy` | where a request is met and how far it moves the end, in numbers |
| `HeapRuns.dfy` | runs of requests, frees and stores, refined to separate buffers |
| `HeapLaws.dfy`, `HeapOrder.dfy` | free undoes alloc, the order of the index and best fit, and a variant of `free` with one store added |
| `HeapPages.dfy`, `HeapEdge.dfy` | which pages hold frames, and what stands behind the last cell, over whole runs |
| `HeapFrames.dfy` | the heap over the frame bitmap: which frames its pages hold, over whole runs |
| `HeapLimits.dfy` | short request sequences that leave the domain in which the heap is sound |
| `KHeapFacts.dfy`, `KHeap.dfy` | `kheap.c` statement by statement |
| `Frames.dfy` | the frame bitmap, `alloc_frame`, `free_frame`, and runs of them |
| `Paging.dfy` | `get_page`, the placement allocator, `initialize_paging` |
| `Startup.dfy` | the hand-over from paging to the first heap |
| `Directories.dfy` | `clone_directory` and chains of clones |
| `MoveStack.dfy` | `move_stack` and `memcpy` |
| `Tasks.dfy` | `fork` and `switch_task` |
| `Numerals.dfy`, `Format.dfy`, `FormatInterpreter.dfy`, `FormatExamples.dfy` | number printing and parsing, padding, the format interpreter, and what it prints for a few format strings |

## What is proved

**Heap.** `Wf` says that the cells found by following header sizes tile the heap, that each is at least 20 bytes
long, that footers point back at their headers, that the index holds each hole once and nothing else, that no
two holes are adjacent, and that nothing just below the heap reads as a tag. `TheWalkIsTheOnlyLayout` shows that
memory admits only one such layout. Every run of `alloc`, `free` and client stores keeps `Wf` and is, to its
clients, a run on separate buffers (`RunRefines`, `UntouchedPayloadSurvives`, `FreshHeapRuns`); the code carries
such a run out call by call without panicking (`PerformAll`). That holds inside a domain, because the code falls
short of its intent in six places. Each has a lemma that says exactly when the code is sound, and a short
sequence of ordinary requests that gets there from a new heap:

| place | sound exactly when | lemma | sequence |
|---|---|---|---|
| `alloc` enlarges the highest hole although it need not end the heap, and takes index position 0xFFFF for "no hole" (`IcarusOS/kheap.c:183-217`) | a hole is enlarged if and only if the highest one is the last cell | `ExpandKeepsWfIff` | `ExpansionLeavesDomain` |
| a page-aligned carve leaves holes too small for their tags (`IcarusOS/kheap.c:234-275`) | the front hole and any rear hole have room for their tags | `CarveKeepsWfIff` | `CarvingLeavesDomain` |
| a right merge leaves the absorbed footer pointing at the absorbed header (`IcarusOS/kheap.c:315-330`) | the absorbed hole is the last cell | `FreeKeepsWfIff` | `RightMergeLeavesDomain` |
| `contract` rounds with a wrong mask (`IcarusOS/kheap.c:150-153`) | the merged hole starts low enough for the least heap length | `FreeKeepsWfIff` | `ContractionLeavesDomain` |
| `free` looks for a header behind the block even when the block ends the heap (`IcarusOS/kheap.c:314-315`) | nothing there reads as a hole | `FreeKeepsWfIff` | `EndReadLeavesDomain`, `StaleTagLeavesDomain` |
| `expand` checks its limit with a 32-bit sum (`IcarusOS/kheap.c:134`) | the new end is at most `max_address`, and the check refuses all others just as long as it stays below 2^32 | `AssertPassesIff` | `WrappedExpansionLeavesDomain` |

For `free` the converse is as strong as it can be: outside the domain the call stops, or no reading of the
memory it leaves is well formed. For the carve and the expansion it is about the layout that keeps the live
blocks where they are. `RepairedFreeKeepsWf` is about a variant that the code does not contain: with one store
added every right merge is sound.

The fifth place is a trap the code sets for itself. No run leaves frames in pages that the heap has given up,
but for one: contraction stops a page short (`NoStrayPagesAfterRuns`, `ContractionLeavesOnePage`). So behind a
block that ends the heap there is a frame at the least length only (`LastBlockFreeableIff`); at any other, the
read faults if the page was never mapped, and if contraction gave it up it finds frame 0, because `free_frame`
leaves the present bit set. Each of these is an outcome of `FreeOutcome`. And at the least length the page may
hold the header of a block freed earlier, which still reads as a hole. `ContractionLeavesTagIff` and
`WhichTagsAreLeft` say exactly when, and `StaleTagLeavesDomain` shows the ASSERT at `IcarusOS/kheap.c:327` fail
after six ordinary calls.

Over the frame bitmap, and with other users of frames in between, the heap's pages have pairwise distinct frames
along every run in which frames do not run out, and only one page can hold frame 0 (`FramesStayDistinct`); it
does once the heap has been contracted and grows again (`OddPageGetsFrameZero`). The index stays sorted exactly
as long as each size that changes in place suits its place (`HeapOrder`), and then every request gets a best fit.

The bytes of live blocks and of holes always add up to the heap (`BytesConserved`). `remove_ordered_array` reads
one slot past the used part (`IcarusOS/ordered_array.c:69`), so a run asks for a free slot in the index.

**Paging.** The words of the bitmap stand for a set of frames. Every run from the start keeps frames exclusive
exactly when there are no more than 4096 (`ExclusiveThroughoutIff`), which is what the kernel has. The reason is
that `free_frame` passes a frame number where an address is expected (`IcarusOS/paging.c:101`) and so never gives
the frame back (`FreedFrameStaysUsed`, `NoFrameIsReused`); it clears the bit of frame 0 instead, and the next page
that asks for a frame gets none (`NextAllocIsVoid`). With more frames the same slip hands a frame out twice
(`FrameGivenTwice`). An entry with a frame always has the flags that were asked for (`FlagsAreAsAsked`).
`get_page` is a map lookup, and the entries the processor reads are present exactly where there is a table.

`InitializePaging` maps low pages up to a bound that its own loop raises. It ends, and the number of pages is
a function of the initial placement address p alone (`PagesFor`). The bitmap is given a quarter of the bytes it
needs, and only those are zeroed (`IcarusOS/paging.c:248-249`). So the other words may hold anything, and the page
directory may lie over them (`BitmapOverlapsDirectoryIff`). The model stores each table pointer into the bitmap, too,
and reports the directory as damaged when a frame is handed out whose bit is one of a pointer's. The directory is
undamaged and all mappings are what they are meant to be exactly when p + 128 < 0xEF3000, no frame is needed whose
bit lies in the directory, and no stale word marks a frame that is needed (`MappingIsSoundIff`); `OverlapDamages`
gives an address where only the second of these fails. Stale words make no difference, whatever they hold, exactly
when p + 128 < 0x2F9000 (`StaleWordsHarmlessIff`). `FirstHeapIsWfIff` and `FirstHeapIsBacked` carry this over to the
first kernel heap.

**Tasks.** Whatever is called in whatever order, a task resumes with the registers last stored for it, in
the directory it was forked with; nobody starves; `move_stack` shifts every link of the frame-pointer chain
alike. Whatever directories are cloned and extended in between, each keeps every kernel table
(`DescendantsCoverTheKernel`), and the processor is shown the same tables as the kernel
(`PhysicalEntriesFollowTables`).

**printf.** A format string has a meaning (`Tokens`, `RenderAll`, and letter by letter `DirectiveMeans`), every
layout that can be spelled reads back as itself, and the interpreter prints exactly that meaning. `ui2a` prints
the only numeral without a redundant zero. `a2i` accepts a digit equal to its base (`IcarusOS/printf.c:114`), so
a width followed by the letter a is misread; the model follows the code, and `WidthReadsBackIff` and
`ParseUndoesPrintIff` say exactly when printing and parsing undo each other.

## Model

| member | source | states |
|---|---|---|
| `OrderedArrays.InsertionContents` | IcarusOS/ordered_array.c:41-60 | insertion adds exactly one occurrence of the item to the multiset |
| `OrderedArrays.RemovalContents` | IcarusOS/ordered_array.c:67-73 | removal takes away exactly one occurrence |
| `OrderedArrays.RemovalUndoesInsertion` | IcarusOS/ordered_array.c:41-73 | removing at the place of insertion restores the array |
| `OrderedArrays.OrderKept` | IcarusOS/ordered_array.c:41-73 | a sorted array stays sorted under both, for any strict weak order |
| `OrderedArrays.InsertionMembers` | IcarusOS/ordered_array.c:41-60 | a new item keeps the elements distinct and is the only one added |
| `OrderedArrays.RemovalMembers` | IcarusOS/ordered_array.c:67-73 | the elements stay distinct and only the removed one goes |
| `OrderedArrays.OrderedArray.constructor` | IcarusOS/ordered_array.c:24-32 | an empty array with room for `max_size` pointers |
| `OrderedArrays.OrderedArray.Lookup` | IcarusOS/ordered_array.c:62-65 | the element at an index in range |
| `OrderedArrays.OrderedArray.Insert` | IcarusOS/ordered_array.c:41-60 | the scan and the shift do what insertion at the first element that is not smaller does |
| `OrderedArrays.OrderedArray.PutBefore` | IcarusOS/ordered_array.c:50-58 | the shifting loop opens one slot in place and loses nothing |
| `OrderedArrays.OrderedArray.Remove` | IcarusOS/ordered_array.c:67-73 | the shifting loop closes the gap, reading one slot past the used part |
| `HeapCells.PatchKeepsWf` | IcarusOS/kheap.c:168-360 | a rewrite confined to one stretch keeps the whole heap well formed if the stretch is good |
| `HeapCells.TheWalkIsTheOnlyLayout` | IcarusOS/kheap.c:91-360 | one memory admits only one tiling by headers |
| `HeapCells.Predecessor` | IcarusOS/kheap.c:303-306 | every cell but the first has exactly a cell ending where it starts |
| `HeapCells.BytesConserved` | IcarusOS/kheap.c:146-360 | bytes of live blocks plus bytes of holes are the whole heap |
| `HeapCells.HeaderBytes` | IcarusOS/kheap.h:17-21 | where a header keeps its magic number, its flag and its size, the padding between them untouched |
| `HeapCells.FooterBytes` | IcarusOS/kheap.h:23-26 | where a footer keeps its magic number and the pointer to its header |
| `HeapAlloc.Find` | IcarusOS/kheap.c:57-85 | the first indexed hole that fits; nothing before it does |
| `HeapAlloc.FindStopsAt` | IcarusOS/kheap.c:57-85 | the hole found has room for the request behind the next boundary a page-aligned payload may start at, and no hole before it has |
| `HeapAlloc.Offset` | IcarusOS/kheap.c:65-68 | the front hole makes the payload behind it start a page and is never empty, not even if the hole's own payload starts one |
| `HeapAlloc.TakeKeepsWf` | IcarusOS/kheap.c:222-278 | an unaligned split keeps the heap well formed |
| `HeapAlloc.CarvePartitions` | IcarusOS/kheap.c:63-72 | in the domain the search's offset is the front hole, front, block and rear partition the hole, and the payload starts a page |
| `HeapAlloc.CarveKeepsWf` | IcarusOS/kheap.c:233-275 | in the domain a page-aligned carve keeps the heap well formed |
| `HeapAlloc.CarveOutsideDomainBreaks` | IcarusOS/kheap.c:233-275 | outside it never does |
| `HeapAlloc.CarveKeepsWfIff` | IcarusOS/kheap.c:233-275 | both directions |
| `HeapExpand.ExpandKeepsWf` | IcarusOS/kheap.c:174-220 | expansion keeps the heap well formed when it enlarges the last cell, or adds a hole where none ends the heap |
| `HeapExpand.ExpandKeepsWfIff` | IcarusOS/kheap.c:183-217 | and only then, the sentinel of the scan included |
| `HeapExpand.AssertPassesIff` | IcarusOS/kheap.c:129-134 | the 32-bit check of the limit refuses just the expansions beyond it whose end stays below 2^32 |
| `HeapExpand.ExpansionAmount` | IcarusOS/kheap.c:125-144 | each expansion adds strictly more than was asked, by a page at most, and ends on a page |
| `HeapExpand.NewEndIsLeast` | IcarusOS/kheap.c:129-143 | the new end is the first page boundary behind the old end and the request together |
| `HeapExpand.ExpansionHelps` | IcarusOS/kheap.c:174-217 | afterwards the highest hole is longer than the request, by a page more for each expansion |
| `HeapExpand.ExpansionsBounded` | IcarusOS/kheap.c:174-220 | the recursion expands at most once, or twice for a page-aligned request |
| `HeapExpand.MallocTakes` | IcarusOS/kheap.c:168-278 | an unaligned request for which a hole is found is always in the domain |
| `HeapExpand.ExpandKeepsBlocks` | IcarusOS/kheap.c:174-217 | expansion leaves every block and all its bytes alone and makes none |
| `HeapExpand.MallocGrants` | IcarusOS/kheap.c:168-279 | a granted request adds one block, big enough and aligned if asked, and changes no byte of any other |
| `HeapPlacement.PlacedInFirstHole` | IcarusOS/kheap.c:222-278 | a request is met in the first hole with room, as far in front as it may be, and takes exactly what it needs unless the rest had no room for tags |
| `HeapPlacement.EndAfterRequest` | IcarusOS/kheap.c:174-220 | how far a request moves the end: not at all if a hole was found, else to the next page boundary farther than the request, once or twice |
| `HeapFree.MergeStretch` | IcarusOS/kheap.c:301-330 | the merged stretch holds the block and its neighbouring holes only, and no hole borders it |
| `HeapFree.MergeTags` | IcarusOS/kheap.c:295-330 | which tags the merges leave: the footer is right exactly when nothing was absorbed on the right |
| `HeapFree.ReleaseIndex` | IcarusOS/kheap.c:298-358 | after `free` the index has the merged hole once and no absorbed one |
| `HeapFree.RestAfter` | IcarusOS/kheap.c:336-343 | what contraction leaves of the trailing hole, with 32-bit wrapping, ends at the new end |
| `HeapFree.ContractStopsAtMinSize` | IcarusOS/kheap.c:146-166 | which lengths `contract` turns into exactly the least one |
| `HeapFree.ContractLength` | IcarusOS/kheap.c:150-157 | at or above the least length a length without the 0x1000 bit stays as it is; every other comes out as the least length |
| `HeapFree.OuterFreeKeepsWf` | IcarusOS/kheap.c:332-358 | a `free` that reaches the end leaves exactly the least length, closed by one trailing hole |
| `HeapFree.FreeKeepsWf` | IcarusOS/kheap.c:281-360 | in the domain `free` keeps the heap well formed |
| `HeapFree.BehindIsIndexed` | IcarusOS/kheap.c:312-329 | inside the heap the ASSERT never fails: what reads as a hole is indexed |
| `HeapFree.StaleFooterBreaks` | IcarusOS/kheap.c:315-330 | absorbing a hole that does not end the heap leaves no well-formed reading of the memory |
| `HeapFree.DeepContractionBreaks` | IcarusOS/kheap.c:333-353 | contracting too far leaves none either |
| `HeapFree.OutcomeIsDoneIff` | IcarusOS/kheap.c:312-329 | exactly when `free` ends at all |
| `HeapFree.FreeKeepsWfIff` | IcarusOS/kheap.c:281-360 | with its right test read from memory, `free` ends, and with a well-formed heap, exactly on its domain |
| `HeapFree.FreeTakesOneBlock` | IcarusOS/kheap.c:281-360 | `free` takes away one block and changes no byte of any other |
| `HeapRuns.CreateIsWf` | IcarusOS/kheap.c:91-123 | a new heap is well formed although its hole has no footer |
| `HeapRuns.DataStart` | IcarusOS/kheap.c:101-107 | the data area starts a page, strictly behind the index and by a page at most |
| `HeapRuns.PayloadInside` | IcarusOS/kheap.c:168-279 | a live payload lies inside the heap, clear of its block's tags |
| `HeapRuns.PayloadsDisjoint` | IcarusOS/kheap.c:168-279 | live payloads are pairwise disjoint |
| `HeapRuns.AllocRefines` | IcarusOS/kheap.c:168-279 | to clients `alloc` is the addition of one separate buffer |
| `HeapRuns.FreeRefines` | IcarusOS/kheap.c:281-360 | to clients `free` is the removal of one buffer, and it neither panics nor faults |
| `HeapRuns.StoreRefines` | IcarusOS/kheap.c:252-278 | a store into a live payload changes that buffer only and breaks no tag |
| `HeapRuns.StepRefines` | IcarusOS/kheap.c:168-360 | whichever step it is |
| `HeapRuns.RunRefines` | IcarusOS/kheap.c:91-360 | every run in the domain is a run on separate buffers |
| `HeapRuns.UntouchedPayloadSurvives` | IcarusOS/kheap.c:168-360 | a payload nobody frees or stores into is the same at the end of any run |
| `HeapRuns.FreshHeapRuns` | IcarusOS/kheap.c:91-360 | from `create_heap` every run in the domain keeps all of this |
| `HeapLaws.FreeUndoesAllocIff` | IcarusOS/kheap.c:222-358 | freeing right after an unaligned, non-expanding request ends and restores cells and index exactly when the hole was not last, or the heap is at its least length and nothing behind a block that ends it gets in the way |
| `HeapLaws.FindIsBestFit` | IcarusOS/kheap.c:57-85 | in a sorted index the hole found is a smallest that fits, and none is found only when none fits |
| `HeapLaws.TakeKeepsOrder` | IcarusOS/kheap.c:246-275 | an unaligned split keeps the index sorted by the sizes in memory |
| `HeapLaws.FreeKeepsOrder` | IcarusOS/kheap.c:312-358 | so does a `free` without a left merge |
| `HeapLaws.IndexAfterRelease` | IcarusOS/kheap.c:298-358 | in the domain the index loses the absorbed hole and gains the freed block unless a hole on the left took it over |
| `HeapLaws.LeftMergeKeepsOrderIff` | IcarusOS/kheap.c:304-343 | a left merge, with or without a right one or a contraction, keeps it sorted exactly when the new size suits its place |
| `HeapOrder.InsertionOrderedIff` | IcarusOS/ordered_array.c:41-60 | an insertion neither spoils the order nor restores it |
| `HeapOrder.CarveKeepsOrderIff` | IcarusOS/kheap.c:234-275 | a page-aligned carve keeps the index sorted exactly when no entry before the hole is longer than its front |
| `HeapOrder.ExpandKeepsOrderIff` | IcarusOS/kheap.c:183-217 | an expansion does exactly when it adds a hole, or no entry behind the enlarged one is shorter than it has become |
| `HeapOrder.FreeKeepsOrderIff` | IcarusOS/kheap.c:298-358 | a `free` does exactly when it inserts the merged hole, or its new size suits its place |
| `HeapOrder.RequestKeepsOrder` | IcarusOS/kheap.c:168-279 | so does a request, however often it expands, if each step does |
| `HeapOrder.BestFitThroughRuns` | IcarusOS/kheap.c:57-85 | along every run of such steps, of any kind, each request gets a best fit |
| `HeapLaws.TrimShortens` | IcarusOS/kheap.c:332-354 | a heap above its least length always gets shorter |
| `HeapLaws.RepairedFreeKeepsWf` | IcarusOS/kheap.c:315-330 | with one store added (a variant, not the code) every right merge is sound |
| `HeapPages.ExpandKeepsPages` | IcarusOS/kheap.c:136-143 | expansion maps nothing at or above the new end, and pages below the old end stay as they were |
| `HeapPages.MallocKeepsPages` | IcarusOS/kheap.c:168-279 | nor does any request, however often it expands |
| `HeapPages.FreeKeepsPages` | IcarusOS/kheap.c:158-166 | contraction gives up every page above the new end, but for the one right there, and no other |
| `HeapPages.ContractionLeavesOnePage` | IcarusOS/kheap.c:158-163 | when it shortens the heap, exactly one page more than the heap needs keeps its frame |
| `HeapPages.NoStrayPagesAfterRuns` | IcarusOS/kheap.c:91-360 | no run in the domain leaves frames behind in pages the heap has given up |
| `HeapEdge.ContractionLeavesTagIff` | IcarusOS/kheap.c:295-354 | exactly when a contraction leaves something at the new end that reads as a hole |
| `HeapEdge.WhichTagsAreLeft` | IcarusOS/kheap.c:295-354 | wherever the new end lies: the freed block's own header and the absorbed one always are left, the footer depends on the pointer written, and elsewhere it is as before the call |
| `HeapEdge.LastBlockFreeableIff` | IcarusOS/kheap.c:312-315 | exactly when a block that ends the heap can be freed |
| `HeapFrames.MappingKeepsBacked` | IcarusOS/kheap.c:136-142 | each page that expansion maps gets a frame of its own, but for the odd page |
| `HeapFrames.ContractionKeepsBacked` | IcarusOS/kheap.c:158-163 | contraction to the least length leaves the pages that stay with theirs |
| `HeapFrames.PagesHaveTheirOwnFrames` | IcarusOS/kheap.c:125-166 | so the frames of a backed heap are pairwise distinct |
| `HeapFrames.OddPageGetsFrameZero` | IcarusOS/paging.c:95-104 | a heap that was contracted and grows again gets frame 0 for one page |
| `HeapFrames.RequestKeepsBacked` | IcarusOS/kheap.c:168-220 | a request keeps the heap backed, however often it expands |
| `HeapFrames.FreeKeepsBacked` | IcarusOS/kheap.c:332-354 | so does a `free` |
| `HeapFrames.FramesStayDistinct` | IcarusOS/kheap.c:91-360 | along every run over the frames, with other users of frames in between, heap pages have distinct frames and only the odd one can hold frame 0 |
| `HeapLimits.FreshHeapIsAHole` | IcarusOS/kheap.c:115-120 | a new heap is where the sequences below start |
| `HeapLimits.RightMergeLeavesDomain` | IcarusOS/kheap.c:315-330 | three requests and two frees reach an unsound right merge |
| `HeapLimits.ContractionLeavesDomain` | IcarusOS/kheap.c:146-166 | two requests and one free reach an unsound contraction |
| `HeapLimits.ExpansionLeavesDomain` | IcarusOS/kheap.c:189-217 | two requests and one free, and any bigger request would expand unsoundly |
| `HeapLimits.CarvingLeavesDomain` | IcarusOS/kheap.c:234-275 | one odd-sized request puts page-aligned requests outside the domain |
| `HeapLimits.WrappedExpansionLeavesDomain` | IcarusOS/kheap.c:134-134 | a request of about a gigabyte passes the check on the kernel's first heap |
| `HeapLimits.EndReadLeavesDomain` | IcarusOS/kheap.c:312-315 | one block that fills the heap cannot be freed when no page behind it holds a frame, unless frame 0 happens to read as no hole |
| `HeapLimits.StaleTagLeavesDomain` | IcarusOS/kheap.c:295-327 | after six requests and frees the seventh call fails the ASSERT |
| `KHeapFacts.LeftTest` | IcarusOS/kheap.c:301-306 | reading the footer on the left finds the hole that ends there, and only that |
| `KHeapFacts.RightTest` | IcarusOS/kheap.c:312-315 | the header read behind the block is that of a hole exactly if one starts there; at the end it is what memory holds |
| `KHeapFacts.RestEndsTheHole` | IcarusOS/kheap.c:235-268 | whatever the 32-bit sizes come to, the rear footer is written where the chosen hole ended |
| `KHeaps.KHeap.constructor` | IcarusOS/kheap.c:91-123 | the heap it builds is the modelled one and well formed |
| `KHeaps.KHeap.FindSmallestHole` | IcarusOS/kheap.c:57-85 | the loop over memory finds what the model's search finds, or -1 |
| `KHeaps.KHeap.Expand` | IcarusOS/kheap.c:125-144 | in 32-bit arithmetic, wrapping included: the new end, which `NewEndIsLeast` fixes, and a frame for just the pages visited |
| `KHeaps.KHeap.MapPages` | IcarusOS/kheap.c:138-142 | the loop visits every page from the old end on |
| `KHeaps.KHeap.Contract` | IcarusOS/kheap.c:146-166 | the new end, and frames given up strictly above it only |
| `KHeaps.KHeap.GiveUpPages` | IcarusOS/kheap.c:158-163 | the loop stops a page short of the new end |
| `KHeaps.KHeap.EndmostHeader` | IcarusOS/kheap.c:183-196 | the scan finds the position of the highest indexed header, and its sentinel when there is none |
| `KHeaps.KHeap.AddHole` | IcarusOS/kheap.c:199-208 | a tagged and indexed hole at the old end |
| `KHeaps.KHeap.EnlargeHole` | IcarusOS/kheap.c:209-217 | the enlarged hole with its new footer |
| `KHeaps.KHeap.MakeRoom` | IcarusOS/kheap.c:174-217 | the expanding branch is the modelled expansion |
| `KHeaps.KHeap.SetFrontAside` | IcarusOS/kheap.c:233-249 | the page-aligning branch tags the front hole and moves on behind it; otherwise the chosen hole leaves the index |
| `KHeaps.KHeap.WriteBlock` | IcarusOS/kheap.c:251-275 | the tags of the block and of the hole behind it |
| `KHeaps.KHeap.WriteRest` | IcarusOS/kheap.c:263-275 | the rear hole's header, footer and index entry |
| `KHeaps.KHeap.CutBlock` | IcarusOS/kheap.c:222-278 | together they are the modelled split or carve |
| `KHeaps.KHeap.Alloc` | IcarusOS/kheap.c:168-279 | `alloc` and its recursion do what the model says, and end |
| `KHeaps.KHeap.Search` | IcarusOS/kheap.c:321-324 | the scan for a header finds its first place, or the index size |
| `KHeaps.KHeap.UnifyLeftward` | IcarusOS/kheap.c:287-310 | the left merge and the bookkeeping for the index |
| `KHeaps.KHeap.UnifyRightward` | IcarusOS/kheap.c:316-329 | the merged hole grows over the one on the right, whose entry goes if there is one |
| `KHeaps.KHeap.Unify` | IcarusOS/kheap.c:287-330 | both merges, as modelled, or the page fault or failed ASSERT of the modelled outcome |
| `KHeaps.KHeap.Shrink` | IcarusOS/kheap.c:332-354 | contraction with its resizing or removal branch, as modelled |
| `KHeaps.KHeap.Free` | IcarusOS/kheap.c:281-360 | `free` has the modelled outcome, page fault and failed ASSERT included; a null pointer changes nothing |
| `KHeaps.KHeap.Write` | IcarusOS/kheap.c:278-278 | a client's store through the pointer it was given |
| `KHeaps.Perform` | IcarusOS/kheap.c:168-360 | one call is one step of the run it belongs to |
| `KHeaps.PerformAll` | IcarusOS/kheap.c:168-360 | the code carries out every run in the domain |
| `Frames.WritingABit` | IcarusOS/paging.c:31-44 | setting or clearing a bit of a word changes that bit only |
| `Frames.OddIs` | IcarusOS/paging.c:63-64 | the bit that the mask test looks at |
| `Frames.NotAllOnes` | IcarusOS/paging.c:59-66 | a word other than all ones has a clear bit, so the inner loop finds one |
| `Frames.FirstFreeIsLeast` | IcarusOS/paging.c:55-70 | the frame found is the least absent one whenever one exists |
| `Frames.FrameMap.constructor` | IcarusOS/paging.c:247-249 | only as many bytes are zeroed as there are words, the rest mark what memory held |
| `Frames.FrameMap.SetFrame` | IcarusOS/paging.c:31-36 | adds one frame to the set |
| `Frames.FrameMap.ClearFrame` | IcarusOS/paging.c:39-44 | takes one frame out |
| `Frames.FrameMap.FirstFrame` | IcarusOS/paging.c:55-70 | the scan over words and bits finds the least absent frame, 0 if none |
| `Frames.FrameMap.AllocFrame` | IcarusOS/paging.c:75-92 | an entry without a frame becomes present, writable and accessible to users as asked; at most one bit changes, and an entry that has a frame is left alone |
| `Frames.FrameMap.FreeFrame` | IcarusOS/paging.c:95-104 | the entry loses its frame and keeps its flags, and the bit of another frame is cleared |
| `Frames.RunStaysExclusive` | IcarusOS/paging.c:75-104 | with 4096 frames, over every run, exhaustion included, no frame is held twice and every held one is marked |
| `Frames.FreeKeepsExclusiveIff` | IcarusOS/paging.c:95-104 | for any number of frames, exactly when a `free` keeps that |
| `Frames.FreedFrameStaysUsed` | IcarusOS/paging.c:95-104 | a freed frame stays marked |
| `Frames.NextAllocIsVoid` | IcarusOS/paging.c:75-104 | with 4096 frames the next request after a free gets frame 0, which stands for none |
| `Frames.NoFrameIsReused` | IcarusOS/paging.c:75-104 | with 4096 frames no frame is ever handed out twice |
| `Frames.FillingUp` | IcarusOS/paging.c:75-92 | requests from the start get the frames in order |
| `Frames.FrameGivenTwice` | IcarusOS/paging.c:75-104 | with any more frames than 4096 a run from the start gives one to two pages |
| `Frames.FlagsAreAsAsked` | IcarusOS/paging.c:75-92 | at the end of any run an entry with a frame has the flags that the request which gave it the frame asked for |
| `Frames.ExclusiveThroughoutIff` | IcarusOS/paging.c:75-104 | all runs from the start keep frames exclusive exactly with 4096 at most |
| `Frames.FrameMap.Store` | IcarusOS/paging.c:127-127 | a pointer stored into memory that the bitmap shares: its 32 bits and no others |
| `Frames.FrameMap.ClearFrom` | IcarusOS/paging.c:253-253 | the bits in the directory's memory are zeroed with it |
| `Frames.Perform` | IcarusOS/paging.c:75-104 | one call on bitmap and tables is one step of the run it belongs to, and leaves entries with a frame present with the flags of the run |
| `Frames.PerformAll` | IcarusOS/paging.c:75-104 | the code carries out every run, flags included |
| `Paging.TableGrowth` | IcarusOS/kheap.c:27-37 | a page-aligned table raises the placement address by more than a page and at most two |
| `Paging.Placement.Kmalloc` | IcarusOS/kheap.c:26-38 | where the placement allocator puts a request, and that it moves past it |
| `Paging.MakingATable` | IcarusOS/paging.c:125-131 | a new table adds empty entries for its own pages and changes none |
| `Paging.WritingAnEntry` | IcarusOS/paging.c:116-124 | distinct page numbers have distinct entries: a write shows at its page only |
| `Paging.TenAndTenBits` | IcarusOS/paging.c:117-123 | the table is the upper ten bits of the address, the entry its middle ten |
| `Paging.Or7` | IcarusOS/paging.c:129-129 | the three low bits set and all others kept: the present bit, and the frame of a page-aligned table |
| `Paging.PointersKeepApart` | IcarusOS/paging.c:127-127 | of two pointers stored into the bitmap each keeps its own 32 bits |
| `Paging.Directory.constructor` | IcarusOS/paging.c:252-255 | a blank directory is the empty map, and the address for the processor is that of its physical entries |
| `Paging.Directory.GetPage` | IcarusOS/paging.c:116-135 | the entry of the address, null exactly when the table is absent and not to be made; a new table has its physical entry, and each physical entry is present exactly when its table is there, else 0 |
| `Paging.Directory.GetPageOver` | IcarusOS/paging.c:116-131 | the same where the directory lies over the bitmap: the pointer to a new table marks frames, and the physical entries match the tables |
| `Paging.Directory.AllocPage` | IcarusOS/paging.c:278-278 | mapping an address changes the map at its page only, and damages the directory exactly when the frame's bit lies in it |
| `Paging.HandedInOrderIff` | IcarusOS/paging.c:55-92 | the first frames come in order exactly when there are enough and none of them was marked |
| `Paging.HandedIff` | IcarusOS/paging.c:55-92 | a real frame is handed out exactly as long as frames were left at the start |
| `Paging.SettlesExactly` | IcarusOS/paging.c:275-280 | the moving bound is met exactly |
| `Paging.FitsIff` | IcarusOS/paging.c:247-285 | what fits into the frames, and into the zeroed words, as bounds on the initial placement address |
| `Paging.TracksOneMore` | IcarusOS/paging.c:248-285 | as long as no frame has its bit in the directory, the shared bitmap hands out what one of its own would |
| `Paging.TracksStore` | IcarusOS/paging.c:127-127 | a stored pointer hides no frame before the directory, nor the first one in it |
| `Paging.UndamagedIff` | IcarusOS/paging.c:248-285 | the directory stays undamaged exactly as long as frames are left whose bits lie before it |
| `Paging.MakeHeapTables` | IcarusOS/paging.c:261-264 | entries for the heap pages exist, all still empty |
| `Paging.IdentityMap` | IcarusOS/paging.c:275-280 | the loop ends although it raises its own bound, after a number of pages known beforehand; page k has the k-th frame, or the directory was damaged |
| `Paging.MapHeapPages` | IcarusOS/paging.c:283-285 | the heap pages get the frames handed out after those |
| `Paging.InitializePaging` | IcarusOS/paging.c:242-285 | both, for a number of low pages that the initial placement address determines, whatever the words not zeroed hold; exactly when the directory is damaged on the way; and the physical entry of every table, as a number |
| `Paging.MappingIsSoundIff` | IcarusOS/paging.c:245-285 | exactly from which initial placement addresses and stale words the directory is undamaged and every mapping is what it should be, entry by entry, flags included |
| `Paging.OverlapDamages` | IcarusOS/paging.c:248-253 | an address where nothing is wrong but the overlap of bitmap and directory |
| `Paging.StaleWordsHarmlessIff` | IcarusOS/paging.c:248-249 | exactly from which addresses the stale words make no difference |
| `Paging.BitmapOverlapsDirectoryIff` | IcarusOS/paging.c:248-253 | exactly when the bitmap runs into the page directory |
| `Startup.FirstHeapIsWfIff` | IcarusOS/paging.c:242-293 | exactly from which initial placement addresses and stale words the directory is undamaged and the first kernel heap well formed |
| `Startup.FirstHeapIsBacked` | IcarusOS/paging.c:242-293 | if all went as meant, each page of the first heap has a frame of its own |
| `Startup.FirstHeapHasNoStrayPages` | IcarusOS/paging.c:283-293 | no page beyond the first heap holds a frame |
| `Startup.NoStrayPagesFromStartup` | IcarusOS/paging.c:283-293 | nor after any run on it |
| `Directories.CloneDirectory` | IcarusOS/paging.c:205-239 | the loop builds the modelled clone, with a fresh table for each slot that is not the kernel's, the processor's entry of that very table, and the address for the processor |
| `Directories.CloneMatchesSource` | IcarusOS/paging.c:218-235 | tables exactly where the source has them, shared exactly where the source shares with the kernel |
| `Directories.CloneKeepsSharing` | IcarusOS/paging.c:205-239 | every table stays the kernel's or private to one slot of one directory |
| `Directories.SharingThroughAnyChain` | IcarusOS/task.c:102-110 | through any chain of clones and added tables nothing that was there changes |
| `Directories.DescendantsCoverTheKernel` | IcarusOS/paging.c:218-235 | through any chain of clones and added tables every directory has each kernel table with its physical entry |
| `Directories.PhysicalEntriesFollowTables` | IcarusOS/paging.c:218-235 | through any such chain, if new tables come with their own addresses: two physical entries are equal exactly when the tables are the same, and 0 exactly when there is none |
| `Directories.KernelAlone` | IcarusOS/paging.c:297-297 | the kernel directory alone is where such chains start |
| `MoveStacks.RelocatedWord` | IcarusOS/task.c:56-66 | the backward pass rewrites each word once, from its own old value |
| `MoveStacks.MovedWord` | IcarusOS/task.c:46-66 | each word arrives as its old value, shifted exactly when it lay strictly inside the old stack |
| `MoveStacks.RestOfStack` | IcarusOS/task.c:56-66 | below the copied part each word of the new stack stays what it was, shifted under the same condition, and below the stack nothing changes |
| `MoveStacks.MovedElsewhere` | IcarusOS/task.c:46-66 | nothing outside the new stack and the word above it changes |
| `MoveStacks.WordAboveStack` | IcarusOS/task.c:56-66 | when the word just above the new stack is changed too |
| `MoveStacks.ChainMoves` | IcarusOS/task.c:46-66 | for every depth the chain of saved frame pointers is the old one shifted |
| `MoveStacks.AllPagesMappedIff` | IcarusOS/task.c:30-33 | exactly when the mapping loop reaches every page of the new stack |
| `MoveStacks.PagesMappedAre` | IcarusOS/task.c:30-33 | the pages visited are just those from that of the top down, one for each full page of the size and one more |
| `MoveStacks.Processor.MapNewStack` | IcarusOS/task.c:30-33 | which pages the loop visits |
| `MoveStacks.Processor.Memcpy` | IcarusOS/util.c:5-9 | the copy, for ranges that do not meet |
| `MoveStacks.Processor.RelocateStack` | IcarusOS/task.c:54-66 | the loop is the modelled pass |
| `MoveStacks.Processor.MoveStack` | IcarusOS/task.c:27-72 | memory and both registers afterwards |
| `Tasks.RunAppend` | IcarusOS/task.c:95-208 | a run in two parts is the one and then the other |
| `Tasks.ContextsPreserved` | IcarusOS/task.c:106-185 | at every point of every run each task, forked during it or not, holds what was last stored for it, and the pid and directory it was given |
| `Tasks.AlwaysResumable` | IcarusOS/task.c:121-185 | every task but the running one has a context to resume |
| `Tasks.SwitchResumes` | IcarusOS/task.c:168-185 | a switch resumes with the registers last stored, in the directory given at the fork; a forked task's first run returns 0 from `fork` |
| `Tasks.PidsCountUp` | IcarusOS/task.c:106-119 | along every run below the wrap the pids are 1, 2, 3 and so on in list order |
| `Tasks.ForkKeepsPidsIncreasingIff` | IcarusOS/task.c:107-107 | exactly when `next_pid` stops giving increasing pids |
| `Tasks.SwitchesAddUp` | IcarusOS/task.c:173-178 | switches, laps and the running position balance |
| `Tasks.OneLapIsOneTurn` | IcarusOS/task.c:173-178 | a task that runs again after one lap waited as many switches as the list then had tasks |
| `Tasks.ReachLap` | IcarusOS/task.c:173-178 | enough switches start the list over, the first time at its length then |
| `Tasks.ReachPosition` | IcarusOS/task.c:173-178 | enough switches reach any later task |
| `Tasks.RunsAgain` | IcarusOS/task.c:106-178 | after at most as many switches as tasks and forks together the same task runs again, and not before one full turn |
| `Tasks.Task.Save` | IcarusOS/task.c:169-171 | a context is saved whole |
| `Tasks.Scheduler.constructor` | IcarusOS/task.c:82-88 | one task with pid 1, the current directory and nothing saved, running, from which the run lemmas start |
| `Tasks.Scheduler.Append` | IcarusOS/task.c:113-119 | the walk over the list links the task at its end and keeps the list acyclic |
| `Tasks.Scheduler.SetUpChild` | IcarusOS/task.c:125-131 | the child's context is the parent's registers |
| `Tasks.Scheduler.AddTask` | IcarusOS/task.c:102-119 | a new task with nothing saved, the next pid and its own directory |
| `Tasks.Scheduler.Fork` | IcarusOS/task.c:95-140 | `fork` is the modelled step and gives the parent the child's pid |
| `Tasks.Scheduler.SaveCurrent` | IcarusOS/task.c:168-171 | the registers go to the running task and to no other |
| `Tasks.Scheduler.LoadNext` | IcarusOS/task.c:173-185 | the next in the list or else the first, with what was saved for it and its directory |
| `Tasks.Scheduler.SwitchTask` | IcarusOS/task.c:142-185 | `switch_task` is the modelled step, and loads what was saved for the next task; the marker returns at once |
| `Numerals.LengthBounds` | IcarusOS/printf.c:74-75 | how many digits a number needs |
| `Numerals.NumeralDenotes` | IcarusOS/printf.c:70-86 | the numeral denotes its number and has no redundant zero |
| `Numerals.NumeralIsUnique` | IcarusOS/printf.c:70-86 | and is the only digit string that does |
| `Numerals.ValueInRange` | IcarusOS/printf.c:70-121 | digit strings and the numbers of that many digits match one to one |
| `Numerals.NumeralFits` | IcarusOS/printf.c:138-138 | any word fits the local buffer |
| `Numerals.DigitChar` | IcarusOS/printf.c:81-81 | decimal digits below ten, letters of the asked case from ten on |
| `Numerals.A2d` | IcarusOS/printf.c:97-106 | a digit of either case, or -1 |
| `Numerals.DigitRoundTrip` | IcarusOS/printf.c:81-106 | reading undoes printing, digit by digit, in either case |
| `Numerals.DigitsAscend` | IcarusOS/printf.c:81-81 | a greater digit has a greater character |
| `Formats.A2i` | IcarusOS/printf.c:108-121 | the loop scans what the model scans |
| `Formats.ScanDigits` | IcarusOS/printf.c:108-121 | scanning digits yields the number they denote and stops behind them |
| `Formats.ScanStopsIff` | IcarusOS/printf.c:113-114 | the loop stops exactly at a character it does not take |
| `Formats.AcceptedCharacters` | IcarusOS/printf.c:113-114 | which characters the loop takes: in base ten also the letter a |
| `Formats.ParseUndoesPrintIff` | IcarusOS/printf.c:70-121 | parsing undoes printing exactly when what follows is not taken for a digit |
| `Formats.LeadingPower` | IcarusOS/printf.c:72-75 | the loop ends without overflow at the weight of the leading digit |
| `Formats.Ui2a` | IcarusOS/printf.c:70-86 | writes the numeral and a NUL and nothing else |
| `Formats.I2a` | IcarusOS/printf.c:88-95 | writes the signed numeral and a NUL, the least `int` included |
| `Formats.IntText` | IcarusOS/printf.c:88-95 | a minus sign exactly for negative numbers, and the numeral of the magnitude |
| `Formats.CStringIs` | IcarusOS/printf.c:123-134 | a buffer that holds a text and a NUL reads as that text |
| `Formats.Spare` | IcarusOS/printf.c:127-129 | the first loop finds how much of the width is left over |
| `Formats.Fill` | IcarusOS/printf.c:130-131 | writes that many fill characters |
| `Formats.PutString` | IcarusOS/printf.c:132-133 | writes the text |
| `Formats.Pad` | IcarusOS/printf.c:123-134 | the text at the end, in front of it zeros or blanks as asked, and the width unless the text is longer |
| `Formats.FillAndPut` | IcarusOS/printf.c:127-133 | the three loops in a row write that |
| `Formats.PadAtEnd` | IcarusOS/printf.c:123-134 | what that means for the buffer, character by character |
| `Formats.Putchw` | IcarusOS/printf.c:123-134 | in the buffer the text stands at the end, zeros or blanks as asked in front of it, up to the width |
| `Formats.Cursor.Putf` | IcarusOS/printf.c:229-232 | one character further, and nothing else changes |
| `FormatInterpreter.RenderingIsCompositional` | IcarusOS/printf.c:143-210 | two layouts in a row print one after the other, the second with the arguments left over |
| `FormatInterpreter.DirectiveMeans` | IcarusOS/printf.c:166-208 | which letter prints what: sign, base, case, padding, and whether it takes an argument |
| `FormatInterpreter.WidthReadsBackIff` | IcarusOS/printf.c:157-159 | exactly which letters may follow a width |
| `FormatInterpreter.SpellingReadsBack` | IcarusOS/printf.c:143-210 | every spelled layout reads back as itself |
| `FormatInterpreter.ReadDirective` | IcarusOS/printf.c:147-159 | the parsing code reads the directive that the meaning has there |
| `FormatInterpreter.NumberText` | IcarusOS/printf.c:169-197 | the numeric cases leave the right text in the local buffer |
| `FormatInterpreter.Convert` | IcarusOS/printf.c:166-208 | the switch prints what the directive means and takes its argument |
| `FormatInterpreter.FormatOne` | IcarusOS/printf.c:143-210 | one round prints one token's meaning |
| `FormatInterpreter.TfpFormat` | IcarusOS/printf.c:136-212 | exactly the concatenated renderings, arguments taken in order |
| `FormatInterpreter.TfpSprintf` | IcarusOS/printf.c:236-243 | that text and one NUL, and not a character more |
| `FormatExamples.Width` | IcarusOS/printf.c:179-188 | `%5d` of 42 is filled up with blanks |
| `FormatExamples.ZeroFlag` | IcarusOS/printf.c:153-188 | `%05d` of -42 is filled up with zeros, in front of the sign |
| `FormatExamples.LowerCase` | IcarusOS/printf.c:189-197 | `%x` prints small letters |
| `FormatExamples.UpperCase` | IcarusOS/printf.c:189-197 | `%X` prints capitals |
| `FormatExamples.Character` | IcarusOS/printf.c:198-200 | `%5c` prints the low byte, and no blanks |
| `FormatExamples.Text` | IcarusOS/printf.c:201-203 | `%04s` is filled up with blanks in spite of the zero |
| `FormatExamples.Oddities` | IcarusOS/printf.c:166-208 | a doubled percent sign prints one, an unknown letter nothing, and a directive that is cut off stops |
| `FormatExamples.LeftToRight` | IcarusOS/printf.c:143-210 | arguments are taken from left to right |

## Left out

- KHeaps.KHeap.Alloc: asks that sizes stay below 2^31, that the index has a free slot (and one more if a hole is added), and that the request is in `AllocDomain`, because an unsound expansion is followed by a search of a heap that is no longer one; page tables for added pages are taken to exist, so `expand` does not call `alloc` again.
- KHeaps.KHeap.Free: what a page without a frame shows is a parameter, because it is not the heap's memory.
- KHeaps.KHeap.MakeRoom: takes the bytes of a page that is mapped again to be what they were, and the page that holds frame 0 (`OddPageGetsFrameZero`) to be nobody else's.
- KHeaps.KHeap.constructor: asks for an initial data area of at least `HEAP_MIN_SIZE`, which the kernel's own call has.
- HeapFrames.FramesStayDistinct: the heap's supervisor and read-only fields are a parameter of the run, not fields of `KHeap`.
- HeapRuns.CreateIsWf: asks that the word eight bytes below the data area does not read as `HEAP_MAGIC`, because freeing the first block reads it (`IcarusOS/kheap.c:303-304`); it lies in a page that `create_heap` skips, and nothing in the heap ever writes it.
- HeapRuns.StoreRefines: a client writes only into its own payload; stray writes are not modelled.
- HeapCells.TheWalkIsTheOnlyLayout: memory is a sequence of bytes; the index is a separate array and does not lie in it.
- Paging.Directory.GetPage: tables come from the placement allocator; the branch of `kmalloc_int` that allocates from an existing heap and looks up the physical address is not modelled.
- Paging.InitializePaging: asks that the placement address starts low enough for every table that could be made to lie below the heap; once a pointer of the directory is damaged, it does not follow what the code does with it.
- Directories.CloneDirectory: `clone_table` enters as a source of fresh tables; its contents are left open, because its test is inverted (`IcarusOS/paging.c:178`) and it clears more than a table (`IcarusOS/paging.c:173`).
- MoveStacks.Processor.MoveStack: registers are fields, the reload of CR3 has no effect, and the frames of the new pages are not modelled beyond which pages are asked for.
- Tasks.Scheduler.Fork: `read_eip` and the registers are parameters, interrupts are off throughout, and the directory clone is known by its address only.
- Tasks.Scheduler.SwitchTask: the jump is modelled by what it loads; the call before tasking is initialised, which returns at once, is not modelled.
- Formats.A2i: asks that the number fits an `int`; in C a longer one is undefined.
- Formats.I2a: negating the least `int` is taken to wrap, as it does on the machine; in C it is undefined.
- FormatInterpreter.TfpFormat: the sink is the buffer of `tfp_sprintf`; arguments must suit their directives, which C leaves to the caller, and each width that is read must fit an `int`.
- Assembly, port I/O, interrupt and descriptor tables, timer, serial line, keyboard, screen, boot: hardware effects.
- `initrd.c`, `fs.c`: callback dispatch, and not built.
- The `long` variants of printf, `init_printf` and `tfp_printf`: not compiled in, or a fixed sink for the same interpreter.
- `strcmp`, `memset`, page-fault reporting: small, or reporting only.
