# The memory and file core of CookiesOS32

A Dafny model of the parts of this x86 kernel that do pointer surgery and arithmetic: the kernel heap, the frame
bitmap, the page tables, the FAT16 reader with its tokenizer, mount resolution and the text terminal.

Code that works in place is a class or a method over arrays, with the loops of the source. Each is proved against
functions on values (block lists, bitmaps as word sequences, memory as byte or word sequences, logs of lines), and
the theorems are about those functions and about whole runs. Machine words are naturals below 2^32 and `&`, `|`,
`~`, `<<` are defined bit by bit in `Bits.dfy`.

| file | models |
|---|---|
| `Bits.dfy`, `Memory.dfy`, `CStrings.dfy`, `Wrappers.dfy` | words and bit operators; little-endian memory and `memcpy`; `strlen`, `strcmp`, `strdeltoc` |
| `HeapModel.dfy`, `HeapLemmas.dfy`, `HeapSteps.dfy` | the block list of `kheap.c` as a value and what each operation does to it |
| `HeapEncoding.dfy`, `KernelHeap.dfy`, `HeapRuns.dfy` | the headers inside one flat byte array, the allocator code over it, and whole runs of it |
| `HeapRefrees.dfy` | when a pointer may be freed more than once |
| `Frames.dfy`, `FrameRuns.dfy` | `frame.c`, and runs of single-frame allocations |
| `Paging.dfy` | the macros of `paging.h`, page tables in memory, and what one `paging_map` does to the mapping |
| `PageDirectories.dfy` | `paging_dir_new` |
| `KernelSpace.dfy`, `AddressSpaces.dfy` | runs of `paging_map` in the kernel's address space, and the code of `paging.c` over memory and bitmap |
| `Fat.dfy` | volumes and cluster chains of `fat.c` |
| `Tokenizer.dfy`, `FatPaths.dfy` | `strtok`, directory buffers and paths of `fat.c` |
| `Mounts.dfy` | mount lookup and the path split of `vfs.c` |
| `Terminal.dfy` | the cursor and scroll machine of `framebuffer.c` |

The model follows the code, also where the code does not do what it is evidently meant to do. For these places
there is a theorem that says for which inputs it does:

- `frame_frist_free` assigns `bj` on every free bit (the braces at frame.c:39-40 are missing), so it reports the
  word of a run's first frame with the bit of its last. The report is right exactly for run lengths 0, 1, 33, 65, ...
  (`ReportedIsStart`). `AllocatedWasFree` says when the frames marked for another length were free, and
  `HandedOutTwice` is a bitmap for which one of them was not.
- `frame_free_ex` clears one bit n times (frame.c:68-69). `FreeUndoesReported` says exactly when it undoes an
  allocation, `CountAfterFree` when `alloced_frames` is still right after it: for no frame, or one that was taken.
- `paging_map` never stores the new table's frame in the directory entry (paging.c:17-23), so directory entries come
  to share tables. `MapUpdatesExactly` says for any memory when a call updates exactly its page. In the kernel's own
  address space frame 0 becomes the table of every directory entry: `KernelMapUpdates` decides each call after any run
  of calls, and by `KernelRunRight` a run is right throughout exactly if it stays below 4 MiB.
- `MapLinked` is the function with that one store added, and `MapAll` the theorem it was meant to satisfy. Both forms
  give up exactly when a table is needed and no frame can be had for it, or the one found is frame 0.
- `paging_dir_new` puts the directory on top of its own table for some bitmaps, because of the wrong report for three
  frames. `DirNew` says for which, `OverlapExample` is one, and `PlacedAtBoot` shows that the kernel's start is not.
- The chain loop of `fat_file_read_with_handle` treats the end mark 0xFFF8 as a cluster (`ChainIsSpecified`), and a
  read of a chain longer than `size` stores bytes beyond `size` (`ReadOverrun` counts them).
- The root lookup copies from address 0 when a name is missing (`MissingRootName`).
- The copy of `realloc` may run past the old block and even into the new one. The bytes that matter arrive
  (`KernelHeap.Heap.Realloc`); `ForwardCopySmears` says what the rest is.
- `free` tests only the magic number, which a merged-away header keeps. Right after a free a second one is harmless
  (`FreedMayBeFreed`). Later it is so exactly as long as no block handed out since, nor the header of the remainder
  that a split leaves behind it, lies over the freed word (`MallocIdle`, `ReallocIdle`, `RunIdle`). That the memory has
  not been handed out again is not enough: `RefreeBreaksList` is a run in which it has not, and the second free breaks
  the list.
- A directory longer than a sector is read past its 512-byte buffer; of it only the first sector is searched
  (`FirstSector`).
- `_find_relative_mount` does not end for every path; `SearchEnds` says for which it does.

A `hide` statement in a proof only keeps definitions the proof does not need away from the solver.

## Model

| member | source | states |
|---|---|---|
| HeapRuns.Replay | src/kernel/kheap.c:17-132 | for every sequence of malloc, free, realloc and client writes in which each pointer freed is live, listed as free, or has its freed word apart from all headers and used payloads: the list in memory is the one the model predicts, and no payload the run does not itself free, move or write changes a byte, and what a client has written into a live payload it reads back, also after a realloc has moved it |
| HeapRuns.KnowingStep | src/kernel/kheap.c:82-132 | each request keeps true what a client knows of its payloads: bytes written, moved by realloc with the payload, or left alone |
| HeapRuns.RunInvariant | src/kernel/kheap.c:17-132 | over every run the list stays ascending, each block ends at or below the next header and the last at or below curr_addr, no two free blocks are consecutive, and curr_addr is the start plus four times the listed bytes |
| HeapRuns.RunFromEmpty | src/kernel/kheap.c:11-15 | the same for every state reachable from the empty heap, and any two live payloads lie apart by at least a header |
| HeapRuns.StepKeepsUsed | src/kernel/kheap.c:82-132 | a request keeps every used block it does not touch, with address and size |
| KernelHeap.Heap.SplitBlock | src/kernel/kheap.c:27-42 | the split writes only inside the block, yields the list with the remainder as a free block, and keeps last_hh right |
| KernelHeap.Heap.FindGoodBlock | src/kernel/kheap.c:44-57 | takes the first free block that is large enough, or returns NULL and changes nothing |
| KernelHeap.Heap.MergeFreeBlocks | src/kernel/kheap.c:59-79 | leaves in memory the coalesced list with the right last_hh, and no used payload is written |
| KernelHeap.Heap.Malloc | src/kernel/kheap.c:82-113 | the new list and curr_addr, the pointer returned, and that every payload in use is untouched |
| KernelHeap.Heap.Free | src/kernel/kheap.c:115-125 | a pointer without the magic number changes nothing; otherwise the freed and coalesced list, and for a stale pointer the merged list as it was; used payloads untouched |
| KernelHeap.Heap.Realloc | src/kernel/kheap.c:127-132 | the first min(old size, new size) bytes arrive at the new pointer and every other payload in use is untouched |
| HeapLemmas.MergeIsCoalesce | src/kernel/kheap.c:59-79 | the merge loop equals replacing each maximal run of free blocks by one block over the run's bytes |
| HeapLemmas.MergeUsed | src/kernel/kheap.c:59-79 | merging keeps every used block, its address, size and order |
| HeapLemmas.MergeOrdered | src/kernel/kheap.c:73-74 | at every point of the merge loop the list is ascending and without overlap, also where it grows over gaps |
| HeapLemmas.MergeIdempotent | src/kernel/kheap.c:59-79 | merging twice is merging once, and a list is left alone exactly if it has no two consecutive free blocks |
| HeapLemmas.MergeTotal | src/kernel/kheap.c:73-74 | merging conserves the sum of payload and header sizes |
| HeapLemmas.TakeTotal | src/kernel/kheap.c:28-37 | splitting conserves that sum |
| HeapLemmas.TakeUsed | src/kernel/kheap.c:27-57 | taking a free block adds exactly one used block and leaves the others |
| HeapSteps.MallocFirstFit | src/kernel/kheap.c:44-113 | malloc returns the lowest free block that is large enough and moves curr_addr only if there is none |
| HeapSteps.MallocExactly | src/kernel/kheap.c:27-113 | the whole list and curr_addr after malloc: which block is taken, when it is cut in two and where, or how far curr_addr moves |
| HeapSteps.MallocUsed | src/kernel/kheap.c:82-113 | the blocks in use after malloc are those before and one of at least the requested size at the pointer returned |
| HeapSteps.MallocFresh | src/kernel/kheap.c:82-113 | that block overlaps none that was in use, header included |
| HeapSteps.MallocInvariant | src/kernel/kheap.c:82-113 | malloc keeps the heap invariant, conservation included |
| HeapSteps.FreeInvariant | src/kernel/kheap.c:115-125 | free keeps the heap invariant |
| HeapSteps.FreeUsed | src/kernel/kheap.c:115-125 | free takes exactly the freed block out of use |
| HeapSteps.FreeTwice | src/kernel/kheap.c:121-124 | freeing a listed free block again changes nothing |
| HeapSteps.FreedMayBeFreed | src/kernel/kheap.c:115-125 | right after a free the same pointer is still listed, or stale: nothing in use lies where free would write |
| HeapEncoding.StaleWrite | src/kernel/kheap.c:116-123 | setting the freed word in front of a stale pointer changes neither the list nor a used payload |
| HeapRefrees.MallocIdle | src/kernel/kheap.c:82-125 | a pointer that may be freed again still may after a malloc exactly if the block handed out, and the header of its remainder, lie apart from its freed word, or that header is its own |
| HeapRefrees.FreeIdle | src/kernel/kheap.c:115-125 | after a free the pointer freed may be freed again, and so may every pointer that could be before |
| HeapRefrees.ReallocIdle | src/kernel/kheap.c:127-132 | over a realloc of another pointer it still may exactly under the condition of malloc |
| HeapRefrees.RunIdle | src/kernel/kheap.c:82-132 | over a whole run it may be freed again after every request exactly if every request meets that condition |
| HeapRefrees.CarefulIsAllowed | src/kernel/kheap.c:82-132 | a client that frees only live pointers, and freed ones that every request since has spared, only makes the requests that Replay is about |
| HeapRefrees.ReplayCareful | src/kernel/kheap.c:17-132 | the theorem on whole runs in memory for such clients |
| HeapRefrees.RefreeBreaksList | src/kernel/kheap.c:27-125 | a run in which nothing of a freed block is handed out again, its magic word still reads right, and the word that a second free sets destroys the list |
| HeapRefrees.RefreeHarms | src/kernel/kheap.c:27-125 | that run carried out in memory |
| HeapSteps.FreeUndoesMalloc | src/kernel/kheap.c:27-79 | free(malloc(n)) served from the list restores the list exactly, split or not |
| HeapSteps.FreeAfterBump | src/kernel/kheap.c:100-125 | served by the bump path it does not, and what it leaves |
| HeapSteps.NoGrowthAfterFree | src/kernel/kheap.c:44-125 | a request no larger than the block just freed never moves curr_addr |
| HeapEncoding.PayloadWrite | src/kernel/kheap.c:112 | a client that writes inside one payload damages neither the list nor another payload |
| Memory.MemCpy | src/libs/libc/string.c:15-21 | the ascending copy, overlap included |
| Memory.ForwardCopyDelivers | src/libs/libc/string.c:15-21 | source bytes read before they are overwritten arrive intact, in particular when copying downwards |
| Memory.ForwardCopySmears | src/libs/libc/string.c:15-21 | copying upwards over an overlap repeats the first dst - src bytes periodically |
| Frames.FrameMap.FirstFree | src/kernel/frame.c:31-51 | for the lowest run of n free frames, across words, what is reported; -1 exactly if no run of n starts and ends in the first frames_max / 32 * 32 frames |
| Frames.LowestStart | src/kernel/frame.c:35-50 | the lowest start of a run of free frames below the limit, None exactly if there is no run |
| Frames.ReportedIsStart | src/kernel/frame.c:39-43 | the report is the start of the run exactly if n is 0 or leaves the remainder 1 modulo 32 |
| Frames.ReportedNotStart | src/kernel/frame.c:39-43 | on an empty bitmap a request for two frames is reported one too high |
| Frames.FrameMap.AllocEx | src/kernel/frame.c:53-64 | None exactly if there is no such run; else it marks n frames from the reported one, the address divided by 4096 is that frame, and alloced_frames stays the number of marked frames exactly if they were all free |
| Frames.AllocatedWasFree | src/kernel/frame.c:53-64 | exactly when the marked frames were all free, those behind the scanned ones included |
| Frames.HandedOutTwice | src/kernel/frame.c:31-71 | with frame 2 alone taken near the front, a request for two frames is given frame 2 again, and freeing the pair restores the bitmap |
| Frames.CountAfterSetRun | src/kernel/frame.c:58-62 | the number of marked frames grows by n exactly if they were all free and are all counted |
| Frames.FrameMap.Alloc | src/kernel/frame.h:15 | a single allocation fails exactly if all frames below frames_max / 32 * 32 are marked, else marks the lowest free one and no other, and alloced_frames stays the number of marked frames |
| Frames.FrameMap.FreeEx | src/kernel/frame.c:66-71 | the bitmap and the counter after the loop that clears one bit, and exactly when the counter is still right |
| Frames.CountAfterFree | src/kernel/frame.c:66-71 | the number of marked frames falls by n exactly for no frame, or one that was taken |
| Frames.FrameMap.Free | src/kernel/frame.h:17 | freeing a single frame unmarks it and no other, and the count stays right exactly if it was marked |
| FrameRuns.Replay | src/kernel/frame.h:15-17 | over any run of single-frame allocations and frees the frames held are those of the requests, each allocation giving the lowest frame neither held nor taken; they are pairwise distinct, the bitmap marks exactly them besides what it marked before, and alloced_frames counts the marked frames |
| FrameRuns.Capacity | src/kernel/frame.c:31-78 | after frame_init exactly endAddr / 4096 / 32 * 32 single allocations succeed, frame 0 first |
| FrameRuns.PlayedTakes | src/kernel/frame.c:31-64 | n allocations from a cleared bitmap take the first n frames, or all |
| Frames.FreeUndoesReported | src/kernel/frame.c:53-71 | allocating and freeing at the reported frame restores the bitmap exactly if that frame was free and the others were taken; among allocations of free frames, exactly for at most one |
| Frames.TakenAfterSet | src/kernel/frame.c:19-29 | after frame_set exactly that frame tests as taken in addition |
| Frames.TakenAfterClear | src/kernel/frame.c:23-29 | after frame_clear exactly that frame does not |
| Frames.FrameMap.Init | src/kernel/frame.c:73-78 | frame_init clears the marks of exactly the first frames_max / 8 * 8 frames |
| Paging.IndicesSplit | src/kernel/paging.h:35-36 | the two indices and the offset make up the address |
| Paging.FrameOfIs | src/kernel/paging.h:38 | the macro clears the low twelve bits |
| Paging.SetFrameIs | src/kernel/paging.h:42 | for an aligned address the macro replaces the frame and keeps the flags, and bit 31 stays set once it is |
| Paging.StorePageMaps | src/kernel/paging.c:26-30 | in a well-formed address space storing a page entry changes the mapping of that page alone |
| Paging.LinkTableMaps | src/kernel/paging.c:17-23 | with its frame stored, an empty new table changes no mapping and keeps the tables pairwise distinct |
| Paging.MapWalk | src/kernel/paging.c:13-31 | what every page is mapped to after a call as written, tables shared or not |
| Paging.MapUpdatesExactly | src/kernel/paging.c:13-31 | as written, a call updates exactly its page if and only if the table's other sharers agree already, a frame that becomes a table is blank but for that page, and bit 31 of the old entry is clear or wanted |
| KernelSpace.SharedStep | src/kernel/paging.c:13-31 | after any run of calls as written in the kernel's address space frame 0 is the one table of every directory entry asked for |
| KernelSpace.KernelMapUpdates | src/kernel/paging.c:13-31 | after any such run the next call updates exactly its page if and only if its directory entry is in use and the shared slot already has the address, or everything so far, this call included, is below 4 MiB |
| KernelSpace.LaterCallMoves | src/kernel/paging.c:13-31 | after one call at 4 MiB a call below it, whose table is in place, also moves a page above |
| KernelSpace.KernelRunRight | src/kernel/paging.c:13-31 | over a whole run the mapping is right after every call exactly if no call is at 4 MiB or above |
| KernelSpace.KernelRunReaches | src/kernel/paging.c:13-31 | with paging on, all stores of such a run reach the frames they are meant for exactly if before each call the requests so far leave the pages of the directory, of frame 0 and of a frame to be cleared mapped to themselves |
| KernelSpace.TableMoved | src/kernel/paging.c:13-31 | after page 0 has been mapped elsewhere no call reaches the table |
| Paging.ReachedAfter | src/kernel/paging.c:13-31 | after a run that maps what it is asked to, a frame is reached by its physical address exactly if the latest call for its page maps it to itself, or there is none and it was reached before |
| AddressSpaces.AddressSpace.TableFrame | src/kernel/paging.c:17-18 | a frame for a table is had exactly if frame 0 is taken and some other is free; otherwise frame 0 is taken and lost |
| AddressSpaces.AddressSpace.Map | src/kernel/paging.c:13-31 | paging_map as written: exactly when it gives up, and the memory and the frames taken in either case |
| AddressSpaces.AddressSpace.MapLinked | src/kernel/paging.c:13-31 | a linked call succeeds exactly if there is a table or a frame for one, and then updates the mapping at exactly its page, makes the two entries present, a new directory entry writable, keeps their other flags, and keeps the address space well formed |
| AddressSpaces.MapAll | src/kernel/paging.c:13-31 | over any sequence of linked calls each page is mapped as the latest call for it says, every other as before; the run goes on exactly as long as the tables needed can be had |
| AddressSpaces.AllServed | src/kernel/paging.c:16-18 | all calls succeed exactly if frame 0 is taken and there are as many free frames as new tables, or no table is new |
| AddressSpaces.MapAllAsWritten | src/kernel/paging.c:13-31 | the same run of calls as written from the kernel's directory: how far it goes, the shared table it leaves, and that it is right after every call exactly below 4 MiB |
| PageDirectories.DirNew | src/kernel/paging.c:51-69 | None exactly if there is no free frame, or no three in a row after it; where the table and the directory are put, what memory and bitmap hold; and exactly for which bitmaps the first 4 MiB are mapped to themselves and nothing else |
| PageDirectories.DirectoryOnTable | src/kernel/paging.c:52-60 | the directory is put on the table exactly if the run of three starts in the last two frames of a word, thirty above the lowest free frame |
| PageDirectories.OverlapExample | src/kernel/paging.c:52-60 | with frame 0 free, 1 to 29 taken and the rest free that happens |
| PageDirectories.NewDirectoryWalk | src/kernel/paging.c:51-69 | with the table apart the first 4 MiB are mapped to themselves and no other page is mapped |
| PageDirectories.NewDirectoryOverlap | src/kernel/paging.c:60-67 | if the directory is placed on the table page 1 is not mapped |
| PageDirectories.PlacedAtBoot | src/kernel/paging.c:52-60 | on a cleared bitmap they are frames 0 and 3 |
| AddressSpaces.PagingInit | src/kernel/paging.c:45-69 | on a cleared bitmap the kernel's directory is frame 3, identity-mapped below 4 MiB and well formed, and the frames taken are 0, 3, 4 and 5 |
| Tokenizer.StrTok.Next | src/fs/fat.c:144-170 | one call returns the next token and keeps the rest |
| Tokenizer.TokensAreSplit | src/fs/fat.c:144-170 | all tokens are the split of the path without its empty pieces, but for an empty last one |
| Tokenizer.TokensAreClean | src/fs/fat.c:144-170 | no token contains the separator and only the last can be empty |
| Fat.ReadWithHandle | src/fs/fat.c:106-142 | ptr holds the bytes of ReadBytes and is otherwise unchanged; as far as size and the chain reach, byte j of cluster i is the byte of the device at its place behind the root directory, and the chain is what the words of the first FAT link together; a node that is neither file nor directory reads nothing |
| Fat.ChainIsLinked | src/fs/fat.c:117-138 | the clusters visited are linked by the words of the table behind the reserved sectors, up to one above 0xFFF8 |
| Fat.StoredHolds | src/fs/fat.c:120-130 | what is stored is, byte for byte, the clusters at 512 * (fats * sectors per fat + reserved + 32 + (cluster - 2) * sectors per cluster) |
| Fat.ReadIsPrefix | src/fs/fat.c:125-130 | the stored bytes agree with the chain's clusters on the first size bytes and are all of them if they fit |
| Fat.ReadOverrun | src/fs/fat.c:125-130 | exactly how many bytes are stored |
| Fat.FatLookup | src/fs/fat.c:131-138 | the sector and offset arithmetic reads word c of the flat table |
| Fat.LoopEnds | src/fs/fat.c:119-139 | the loop over the clusters, from any starting cluster, ends exactly if the walk along the table stays on the device and meets no cluster twice |
| Fat.ChainIsAcyclic | src/fs/fat.c:119-139 | a chain on which the loop ends visits no cluster twice |
| Fat.ChainIsSpecified | src/fs/fat.c:119 | the loop visits the specified chain exactly if the end mark is not 0xFFF8 |
| Fat.ReadsPastEndMark | src/fs/fat.c:119 | a disk with a one-cluster file that ends in 0xFFF8, on which the loop reads on at a cluster that is not there |
| Fat.DataLbaIsFirstDataSector | src/fs/fat.c:120 | the data area is where the format puts it exactly if the root directory fills 32 sectors |
| FatPaths.FindEntry | src/fs/fat.c:79-88 | the first slot whose bytes begin with the name |
| FatPaths.MemCmp | src/libs/libc/string.c:3-13 | the sign of the first difference, 0 exactly if there is none |
| FatPaths.RootDirectory | src/fs/fat.c:90-104 | the first of the sixteen entries of the first root sector that begin with the name, or the bytes at address 0 if there is none |
| FatPaths.FirstSector | src/fs/fat.c:119-130 | of a directory of any length the buffer holds the first sector |
| FatPaths.GetFilehandle | src/fs/fat.c:186-224 | the tokenized loop terminates and refines the recursive directory walk, error outcomes included; an entry found ends a sequence of entries in the bytes of the device, each the first of its name in the cluster that the one before names |
| FatPaths.WalkGivesEntries | src/fs/fat.c:202-216 | an entry the walk finds ends a sequence of directories, each the first match in the one before, and a file |
| FatPaths.EntriesGiveWalk | src/fs/fat.c:202-216 | the walk finds the entry that ends such a sequence |
| FatPaths.WalkFindsEntries | src/fs/fat.c:202-216 | the walk finds an entry exactly if it ends a sequence of directories, each the first match in the one before, and a file |
| FatPaths.PathFindsEntries | src/fs/fat.c:186-224 | a path leads to an entry exactly if the entry is the last of such a sequence from the root on |
| FatPaths.PathEntriesAre | src/fs/fat.c:79-104 | the entries of a path in the bytes of the device: attributes in byte 11, the cluster in bytes 26 and 27, the first match in the root sector or in the first sector of that cluster |
| FatPaths.PathRunsOut | src/fs/fat.c:202-206 | the names run out exactly if all of them are directories |
| FatPaths.FileRead | src/fs/fat.c:226-232 | a file found by its path is delivered: ptr begins with its first size bytes, or all of it, from the clusters that its entry and the table name; otherwise the status is 1 and nothing is stored |
| FatPaths.MissingRootName | src/fs/fat.c:97-103 | a missing first component resolves to the bytes at address 0 |
| CStrings.StrLen | src/libs/libc/string.c:43-48 | the length of the string before the first NUL |
| CStrings.StrCmp | src/libs/libc/string.c:66-72 | 0 exactly for equal strings, otherwise the first difference, wrapped at 2^32 if it is negative |
| CStrings.StrDelToC | src/libs/libc/string.c:50-64 | the string is cut behind its last separator that is not its last character, in place, and what is returned |
| CStrings.CutShortens | src/libs/libc/string.c:50-64 | the cut shortens the string exactly if it has such a separator |
| Mounts.MountTable.FindRelativeMount | src/fs/vfs.c:142-160 | terminates with the first mount whose path is the longest that equals the path or is a prefix of it ending in a slash, 0 if there is none |
| Mounts.BestMountUnique | src/fs/vfs.c:142-160 | that mount is unique |
| Mounts.SplitIsWhole | src/fs/vfs.c:16-31 | mount path and real_path make up the path exactly if some mount covers it or mount 0's path is a prefix of it |
| Mounts.RootCovers | src/kernel/kernel.c:280 | with the root mounted first every absolute path is covered |
| Mounts.SearchEnds | src/fs/vfs.c:142-160 | the search ends exactly for paths that start with a slash or are covered by some mount |
| Mounts.EndlessSearch | src/fs/vfs.c:142-160 | with only the root mounted the search for a one-letter path does not end |
| Terminal.Screen.PutChar | src/kernel/framebuffer.c:30-48 | after a character the screen shows the log with that character added and the cursor is behind it; the character stands where the cursor was, one row up after a scroll, in the current colour |
| Terminal.Screen.Write | src/kernel/framebuffer.c:50-53 | the same for a text |
| Terminal.Screen.ScrollUp | src/kernel/framebuffer.c:80-85 | every row moves up by one and the last becomes blank, although the copy overlaps itself |
| Terminal.LogIsWrappedText | src/kernel/framebuffer.c:30-53 | after any text on a cleared screen the log is the text wrapped at 80 columns, whatever the colours |
| Terminal.Screen.SetColor | src/kernel/framebuffer.c:26-28 | a colour change touches neither the cells nor the text |
| Terminal.Play | src/kernel/framebuffer.c:26-53 | after any run of writes and colour changes on a cleared screen every cell is that of the last 25 lines of the joined text, wrapped, with the colour set when it was written, blanks included; from any screen the log grows by the characters in their colours |
| Terminal.Session | src/kernel/framebuffer.c:20-53 | the same from memory that is cleared first |
| Terminal.LogIsColoured | src/kernel/framebuffer.c:30-85 | every line of the log shows its part of what was written in its colours; the blanks of a line that scrolled in have the colour of the character that ended the line before |
| Terminal.ScreenIsColoured | src/kernel/framebuffer.c:30-85 | every cell of the screen, character and colour |
| Terminal.WrittenInColour | src/kernel/framebuffer.c:26-37 | what is written after a colour change has that colour |
| Terminal.ScreenIsLastLines | src/kernel/framebuffer.c:30-53 | the characters on the screen are the last 25 lines of the wrapped text, padded with blanks |

## Left out

- KernelHeap.Heap.Malloc: requires the memory to reach to the end of a block placed at curr_addr, since the page mapping there is commented out (kheap.c:90-98); addresses are below 2^31.
- KernelHeap.Heap.Free: requires that a pointer with the magic number is listed, or stale with its freed word in no header and no used payload (`HeapRefrees` says when that is so). What happens after a free that breaks the list, forged headers, and a free on an empty list, which reads through a null pointer, are not modelled.
- KernelHeap.Heap.Realloc: requires a live pointer and that the bytes its copy reads lie in memory.
- HeapRuns.Replay: the loop over requests is a driver for stating whole runs, not code of the kernel.
- Frames.FrameMap.AllocEx: requires the marked frames to lie in the bitmap, which the code does not check for more than one frame; the panic for a full bitmap is the result None.
- Frames.FrameMap.Init: the bitmap is an array of its own, apart from the frames it describes.
- Paging.MapUpdatesExactly: requires a page-aligned physical address, a directory that is not one of its own tables, and a new frame that no entry names.
- AddressSpaces.AddressSpace.MapLinked: requires page-aligned physical addresses below 2 GiB, the range of the frame mask, and so do the runs; memory above it, caching and the TLB are not modelled.
- AddressSpaces.MapAllAsWritten: stores go to physical memory, also where an earlier call has moved the page of the directory, of a table or of the frame cleared; KernelRunReaches and ReachedAfter say when that makes a difference with paging on. The same holds for MapAll and KernelRunRight.
- AddressSpaces.PagingInit: the bitmap lies apart from the frames; the kernel can place it at 0x400 (kernel.c:237), inside frame 0, which then becomes the identity table and overwrites it from its entry 256 on. The frames taken are stated without that.
- AddressSpaces.AddressSpace.Map: requires the frame named by a stale directory entry to be in memory.
- AddressSpaces.MapAll: the loop over requests is a driver that stops at the first call that gives up; paging_map itself does not tell its caller. The same holds for MapAllAsWritten and for FrameRuns.Replay.
- PageDirectories.DirNew: requires the three frames marked for the directory to lie in the bitmap, which the code does not check; one spare word behind the scanned ones is enough (`SpareWord`).
- Fat.ReadWithHandle: requires a chain that ends, on a device of 512-byte sectors, with room in ptr for all stored bytes; sector numbers do not wrap.
- FatPaths.FileRead: a path that runs out in a directory, for which the code compares names with a null pointer, has no status; sizes and clusters as for ReadWithHandle.
- FatPaths.GetFilehandle: requires that the chains of the directories entered end; what is stored behind a 512-byte buffer goes to memory in no other use, passed in with the buffer; malloc and free of the buffers are arrays.
- Mounts.MountTable.FindRelativeMount: requires a path for which the search ends, which is not empty.
- Mounts.MountTable.Mount: the table has no capacity limit, and checking and mounting the file system is not modelled.
- Terminal.Screen.ScrollUp: the copy is counted in two-byte cells, not in bytes.
- Port I/O, the ATA driver, interrupts, descriptor tables and system calls: external effects; the disk is a sequence of bytes.
- Keyboard, shell, device list, devfs and ELF loading: they translate key codes, dispatch commands, look names up in fixed tables and copy segments with the functions modelled here.
- memmove, memset over partial words, term_puthex, term_vprintf, term_reset_cursor, paging_page_new, fat_read_dir and the directory callbacks: formatting and wrappers over the copy, terminal, frame and directory code modelled here.
