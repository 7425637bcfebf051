# A verified model of the kernel's memory, process, terminal and file system logic

This project models the logic of a small i686 kernel and proves what it is for. The model follows the code: the same
branches, the same constants, the same order of allocations, and 32-bit wrap-around where it matters. Code that
updates state in place is a class or a method with loops; each such method is proved against a function of the old
state, and the properties are lemmas about those functions, for every input and every run.

| files | what they model | main results |
|---|---|---|
| `Wrappers`, `Division`, `Words`, `Pmm`, `FrameRuns` | shared datatypes and division; words, pages and bytes; the frame bitmap | one bit operation touches one bit; allocation takes the lowest free frame and never frame 0; a release returns only for a frame that is free already, so over any run frames are handed out in ascending order, none twice, and none comes back; which pages boot leaves free, by address: no byte of low memory, of the kernel or of the bitmap itself is ever handed out |
| `Mmu`, `Paging` | two-level translation through the recursive slot; `map_page`, `unmap_page` | both refine a partial map from pages to entries; an unmap panics exactly when its page was the last of its table; mapping and unmapping a fresh page returns with translations and frames as before exactly when the slot had a table already |
| `AddressSpace`, `Isolation` | foreign directories edited through temporary windows; new directories | the windows are zero again after every call; over every run each address space sees its own edits and no others |
| `ArgStack`, `Loader`, `Program`, `Elf` | the argument page, ELF loading page by page, the file format as a writer produces it | the page-wise loader equals the byte-wise specification seen through translation, exactly when what is put last on a shared page agrees; the rights of a page are its segment's through both levels; `_start` reads back the arguments; headers written are read back |
| `Spaces`, `Sharing`, `KernelStack`, `Spawning` | all address spaces together; spawns, the kernel's maps and stores, and every program's stores, in any order | tables, user pages and the kernel's own frames stay pairwise apart; over every run each program sees its own image and arguments as changed by its own stores and by nothing else; a store that a program's rights allow touches nothing else; `sys_spawn` with all its allocations is such a run, and the first dispatch of the child enters user mode at the entry point its file was written with; a kernel page mapped in one directory is seen in another exactly when they share the table |
| `HeapSpec`, `KHeap`, `LargeAlloc`, `Growth`, `Boot` | `kmalloc`, `kfree`, `free_head`, growth; runs of whole pages; start-up on the boot directory | the linked headers are an address-ordered list in every run, live extents are disjoint, lost bytes are bounded by a header per allocation; searching from `free_head` is first fit from the head; when a free undoes an allocation exactly; pages handed out keep their frames exactly as long as the heap ends below them; start-up works on a directory two of whose slots share a table, and ends with an ordinary one that maps heap, framebuffer, back buffer and archive |
| `KThread`, `Lifecycle`, `ProcessList`, `History` | the run list; spawn, exit, wait, and the list removal after a blocked wait store by store | bounded waiting over iterated switches; at most the current thread is running; what a wait answers, told from the steps since the first process alone; no lost wake-up; a blocked wait reaps a dead child in every interleaving exactly when that child is the parent's only living one; the removal's store unlinks that child and no other exactly when the link it found is unchanged |
| `Tty` | the canonical-mode line discipline over its ring | for every interleaving of keys and reads, what was read followed by the ring is the accepted keys edited line by line; the echo and the reader's thread state at every halt |
| `CStrings`, `Ustar`, `Archive`, `InitrdFs`, `ArchiveTree` | string routines, the three archive walkers, and a writer of the ustar format | writing an archive and walking it gives the members back; listing and lookup agree; resolution finds a path exactly when the archive has it and its directories |
| `Vfs`, `Descriptors`, `ArchiveFiles` | mounts, path resolution, descriptors, reads | resolution is the fold over the components after the longest mount prefix, and extra slashes behind it do not change it; chunked reads rebuild the file, and reading until nothing comes gives all of it; with the archive at `/`, a member's path leads to it and reading gives the member's data |
| `Printf`, `Formats` | `vsnprintf` and `utoa` | the buffer holds the pure rendering; what each conversion puts out, by letter, flags, width and precision: numerals that parse back in the letter's base, in fields filled on the right side; the call fails to return exactly when a literal meets a full buffer |
| `Clock` | the timer's calendar | over any number of ticks the date stays valid and advances by the seconds due, exactly while the year fits 16 bits |

Physical memory is a sequence of pages of 1024 words, and a program's view of it goes through its directory. A call
ends either in a value or in `Panic`. Interrupts are off in the kernel except where it halts, so system calls and
interrupt handlers are atomic steps between halts; other processes, drivers and devices act through the parameters
of those steps. The exception is what follows a wait that blocked: `sys_wait` turns interrupts on to halt and not off
again, so the removal from the process list can be preempted. It is modelled load by load and store by store, with
any other steps in between, whether or not the compiler reads the link again before the store.

Where the code does less than its design suggests, the model keeps the code, and a lemma gives the exact condition:

- `Pmm.FrameAllocator.FreeFrame` and `FrameRuns.HandedOutIsRefused`: the guard against a double free panics on every frame in use and
  lets through the free ones, so no frame is ever given back.
- `Paging.UnmapPage`, `Paging.MapThenUnmapRestoresIffTable` and `Paging.FreshTableIsLost`: an emptied table is therefore not reclaimed;
  unmapping the last page of a table panics after the table has left the directory.
- `Program.LoadedIffLastAgrees`: segments that share a page replace each other's bytes (`Elf.SharedPageLosesAByte`), and the stack
  pages replace those of a segment that reaches them (`Program.StackPageReplacesSegment`, `Elf.StackLosesAByte`).
- `Lifecycle.WaitIsFaithfulIffOnlyLiveChild`: an exit wakes a parent that waits for another child
  (`Lifecycle.SecondChildWakesTheParent`).
- `ProcessList.StoreIsExactIffIntact`: a removal that is preempted after it has found its link may unlink another process
  (`ProcessList.PreemptedStoreUnlinksAnother`).
- `Sharing.LaterPageIsSeenIffTable`: kernel pages mapped after a process's directory was made, its own kernel stack among
  them, are seen in it only where its creator had a table already.
- `Growth.HandedOutStayIffHeapBelow`: the heap grows over the pages of `kalloc_pages` (`Growth.FirstGrowthPastBase`).
- `HeapSpec.ReleaseUndoesTake` and `HeapSpec.GrowthServesNoLargeRequest`: bytes of a block taken whole are lost, and growth a page
  at a time never serves a request larger than a page's payload.
- `Pmm.PagesCoverBytesIff`: the page count of a range ignores where in its first page it starts (`Pmm.SecondPageIsMissed`).
- `Ustar.PathIsPrefixAndName` and `Ustar.StepAdvancesIffNoWrap`: a 100-character name without a NUL runs into the next field
  (`Ustar.FullNameRunsOn`), and a size near 2^32 turns the walk back (`Ustar.WalkStaysAtHeader`).
- `Vfs.CutKeepsComponents` and `Vfs.LongestStaysIffBehind`: a mount path is matched as a string, so it may end inside a name
  (`Vfs.DevicesIsCut`), and a doubled slash inside it is not passed over (`Vfs.DoubledInsideMountIsMissed`).
- `Printf.Vsnprintf`: a literal character is not stepped over once the buffer is full, so a format without conversions never
  returns exactly when it does not fit (`Printf.LiteralIsStuckIffTooLong`).
- `KThread.LeftThreadRunsAgain`: a switch makes the thread it leaves ready even if it has exited or is blocked; such a thread
  runs on in its halt loop.
- `Formats.SignComesFirstIff`: zero padding stands before the sign.
- `Clock.ClockCountsTicks`: the tick counter's wrap counts as a second, and the year's wrap loses the date (`Clock.YearRunsOut`).
- `ArgStack.StoresBelowIffNotFits` and `ArgStack.LongestSpawnArgsDoNotFit`: the loader stores below its page buffer exactly for
  arguments that do not fit, and the argument limits of `sys_spawn` allow such lists.

## Model

| member | source | states |
|---|---|---|
| Words.PageBytesRoundTrip | src/userspace/uprocess.c:14-26 | bytes stored into a page of words and loaded back are the same bytes |
| Pmm.BitOperations | src/memory/pmm.h:12-14 | setting or clearing one bit of a map byte decides that bit and leaves the other seven alone |
| Pmm.FrameAllocator.BitSet | src/memory/pmm.h:12 | exactly one frame of the whole bitmap becomes used |
| Pmm.FrameAllocator.BitClear | src/memory/pmm.h:13 | exactly one frame of the whole bitmap stops being used |
| Pmm.FrameAllocator.MarkUsed | src/memory/pmm.c:44-50 | the pages of the range become used, no other page changes |
| Pmm.FrameAllocator.MarkFree | src/memory/pmm.c:52-58 | the pages of the range stop being used, no other page changes |
| Pmm.FrameAllocator.constructor | src/memory/pmm.c:12-42 | after boot a frame is free exactly when it is in a usable region and, by address, holds no byte of low memory, of the kernel or of the bitmap, and is none of the pages counted for framebuffer and descriptor; so no byte of these is in a free frame, as far as the counts reach |
| Pmm.PagesCoverBytesIff | src/memory/pmm.c:44-58 | every byte of a range lies in a marked page if and only if the start offset and the last byte's offset stay within one page |
| Pmm.SecondPageIsMissed | src/memory/pmm.c:44-58 | of two bytes across a page boundary the second one's page is not marked |
| Pmm.ReservedIffTakenBack | src/memory/pmm.c:27-41 | the five ranges that boot marks are, page for page, those that hold a byte of low memory, of the kernel's extent or of the bitmap behind its virtual end, or are spanned by the lengths of framebuffer and descriptor |
| Pmm.BootBytesAreTaken | src/memory/pmm.c:27-41 | so the page of every byte of them is taken back, for the two unrounded ranges where the start within the page leaves room |
| Pmm.FrameAllocator.AllocFrame | src/memory/pmm.c:64-76 | returns the lowest free frame, never frame 0, and takes it out of the free set; panics if and only if none is free |
| Pmm.FrameAllocator.FreeFrame | src/memory/pmm.c:78-94 | returns exactly for a nonnull, aligned, in-range frame that is free already, and panics on every other, every frame in use included; the bitmap never changes |
| Pmm.TakenFrameCannotBeFreed | src/memory/pmm.c:64-94 | the frame an allocation hands out is one whose release returned before and panics afterwards |
| FrameRuns.Perform | src/memory/pmm.c:64-94 | an allocation or a release returns exactly when the step of the run completes, and has that step's effect |
| FrameRuns.FramesOnlyGoOut | src/memory/pmm.c:64-94 | over every run of calls that return, frames are handed out in ascending order, the free set loses the lowest frame with each allocation and nothing else, and no frame is gained |
| FrameRuns.HandedOutIsRefused | src/memory/pmm.c:78-94 | whatever happened since boot, the release of any frame handed out panics |
| Mmu.RecursiveWindow | src/memory/paging.c:18-19 | a directory that maps itself in its last slot shows each of its tables at one fixed page, and itself at the topmost |
| Paging.MapPage | src/memory/paging.c:15-40 | through the recursive window, becomes the specified map; panics exactly when a table is needed and no frame is free |
| Paging.UnmapPage | src/memory/paging.c:42-77 | through the recursive window, becomes the specified unmap; panics exactly when the page was the last of its table, with the entry and the directory slot cleared and the table's frame still in use |
| Paging.MapFrames | src/memory/paging.c:21-37 | one table entry, at most one directory entry and at most the lowest free frame change |
| Paging.MapChangesOnePage | src/memory/paging.c:15-40 | the entry of the named page becomes the new one, every other page keeps its own |
| Paging.EntryBits | src/memory/paging.c:21-37 | a table entry has the low twelve bits given and is present in any case; a directory entry is present and writable, and open to user mode exactly for user pages |
| Paging.MapRefines | src/memory/paging.c:15-40 | on the partial map a directory stands for, mapping is an update of one key, and costs the lowest free frame exactly when the slot had no table |
| Paging.MapKeepsDirectory | src/memory/paging.c:15-40 | tables stay distinct allocated frames, none is the directory, and no empty table appears |
| Paging.MapKeepsSlots | src/memory/paging.c:15-40 | the same while given slots share a table, as slots 0 and 768 do during boot: every other slot keeps a table of its own |
| Paging.UnmapFrames | src/memory/paging.c:42-77 | one entry is cleared, an emptied table leaves the directory, and no frame becomes free |
| Paging.UnmapKeepsDirectory | src/memory/paging.c:42-77 | also where it ends in a panic: tables stay distinct allocated frames and no empty table is left |
| Paging.UnmapChangesOnePage | src/memory/paging.c:42-77 | in memory, also where the call then panics, only the named page loses its translation |
| Paging.EmptiedIffLast | src/memory/paging.c:58-66 | the scan finds a table empty exactly when it served no other page |
| Paging.TableCannotBeFreed | src/memory/paging.c:69-75 | the frame of a table is in use, so its release panics |
| Paging.UnmapRefines | src/memory/paging.c:42-77 | on the partial map, unmapping removes one key, and the free frames are what they were |
| Paging.LastInTableAfterMap | src/memory/paging.c:15-77 | a fresh page is alone in its table exactly when mapping it made that table |
| Paging.MapThenUnmapRestoresIffTable | src/memory/paging.c:15-77 | mapping a fresh page and unmapping it returns with every translation and the free frames as before if and only if the page's slot had a table |
| Paging.FreshTableIsLost | src/memory/paging.c:15-77 | in a slot without a table, the unmap of the page just mapped panics; the translations are as before, the lowest free frame is gone |
| AddressSpace.ForeignTable | src/userspace/uprocess.c:47-70 | with the directory in its window, the slot gets the lowest free frame as a zeroed table if it has none |
| AddressSpace.ForeignEntry | src/userspace/uprocess.c:72-85 | the entry is stored through the table window and both windows are zero again |
| AddressSpace.ForeignMapPage | src/userspace/uprocess.c:42-86 | changes memory exactly as a map in that directory would, and nothing in the current one |
| AddressSpace.CopyToPhys | src/userspace/uprocess.c:14-26 | the frame has the bytes copied in at the offset, the window is zero again, nothing else changes |
| AddressSpace.ZeroPhys | src/userspace/uprocess.c:28-40 | the frame has zeros at the offset, the window is zero again, nothing else changes |
| AddressSpace.CreatePagedir | src/userspace/uprocess.c:115-137 | the lowest free frame becomes a directory with an empty user half, the creator's kernel entries and its own recursive slot |
| Isolation.MapMissesOthers | src/userspace/uprocess.c:42-86 | a user map in one directory writes neither another directory nor any of its tables |
| Isolation.MapLeavesOthersAlone | src/userspace/uprocess.c:42-86 | a user map in one directory changes no translation of another |
| Isolation.MapKeepsIsolation | src/userspace/uprocess.c:42-86 | user tables stay with one directory each; one directory gains one translation, all others keep theirs |
| Isolation.CreateMakesEmptySpace | src/userspace/uprocess.c:115-137 | a new directory maps no user page and translates kernel pages as its creator does |
| Isolation.CreateLeavesOthersAlone | src/userspace/uprocess.c:115-137 | making a directory changes no existing one |
| Isolation.CreateKeepsIsolation | src/userspace/uprocess.c:115-137 | the new directory joins the isolated ones |
| Isolation.EachSpaceSeesItsOwnEdits | src/userspace/uprocess.c:42-137 | over every run of user maps and new directories, each address space maps exactly what was mapped in it, in order |
| ArgStack.PushStrings | src/userspace/uprocess.c:215-223 | the strings with their NULs fill the top of the page, each at the recorded address; below them all is zero |
| ArgStack.PushPointers | src/userspace/uprocess.c:225-232 | the pointers in order and a final null stand below what was there, which is unchanged; below them all is zero |
| ArgStack.BuildStack | src/userspace/uprocess.c:208-242 | the whole page and the stack pointer, as a function of the arguments |
| ArgStack.BlockHoldsArgs | src/userspace/uprocess.c:208-242 | on that page argc, argv, each pointer, each string and the terminating null are found from the stack pointer |
| ArgStack.StoresBelowIffNotFits | src/userspace/uprocess.c:208-240 | some store of a string, pointer or count lands below the page buffer if and only if the arguments do not fit |
| ArgStack.LongestSpawnArgsDoNotFit | src/userspace/usyscall.c:163-198 | for the largest argument list that spawning accepts, the loader stores below its page buffer |
| Loader.SegmentPageIsCopy | src/userspace/uprocess.c:184-195 | the clamped copy of one page equals the byte-wise image of that page |
| Loader.MapTaken | src/userspace/uprocess.c:175-177 | mapping a taken frame puts it behind that user page alone and keeps every other page's view |
| Loader.FillPage | src/userspace/uprocess.c:179-196 | the mapped page shows the segment's bytes, cleared where the file has none; its rights and every other user page stay |
| Loader.LoadPage | src/userspace/uprocess.c:174-196 | the page shows the segment's bytes with its access bits, under a directory entry open to user mode; every other user page is unchanged |
| Loader.LoadSegment | src/userspace/uprocess.c:166-197 | the user half shows the image with the segment's pages replaced |
| Loader.LoadStack | src/userspace/uprocess.c:199-244 | the lower stack page is zero, the upper is the argument page, every other page is unchanged |
| Loader.Load | src/userspace/uprocess.c:139-250 | on success the user half is the image of all loadable segments, with the zero page and the argument page on top, on distinct frames that were free; it panics only for a bad header, a segment out of range, or no free frame |
| Loader.HighestIsMaximum | src/userspace/uprocess.c:156-159 | the highest end is at or above every segment's, and is one of them unless all are 0 |
| Loader.HeapStartIsLeast | src/userspace/uprocess.c:246 | rounded up, it is the least page boundary at or above them all |
| Program.ImageOfOwner | src/userspace/uprocess.c:149-197 | a page holds what the last segment covering it puts there |
| Program.ReadsWhatWasLast | src/userspace/uprocess.c:149-244 | a program reads, through its directory, the byte put last: the stack pages', or that of the page's last covering segment |
| Program.LoadedIffLastAgrees | src/userspace/uprocess.c:149-244 | every segment reads as p_filesz file bytes then zeros up to p_memsz if and only if what segments, file and arguments put last on each of its pages agrees with it |
| Program.DisjointSegmentsAreLoaded | src/userspace/uprocess.c:149-197 | segments that share no page with each other or the stack are loaded as the file describes them |
| Program.StackPageReplacesSegment | src/userspace/uprocess.c:149-244 | a segment on the upper stack page in which some byte differs from the argument page is not loaded as described |
| Program.WrappedSegmentIsSkipped | src/userspace/uprocess.c:155-174 | a size that wraps past 2^32 passes the range check, and at most the segment's first page is loaded |
| Program.PageRightsAreEffective | src/userspace/uprocess.c:47-70 | through both levels, a user page of a loaded program has exactly the rights of its own entry |
| Program.SegmentRights | src/userspace/uprocess.c:166-177 | a program may read its segments' pages, and write exactly those whose last segment is writable |
| Program.StackRights | src/userspace/uprocess.c:199-203 | a program may read and write its two stack pages |
| Program.ArgumentsArrive | initrd/libc/crt0.c:36-46 | the words and strings `_start` reads from the stack pointer are exactly the arguments given, with a null after the last |
| Program.LoadLeavesOthersAlone | src/userspace/uprocess.c:139-250 | loading changes no translation and no byte that another address space can see |
| Elf.ReadsBack | src/userspace/uprocess.c:139-197 | of a file written in the ELF format the loader reads the entry point and every program header, and takes the loadable ones as segments |
| Elf.StartIsAsWritten | src/userspace/uprocess.c:149-250 | the program's entry point is the one written, and its heap starts at the least page boundary at or above the memory end of every loadable segment |
| Elf.SharedPageLosesAByte | src/userspace/uprocess.c:174-177 | an accepted file of two segments on one page, of which the first loses its byte, whatever the arguments are |
| Elf.StackLosesAByte | src/userspace/uprocess.c:199-244 | an accepted file with one segment at the bottom of the upper stack page, whose byte is lost |
| Spaces.SpacesAreIsolated | src/userspace/uprocess.c:42-137 | address spaces that are well formed and apart are isolated: none has a user table of another |
| Spaces.KernelMapKeepsSpaces | src/memory/paging.c:15-40 | a kernel page mapped in any directory in use leaves all spaces well formed and apart and every user half as it was |
| Spaces.CreateKeepsSpaces | src/userspace/uprocess.c:115-137 | a new directory joins the others, apart from them, with no user page |
| Spaces.LoadKeepsSpaces | src/userspace/uprocess.c:139-250 | loading a program leaves all spaces apart, user pages on frames of their own, and every other user half as it was |
| Spaces.UserStoreKeepsViews | src/userspace/uprocess.c:42-86 | a store at a user address changes one byte of one page of one space, and no other user half |
| Spaces.UserWritesUserPages | src/userspace/uprocess.c:47-70 | a store that both levels allow in user mode goes to a user page: nothing in the kernel's quarter is open |
| Spawning.SpawnKeepsWorld | src/userspace/usyscall.c:241-242 | making a directory and loading a program into it keeps tables, user pages and the kernel's frames of all spaces pairwise apart and off the free list, and every program's view |
| Spawning.KernelPageKeepsWorld | src/memory/kheap.c:71-73 | so does a fresh frame mapped at a kernel page of any directory in use |
| Spawning.StoreKeepsWorld | src/userspace/uprocess.c:166-203 | so does a program's store, which changes its own view alone |
| Spawning.EachProgramSeesItself | src/userspace/usyscall.c:218-250 | over every run of spawns, kernel maps, kernel stores and user stores, all spaces stay apart and each program's user half is exactly its own image and arguments, changed by the stores at its own addresses in order and by nothing else |
| Spawning.ProgramStoreStaysInside | src/userspace/uprocess.c:47-70 | a store that a program's effective rights allow writes one frame, which is no table, no directory, not the kernel's and not free, and changes no other program's view |
| Spawning.FirstWorldIsOk | src/kernel.c:92-107 | the directory that start-up leaves, with no user page, is such a world before the first spawn |
| Spawning.SpawnSpace | src/userspace/usyscall.c:241-242 | creating a directory and loading a file into it is one step of such a run, with the entry point and heap start the file was written with; it panics only for a bad file or without a free frame |
| Spawning.CreateProcess | src/userspace/uprocess.c:252-297 | memory for process, thread and kernel stack and the frame on that stack are steps of such a run; restored from the stack pointer returned, the frame enters user mode at the entry point and stack given |
| KernelStack.PushFrame | src/userspace/uprocess.c:272-297 | the pushes leave exactly the frame on the page below the stack's top |
| KernelStack.FirstReturnEntersProgram | src/idt/isr_stubs.s:123-130 | the return from an interrupt on that stack loads user segments, cleared registers, the entry point, the user stack pointer and flags with interrupts on |
| Spawning.Spawn | src/userspace/usyscall.c:218-246 | buffer, address space, release of the buffer, process and kernel stack together are such a run, after which one program more sees itself; the child's first dispatch enters it at the entry point its file was written with, on its argument stack, and its heap starts behind its segments; it panics only for a bad file, without a free frame, or when the heap has reached the windows |
| Sharing.MapIsSeenIffShared | src/memory/paging.c:15-40 | a page mapped in one directory is seen in another if and only if both have the same table in its slot; otherwise the other keeps its entry |
| Sharing.NewSpaceShares | src/userspace/uprocess.c:115-137 | a new directory shares exactly the kernel tables that its creator has at that time |
| Sharing.RunIsSeenIffShared | src/memory/kheap.c:71-115 | over every run of kernel maps in one directory, another sees exactly the pages in slots whose table they shared before |
| Sharing.LaterPageIsSeenIffTable | src/userspace/uprocess.c:115-137 | a kernel page mapped after a directory was made is seen in it if and only if its creator then had a table for it |
| HeapSpec.TakeKeepsOk | src/memory/kheap.c:39-56 | taking a block, split or whole, keeps the list ordered, disjoint and coalesced |
| HeapSpec.GrowKeepsOk | src/memory/kheap.c:71-95 | growth keeps the list ordered and disjoint; free neighbours appear only at a growth boundary |
| HeapSpec.ReleaseKeepsOk | src/memory/kheap.c:126-148 | freeing with either or both merges keeps the list ordered, disjoint and coalesced |
| HeapSpec.LiveExtentsAreDisjoint | src/memory/kheap.c:35-152 | two live allocations never overlap, headers included, and lie inside the heap |
| HeapSpec.TakeAddsLive | src/memory/kheap.c:39-65 | an allocation adds exactly its own extent, at an address nobody held |
| HeapSpec.ReleaseRemovesLive | src/memory/kheap.c:117-152 | a free removes exactly the extent freed |
| HeapSpec.TakeSlack | src/memory/kheap.c:39-56 | an allocation loses no byte when it splits, and less than a header and a byte otherwise |
| HeapSpec.GrowSlack | src/memory/kheap.c:71-84 | growth loses no byte |
| HeapSpec.ReleaseSlack | src/memory/kheap.c:126-148 | a free, with whatever merges, neither loses nor recovers a byte |
| HeapSpec.FirstFitFromFirstFree | src/memory/kheap.c:36-69 | first fit from the first free block is first fit from the head |
| HeapSpec.FirstFreeAfterTake | src/memory/kheap.c:58-63 | where the first free block is after an allocation |
| HeapSpec.FirstFreeAfterRelease | src/memory/kheap.c:150-151 | where the first free block is after a free |
| HeapSpec.ReleaseUndoesTake | src/memory/kheap.c:35-152 | freeing at once what was allocated restores the list if and only if no free block precedes it and it was split, or taken whole without loss beside no free block |
| HeapSpec.GrowthServesNoLargeRequest | src/memory/kheap.c:71-97 | however often the heap grows, a request above a page's payload that found no block finds none |
| HeapSpec.RunsAreSafe | src/memory/kheap.c:35-152 | over every run the list is well formed, holds exactly what callers hold, and has lost at most a header's bytes for each allocation |
| KHeap.KernelHeap.TakeBlock | src/memory/kheap.c:40-56 | the header and link stores leave the doubly linked list of the specified blocks |
| KHeap.KernelHeap.AdvanceFreeHead | src/memory/kheap.c:58-63 | `free_head` moves on to the first free block, or null |
| KHeap.KernelHeap.Search | src/memory/kheap.c:36-69 | the walk from `free_head` finds the first fit of the whole list |
| KHeap.KernelHeap.Extend | src/memory/kheap.c:71-95 | the machine maps the lowest free frame at the heap's end and the list gains one page; fails only without frames |
| KHeap.KernelHeap.AppendPage | src/memory/kheap.c:75-95 | the new block is linked after the tail, and `free_head` points to it only if nothing was free |
| KHeap.KernelHeap.Kmalloc | src/memory/kheap.c:35-98 | the heap and address become those of the first-fit specification; machine unchanged when a block fits, and otherwise fresh frames mapped one by one from the old end to the new; only running out of frames stops a request that can be served |
| KHeap.MallocAfterGrow | src/memory/kheap.c:97 | after one growth the repeated request is the same request on the grown heap |
| KHeap.KernelHeap.JoinNeighbours | src/memory/kheap.c:128-148 | the merges of the two sides leave the doubly linked list of the specified blocks |
| KHeap.FreeHeadAfterRelease | src/memory/kheap.c:150-151 | comparing the joined block with `free_head` by address gives the first free block |
| KHeap.KernelHeap.Kfree | src/memory/kheap.c:117-152 | the heap becomes that of the specification; null and already free blocks change nothing |
| KHeap.WithPageMapsOnePage | src/memory/kheap.c:71-73 | growth maps one page and keeps every other translation |
| LargeAlloc.MapRun | src/memory/kheap.c:103-112 | also while slots 0 and 768 share a table: consecutive pages are mapped, each writable and on a fresh frame of its own; no other page changes |
| LargeAlloc.InitHeap | src/memory/kheap.c:11-33 | on the boot directory as on any later one, the 4 MiB of heap pages are mapped to fresh frames, and the heap is one free block |
| LargeAlloc.LargeArea.KallocPages | src/memory/kheap.c:100-115 | returns the end of the previous allocation; the pages after it are mapped one by one to fresh frames |
| Growth.PageStaysIffNotOvergrown | src/memory/kheap.c:71-115 | over every run of heap growth and page allocation, a mapped page keeps its entry if and only if neither has grown over it, and otherwise stands on a frame that was free |
| Growth.HandedOutStayIffHeapBelow | src/memory/kheap.c:71-115 | all pages handed out keep their frames if and only if the heap's end stays at or below the area's base |
| Growth.FirstGrowthPastBase | src/memory/kheap.c:71-73 | the first growth past the base replaces the frame of the first page handed out |
| Growth.CallIsGrowth | src/memory/kheap.c:71-115 | what a call of `kmalloc` or `kalloc_pages` maps is such a run |
| Boot.BootDirectorySharesOneTable | src/boot.s:74-77 | the boot directory has one table in slots 0 and 768 and no other shared table: what start-up needs, and less than an ordinary directory |
| Boot.WithoutIdentityIsOk | src/kernel.c:29-38 | clearing slot 0 makes every slot's table its own, unmaps the first 4 MiB and keeps every other translation |
| Boot.RemoveIdentityMap | src/kernel.c:29-38 | through the recursive window, slot 0 is cleared and the directory is an ordinary one |
| Boot.MapFramebuffer | src/framebuffer/framebuffer.c:24-39 | the framebuffer's pages show its physical range in order, uncached; no other page changes |
| Boot.RegionsOfTheKernel | src/framebuffer/framebuffer.c:24-39 | where framebuffer, heap and page area lie, and that the framebuffer meets neither of the others if and only if it has at most 242 MiB |
| Boot.EarlyPages | src/framebuffer/framebuffer.c:56 | the back buffer and the archive get consecutive pages from the area's base, each on a fresh frame of its own |
| Boot.StartMemory | src/kernel.c:92-107 | from the boot directory to an ordinary one with no user page: mapped at the end are exactly what was mapped above 4 MiB, the heap, the framebuffer's device pages, the back buffer and the archive, the fresh ones on distinct frames; the heap is one free block; it panics only without a free frame |
| KThread.SwitchKeepsOneRunning | src/thread/kthread.c:79-105 | no thread other than the current one is ever running |
| KThread.SwitchComesCloser | src/thread/kthread.c:62-105 | a switch lands on a ready thread or strictly between the current one and it |
| KThread.SwitchHandsOver | src/thread/kthread.c:79-90 | when the current thread changes, the one left is ready, the one entered running, and every other keeps its state; otherwise nothing changes |
| KThread.EveryThreadIsDispatched | src/thread/kthread.c:62-105 | over iterated switches, each working on what the last left, a thread that nobody blocks, the one just preempted included, is dispatched within its distance on the ring, whatever happens to the others in between |
| KThread.LeftThreadRunsAgain | src/thread/kthread.c:88 | a thread switched away from is made ready whatever its state was, and so dispatched again within the ring's length, an exited or blocked one too |
| KThread.NextIsNearest | src/thread/kthread.c:62-77 | the thread chosen is the nearest runnable one on the ring, the current one last, and the idle thread only when none can run |
| KThread.Scheduler.Add | src/thread/kthread.c:47-60 | the thread is appended to the circular list; all others keep their state |
| KThread.Scheduler.Next | src/thread/kthread.c:62-77 | terminates with the next runnable thread after the current one, or the idle thread |
| KThread.Scheduler.Switch | src/thread/kthread.c:79-105 | the whole ring's states become those of the specified switch; stack pointers are saved and restored; the machine stays in the current thread's address space and gets its kernel stack |
| Lifecycle.StepKeepsOk | src/userspace/usyscall.c:113-299 | every step, each load and store of a preempted removal included, keeps: a waiting process waits for a living child of its own, and the dead are gone |
| Lifecycle.RunKeepsOk | src/userspace/usyscall.c:113-299 | the invariant holds in every state of every interleaving |
| Lifecycle.ReachableIsOk | src/userspace/usyscall.c:113-299 | so it holds in every state reachable from the first process |
| Lifecycle.DeadStaysDead | src/userspace/usyscall.c:113-131 | death and the exit code are final in every run |
| Lifecycle.ExitWakesItsWaiter | src/userspace/usyscall.c:116-123 | the awaited child's exit wakes the parent, which then gets that code and sets out to remove that child |
| Lifecycle.FaithfulWaitLasts | src/userspace/usyscall.c:279-288 | while a process waits for its only living child, nothing wakes it before that child is dead |
| Lifecycle.EveryProcessCanExit | src/userspace/usyscall.c:113-299 | every living process can be brought to exit without disturbing processes outside its subtree |
| Lifecycle.WaitIsFaithfulIffOnlyLiveChild | src/userspace/usyscall.c:120-123 | a wait that blocks reaps a dead child in every interleaving if and only if that child was the parent's only living one |
| Lifecycle.SecondChildWakesTheParent | src/userspace/usyscall.c:113-299 | two spawns, a wait for the first child and the exit of the second: the parent reads a living child's exit code and sets out to remove it |
| Lifecycle.RemovalEnds | src/userspace/uprocess.c:101-113 | left to itself a removal ends, and changes no other process |
| Lifecycle.OnlyChildIsReapedDead | src/userspace/usyscall.c:279-298 | a parent that wakes from waiting for its only living child yields that child's exit code |
| History.WaitTellsHistory | src/userspace/usyscall.c:255-299 | in every state reached from the first process a wait errs exactly unless the caller has spawned that child and it is still listed, returns the code the child has exited with, or blocks; a wait that answers unlinks that child and no other |
| History.ResumeTellsHistory | src/userspace/usyscall.c:286-291 | a woken wait yields the code its child has exited with, or 0 if that child is still alive |
| History.SpawnMakesChild | src/userspace/uprocess.c:252-306 | a spawn adds one process, running and ready, at the head of the list, and changes no other |
| History.ExitLeaves | src/userspace/usyscall.c:113-123 | an exit leaves the process dead with its code and a dead thread, wakes its parent exactly if that is in `sys_wait`, and changes no other process and nothing of the list |
| ProcessList.ProcessTable.Find | src/userspace/uprocess.c:88-99 | finds a pid exactly when it is on the list |
| ProcessList.ProcessTable.Remove | src/userspace/uprocess.c:101-113 | with interrupts off, unlinks that pid and no other |
| ProcessList.ProcessTable.Spawn | src/userspace/uprocess.c:252-306 | the next pid, running and ready, at the head of the list |
| ProcessList.ProcessTable.Exit | src/userspace/usyscall.c:113-131 | becomes the specified exit step |
| ProcessList.ProcessTable.Wait | src/userspace/usyscall.c:255-299 | an error, a reaped exit code, or a blocked process, as specified |
| ProcessList.ProcessTable.Resume | src/userspace/usyscall.c:286-293 | once woken, the awaited child's exit code is read and the removal begins |
| ProcessList.ProcessTable.AdvanceRemoval | src/userspace/uprocess.c:101-113 | one load or store of the removal, as specified for interrupts on |
| ProcessList.UnlinksExactlyIffIntact | src/userspace/uprocess.c:101-113 | a store through a link takes a process off the list and no other if and only if the link is on the list, leads to that process, and the value stored is what follows it |
| ProcessList.StoreIsExactIffIntact | src/userspace/uprocess.c:105-106 | the store that ends a removal unlinks its child and no other if and only if nothing has changed the link since it was found |
| ProcessList.PreemptedStoreUnlinksAnother | src/userspace/usyscall.c:284-293 | a run from the first process in which a preempted removal unlinks a new child, for which its parent goes on waiting |
| ProcessList.RemoveUnlinks | src/userspace/uprocess.c:101-113 | in one piece, the removal takes exactly that process off the list |
| ProcessList.UndisturbedResumeReaps | src/userspace/usyscall.c:286-298 | a woken process that nothing disturbs unlinks exactly the child it waited for and is back in user code |
| ProcessList.RunKeepsAwaited | src/userspace/usyscall.c:255-299 | over every run without a store through a changed link, every process in `sys_wait` waits for a child on the list |
| ProcessList.ReachableAwaited | src/userspace/usyscall.c:255-299 | so it does in every state such a run reaches from the first process |
| Tty.PushKeepsOk | src/devices/tty/tty.c:7-41 | the line length stays the number of characters after the last newline |
| Tty.ReadTakesOneLine | src/devices/tty/tty.c:81-92 | a read returns a prefix of the first committed line, all of it if there is room |
| Tty.ReadKeepsOk | src/devices/tty/tty.c:81-92 | a read leaves the line length right although it does not touch it |
| Tty.PushIsEdit | src/devices/tty/tty.c:7-41 | an accepted key edits the text read so far together with the ring; a backspace never erases a committed character |
| Tty.OutputIsEditedInput | src/devices/tty/tty.c:7-95 | for every interleaving of keys and reads, bytes read followed by the ring equal the accepted keys edited line by line |
| Tty.HaltsAreEdits | src/devices/tty/tty.c:43-79 | after any halts of a read, the line it takes from is, behind what others have read meanwhile, the keys shown on the console edited line by line |
| Tty.FullLineIsStuck | src/devices/tty/tty.c:22-23 | a ring full of one unfinished line accepts no key but a backspace, the newline included |
| Tty.KeyIsLostIff | src/devices/tty/tty.c:7-31 | a key has no effect if and only if it is a backspace on an empty line or any other key on a ring of 256 characters |
| Tty.Terminal.InputPush | src/devices/tty/tty.c:7-41 | the ring becomes the specified line after the key; an accepted key is echoed and, unless a backspace, wakes the current thread if that is blocked |
| Tty.Terminal.HasNewline | src/devices/tty/tty.c:61-71 | the scan finds a newline exactly when a line is committed |
| Tty.Terminal.Drain | src/devices/tty/tty.c:83-92 | copies out exactly what the specification takes |
| Tty.Terminal.Read | src/devices/tty/tty.c:43-95 | halts exactly until a line is committed, whatever keys arrive and other readers take at each halt, then returns from that line; at each halt the reader is blocked and has asked for a switch; afterwards it is running again and the console shows every key accepted meanwhile |
| CStrings.Strnlen | src/misc/util.c:12-19 | the length of the text, at most the bound |
| CStrings.Strncmp | src/misc/util.c:52-62 | zero exactly when the first n characters of the texts agree |
| CStrings.Strcmp | src/misc/util.c:43-50 | zero exactly when the texts are equal |
| CStrings.Strncpy | src/misc/util.c:29-41 | the text, padded with NULs to exactly n characters; nothing beyond is written |
| Ustar.OctalRoundTrip | src/initrd/initrd.h:46-57 | decoding the octal digits of a number gives the number |
| Ustar.FieldRoundTrip | src/initrd/initrd.h:46-57 | a terminated octal field decodes to the number modulo 2^32, hence to the number if and only if it is below 2^32 |
| Ustar.Oct2Int | src/initrd/initrd.h:46-57 | the value of the leading octal digits modulo 2^32, bits shifted out being lost |
| Ustar.StepAdvancesIffNoWrap | src/initrd/initrd.c:89 | the walk's pointer moves forward if and only if the step does not wrap |
| Ustar.RoundUpIsNextMultiple | src/initrd/initrd.c:89 | a size is rounded up to the next multiple of 512, and to 0 in the last block below 2^32 |
| Ustar.WalkStaysAtHeader | src/initrd/initrd.c:89 | a header whose size field says 2^32 - 512 sends the walk back to itself |
| Ustar.PathIsPrefixAndName | src/initrd/initrd.c:46-66 | the path is the format's prefix and name if and only if there is a prefix or the name ends before or at the next field |
| Ustar.FullNameRunsOn | src/initrd/initrd.c:46-66 | a name that fills its field, without a prefix and before a nonempty mode, gives another path than its name |
| Ustar.BuildPath | src/initrd/initrd.c:44-71 | the buffer holds the joined path without one trailing slash, terminated within its 256 characters |
| Ustar.Lookup | src/initrd/initrd.c:34-93 | the first entry of the walk whose path equals the one asked for |
| Archive.HeaderDecodes | src/initrd/initrd.h:11-29 | a header written in the ustar format is read back: path, size, type and the next header's place |
| Archive.ArchiveReadsBack | src/initrd/initrd.c:35-86 | the walk over a written archive lists exactly its members, in order |
| Archive.DataReadsBack | src/initrd/initrd.c:73-80 | each listed entry is followed by its member's data |
| InitrdFs.ListedIffFound | src/initrd/initrdfs.c:47-178 | a name is listed in a directory if and only if it is found in it, and what is found is the joined path |
| InitrdFs.EveryListedNameIsFound | src/initrd/initrdfs.c:47-178 | each listed name is a single nonempty component and is found |
| InitrdFs.ListedOnce | src/initrd/initrdfs.c:109-178 | with distinct paths no name is listed twice |
| InitrdFs.FormatChildPath | src/initrd/initrdfs.c:48-55 | the formatted child path, cut to the buffer; the formatter fails to return exactly for a directory path of 255 characters |
| InitrdFs.CreateVnode | src/initrd/initrdfs.c:185-218 | a directory, or a file with the size that lookup finds |
| InitrdFs.FindDir | src/initrd/initrdfs.c:47-107 | the vnode of the first entry with the child path |
| InitrdFs.ReadDir | src/initrd/initrdfs.c:109-178 | the index-th child in archive order, truncated and padded to the caller's buffer; -1 and nothing written past the last |
| InitrdFs.FileRead | src/initrd/initrdfs.c:9-25 | the chunk of the file at the offset, -1 for a missing file, nothing else written |
| InitrdFs.FileStat | src/initrd/initrdfs.c:27-40 | the size lookup finds, and the mode 0x4000 of a directory or 0x8000 of a file |
| ArchiveTree.ResolvesIffPresent | src/vfs/vfs.c:255-287 | resolution over the archive finds a node if and only if the archive has the path and a directory entry for each proper prefix; it is that entry's node |
| ArchiveTree.WrittenFileIsFound | src/initrd/initrd.c:34-93 | a file written into an archive is what lookup finds under its path, with its data, if and only if no earlier member has the same path |
| ArchiveTree.WrittenFileResolves | src/vfs/vfs.c:255-287 | a file written into an archive that has a directory member for each proper prefix of its path, and no earlier member of the same path, is what path resolution finds, with its size |
| Vfs.ComponentsSplit | src/vfs/vfs.c:255-267 | the components of two parts joined by a slash are those of each |
| Vfs.ComponentsOfJoined | src/vfs/vfs.c:255-267 | splitting joined names gives the names |
| Vfs.ExtraSlashes | src/vfs/vfs.c:256-260 | repeated, leading and trailing slashes change nothing |
| Vfs.CutKeepsComponents | src/vfs/vfs.c:41-48 | cutting a path after a string prefix keeps its components if and only if the cut is not inside a name |
| Vfs.DevicesIsCut | src/vfs/vfs.c:36-52 | with mounts at `/` and `/dev`, the path `/devices` is looked up as `ices` below the second |
| Vfs.WalkSplits | src/vfs/vfs.c:255-282 | walking a concatenation is walking its parts in turn, failing at the first failure |
| Vfs.WalkIffChain | src/vfs/vfs.c:255-282 | a walk ends at a node if and only if lookups lead there, each node answering the next name with the next node |
| Vfs.BelowMount | src/vfs/vfs.c:245-288 | below any mount a path resolves exactly to what the mounted driver's lookups lead to, name by name from the mount's root |
| Vfs.DevIsLongest | src/vfs/vfs.c:36-52 | with mounts at `/` and `/dev`, every path that begins with `/dev` is looked up below the second |
| Vfs.MountTable.FindMount | src/vfs/vfs.c:36-52 | the longest nonempty mount path that is a prefix, the first of equals; none exactly when none is a prefix |
| Vfs.MountTable.Attach | src/vfs/vfs.c:54-75 | appends the mount, or fails and changes no mount |
| Vfs.MountTable.Detach | src/vfs/vfs.c:77-118 | removes exactly the first mount at that path and keeps the order, or changes nothing |
| Vfs.UnmountFindsTheNewMount | src/vfs/vfs.c:54-118 | unmounting after mounting removes the new mount if and only if the path had none before |
| Vfs.MountTable.Resolve | src/vfs/vfs.c:245-288 | the fold of lookups over the components that follow the longest mount's path |
| Vfs.LongestStaysIffBehind | src/vfs/vfs.c:36-52 | with normal mount paths, the longest mount of a path stays the longest when a slash is doubled if and only if that slash is behind the mount's path; a slash at the end never matters |
| Vfs.ExtraSlashesKeepNode | src/vfs/vfs.c:245-288 | with normal mount paths, doubling a slash behind the mount's path, or adding one at the end, keeps the result |
| Vfs.DoubledInsideMountIsMissed | src/vfs/vfs.c:36-52 | with mounts at `/` and `/dev`, the path `//dev` is looked up below the first |
| Vfs.NextComponent | src/vfs/vfs.c:262-267 | the component buffer holds the first component of the rest, terminated within its bounds |
| Descriptors.ChunksRebuildFile | src/vfs/vfs.c:184-199 | chunks read with any lengths, put together, are the file from the offset on, as far as it goes |
| Descriptors.ReadUntilEmptyIsWholeFile | src/vfs/vfs.c:184-199 | with positive lengths, a read returns nothing if and only if the reads before it gave the whole rest of the file |
| Descriptors.FdTable.Alloc | src/vfs/vfs.c:15-27 | the lowest free descriptor; -1 exactly when none is free |
| Descriptors.FdTable.Open | src/vfs/vfs.c:131-149 | a new file at offset 0 in the lowest free descriptor |
| Descriptors.FdTable.Close | src/vfs/vfs.c:152-170 | the descriptor is free again and the count drops; fails exactly for a bad or free one |
| Descriptors.FdTable.Read | src/vfs/vfs.c:184-199 | returns the chunk at the descriptor's offset, which advances by its length |
| ArchiveFiles.PathLeadsToMember | src/vfs/vfs.c:245-288 | with the archive mounted at `/`, every path that no other mount covers resolves to what the archive's members say: the first member with the path if each directory on the way is a member, otherwise nothing |
| ArchiveFiles.ReadsMember | src/vfs/vfs.c:184-199 | reading what such a path leads to, in chunks of any lengths, gives that member's data |
| ArchiveFiles.CleanIsPathTo | src/vfs/vfs.c:255-267 | a path without leading, trailing or doubled slashes is the archive path of its own components |
| ArchiveFiles.WrittenFileIsRead | src/kernel.c:150-161 | a file written into the archive is reached by its path below `/` and read back, if its directories are members and no earlier member has its path |
| ArchiveFiles.ReadFile | src/kernel.c:150-161 | open, stat, read and close give the whole data of the member the path leads to, and leave the descriptors as they were |
| Printf.Utoa | src/misc/util.c:127-150 | the digits of the number in the base, terminated |
| Printf.DigitsParseBack | src/misc/util.c:127-150 | the digits parse back to the number |
| Printf.WordDigits | src/misc/util.c:127-150 | at most ten digits in base 10 or 16, so the scratch buffer holds them |
| Printf.NumberParsesBack | src/misc/printf.c:94-178 | the text of %d, %u and %x, whatever the precision, is its sign followed by digits that parse back |
| Printf.ZeroExtend | src/misc/printf.c:112-122 | the in-place shift and fill insert the zeros behind the sign and keep the digits |
| Printf.FormatSigned | src/misc/printf.c:94-122 | sign, zeros and digits of a 32-bit signed number, the smallest one included |
| Printf.FormatUnsigned | src/misc/printf.c:129-173 | zeros and digits of an unsigned number in base 10 or 16 |
| Printf.PadAndPut | src/misc/printf.c:57-64 | the text aligned to the width, as far as it fits |
| Printf.ParseUpToConversion | src/misc/printf.c:14-55 | flags, width and precision as the pure parser reads them, arguments consumed alike |
| Printf.PutConversion | src/misc/printf.c:66-212 | each conversion puts out what the renderer says |
| Printf.Vsnprintf | src/misc/printf.c:3-220 | the buffer holds the rendering cut to its size, with a NUL; the call fails to return if and only if a literal character meets a full buffer; nothing past the size is written |
| Formats.HeadIsRead | src/misc/printf.c:14-55 | flags, width and precision, each given in digits or taken from the arguments, are read as written |
| Formats.NumberIsPrinted | src/misc/printf.c:94-178 | %u and %x put out the argument in base 10 and 16, %d in base 10 behind a minus sign exactly for a negative one, with at least the precision's digits and no further zero, in a field of the width filled on the side and with the character that the flags ask for |
| Formats.WordIsPrinted | src/misc/printf.c:67-193 | %c puts out the low byte, %p `0x` and the word in base 16, in such a field |
| Formats.TextIsPrinted | src/misc/printf.c:75-92 | %s puts out the text, cut to the precision if there is one, in such a field |
| Formats.CharacterIsPrinted | src/misc/printf.c:8-12 | a character outside a specification, and %%, put out themselves |
| Formats.SignComesFirstIff | src/misc/printf.c:57-64 | a negative number's sign comes first in its field if and only if nothing fills the field on the left |
| Printf.LiteralIsStuckIffTooLong | src/misc/printf.c:3-13 | a format without conversions keeps the call from returning if and only if it does not fit the buffer with its terminator |
| Clock.YearLength | src/devices/pit/pit.c:21-23 | the closed-form day count grows by 365 or, exactly in leap years, 366 |
| Clock.SecondsDetermineTime | src/devices/pit/pit.c:21-30 | two valid times with the same linear second count are equal |
| Clock.CarryCounts | src/devices/pit/pit.c:45-71 | the carries keep the date valid and count the second that is due, over months, leap years and centuries, unless the year runs out |
| Clock.TickCounts | src/devices/pit/pit.c:42-71 | a tick adds its second, if one is due, if and only if the year does not run out |
| Clock.ClockCountsTicks | src/devices/pit/pit.c:42-71 | over any number of ticks the clock advances by the multiples of 1000 the counter shows, wraps included, if and only if the result has a 16-bit year |
| Clock.YearRunsOut | src/devices/pit/pit.c:42-71 | the second after the last one of year 65535 is the first of year 0 |
| Clock.ClockCountsSeconds | src/devices/pit/pit.c:42-71 | as long as the counter does not wrap, the clock advances by the whole seconds that pass, if and only if the result has a 16-bit year |
| Clock.Timer.Callback | src/devices/pit/pit.c:42-81 | becomes the specified tick, the date stays valid, and the cursor, the screen copy and the switch request come every 500, 16 and 10 ticks |

## Left out

- Hardware effects: `invlpg`, writes to cr3, port I/O, interrupt set-up, the idle loop, the TLB. Translation always uses the tables in memory.
- Page faults: `Mmu` translates by present bits; access rights are computed through both levels but no access is refused for them.
- `memcpy`, `memset` and `memcmp` are single stores, slices or comparisons, not loops.
- The pushes on a new kernel stack are one loop over the words of the frame.
- Loops and branches that the source writes inline or copies by hand (the body of `kmalloc`, the cases of `vsnprintf`, the path building of the three walkers, the parts of the tick) are helper methods here.
- Heap headers are a map from addresses to headers; their bytes are not stored in machine pages, and `kmalloc`ed objects are not tied to heap addresses.
- KHeap.KernelHeap.Kmalloc: stops with `ReachesWindows` where growth would reach the temporary windows; the code would map over them.
- LargeAlloc.LargeArea.KallocPages: requires the pages to end below the temporary windows, which the code does not check.
- Pmm.FrameAllocator.MarkUsed: requires the range to lie inside the bitmap; the code writes past it otherwise.
- Pmm.FrameAllocator.MarkFree: requires the range to lie inside the bitmap, likewise.
- Pmm.FrameAllocator.constructor: requires all ranges to lie inside the bitmap, which the code does not check; reading the firmware's memory map is not modelled.
- Paging.MapPage: for pages of slots 0 to 1019; slots 1020 to 1022 are the temporary windows and 1023 is the directory itself.
- Paging.UnmapPage: likewise.
- AddressSpace.ForeignMapPage: requires that the directory edited is not the current one, as in every call the kernel makes.
- ArgStack.PushStrings: requires the strings to fit the page; `ArgStack.StoresBelowIffNotFits` says when the code goes past it, not what it overwrites.
- ArgStack.PushPointers: requires the pointers to fit below the strings, likewise.
- ArgStack.BuildStack: requires the arguments to fit the page, likewise.
- Loader.FillPage: requires the segment's contents to lie inside the file, which the code does not check.
- Loader.LoadPage: likewise.
- Loader.LoadSegment: likewise.
- Loader.LoadStack: requires the arguments to fit the stack page, likewise.
- Program.LoadedIffLastAgrees: for segments whose memory range does not wrap past 2^32; `Program.WrappedSegmentIsSkipped` is what happens to the others.
- Loader.Load: requires program headers and segment contents to lie inside the file and the arguments to fit the stack page, which the code does not check; file bytes are read where those requirements hold.
- Spawning.Spawn: the sizes of process and thread structures are parameters, and the fields stored in them are the values returned; the kernel stack's frame is read through the creator's directory, and `Sharing.LaterPageIsSeenIffTable` says when the child's own shows it. Opening and reading the file is `ArchiveFiles.ReadFile`.
- ArchiveFiles.ReadFile: in kernel context, for a path that leads to a file of less than 2 GiB, as start-up uses it; the code there checks no result.
- The memory of reaped processes: `sys_wait` frees a thread that is still on the run list and a stack that did not come from the heap; a reaped process is only unlinked here.
- `sys_wait` and the other system calls check user pointers; those checks, and the store of the exit code through the user's pointer, are not modelled.
- ProcessList.ProcessTable.Spawn: pids do not wrap at 2^32; the child's memory, descriptors and kernel stack are in other parts of the model or left out.
- ProcessList.ProcessTable.Wait: the pointer check, the store of the exit code and the release of the child's memory are left out.
- ProcessList.ProcessTable.Resume: likewise. The frees that follow the removal are left out too; they run with interrupts on as the removal does.
- A removal that loads through a link whose target has become null would fault; that step is not taken here. A reaped process keeps its `next`.
- The order in which the scheduler runs processes between lifecycle steps: any thread state may change at a `Reschedule` step.
- Tty.Terminal.Read: the keys and other readers' reads during each halt are a parameter; a key wakes whichever thread is current, so the thread states of the other readers are not modelled.
- Mounting one node on another: nothing in the repository sets `mounted_here`, so unmounting does not reset it here, and it is a parameter of resolution.
- Vfs.MountTable.Detach: whether an open descriptor uses the mount is a parameter.
- Vfs.MountTable.Resolve: requires every name in the path to be shorter than the component buffer, which the code does not check.
- Descriptors.FdTable.Close: kernel context only; for a process the code clears the kernel's table instead. The driver's `open` and `close` and the descriptor's flags are not modelled.
- Descriptors.FdTable.Read: files below 2 GiB that lie inside the archive; drivers other than the archive's, and writes, are not modelled.
- Vfs.NextComponent: requires the name to be shorter than the component buffer, likewise.
- Descriptors.FdTable.Open: the driver's `open`, the flags and the path's resolution are left out.
- Ustar.Lookup: requires a walk that does not wrap and paths that fit their buffer; `Ustar.StepAdvancesIffNoWrap` says when a step wraps.
- InitrdFs.CreateVnode: allocation of the vnode never fails here.
- InitrdFs.ReadDir: requires a walkable archive and an output buffer of at least one character.
- InitrdFs.FileRead: requires the entry's data to lie inside the archive.
- InitrdFs.FileStat: requires a walkable archive.
- InitrdFs.FindDir: requires a walkable archive; allocation of the vnode never fails here, and vnodes are values.
- Ustar.BuildPath: requires prefix, slash and name to fit the 256-character buffer with their terminator, which the code does not check.
- Printf.Vsnprintf: no `%f`; formats that read a missing or mistyped argument, end inside a specification, or need more scratch space than there is have no rendering.
- `itoa`, `strchr`'s returned pointer, the framebuffer, the keyboard and mouse drivers, devfs, the null and zero devices and symbol lookup: they would only add easy members.
- Finding the archive among the boot modules and copying it (`initrd_init`, `initrd_remap`).
- What the tick's cursor toggle and screen copy draw; the ticks at which they happen are counted.
