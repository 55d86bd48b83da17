# Verified model of the ark kernel

The kernel is a small Unix-like system for RISC-V written in Rust. This project models its core and proves what that core
promises: Sv39 page tables, the address space of a process, loading a program and building its first stack, the life cycle
and scheduling of processes, file descriptors and pipes, path resolution, and reading directories.

Code that updates state in place is modelled by classes and loops, each proved against a specification on values; the
results about whole runs are lemmas and methods over those specifications. A panic is an outcome (`Outcome`), not a
precondition. The frame allocator hands out any free frame, and for a kernel stack any free aligned block.

| file | what it holds |
|---|---|
| `Basics`, `Words`, `Physical` | results, little-endian words, physical memory and frames |
| `Sv39`, `PageTrees`, `PageTables` | entries, the three-level tree over abstract cells, the table as a class refining a page map |
| `HardwareWalk` | the translation algorithm of section 4.3.2 of the RISC-V Privileged Architecture v1.12, and its agreement with the software walk |
| `Trampoline` | access_continuously |
| `AddressSpaces`, `FreeRuns`, `ProcessMemories` | the two views of an address space, the mmap search, and all operations on a space |
| `UserAccess`, `UserStores`, `Isolation`, `Kernels` | what a program can do at its addresses and what its stores can reach, all spaces and kernel stacks together, and the processes' memory over every run |
| `InitialStack`, `ElfLoader` | the stack execve builds in physical memory, load_elf, and execve as a whole |
| `Scheduler`, `Processes`, `ProcessExits`, `ProcessRuns`, `StepEffects`, `Fairness`, `LostWakeup`, `ProcessManagers` | the scheduler and the life cycle of processes as a transition system, its invariants over every run, and the manager that takes its steps |
| `Pipes`, `Descriptors`, `PipeFiles`, `Duplicates` | the pipe ring, descriptors with reference counts across processes, the two together, and dup3 |
| `Paths`, `Dentries`, `Resolution`, `Vfs` | path strings, the tree of directory entries as a cache, and resolution |
| `DirEntries`, `Getdents` | directory records and getdents64 |
| `Failures` | an input for each shortfall listed below |

Where the code does not do what one would expect, the model follows the code; a lemma gives the exact condition and
another one an input:

- The break cannot grow when it is one byte into a page, because the loop then starts at a page that is mapped
  (`BrkCanGrowIff`, `GrowTwice`).
- Growing the break does not map the page the old break is in, even if it was unmapped (`HeapUsableIff`, `GrowOverHole`).
- A failed fixed mmap with a bad descriptor does not restore the pages that were in its way (`MmapCall`,
  `RollbackIsCompleteIff`, `FixedOverMapped`).
- The mmap search underflows on requests longer than the space below the page it looks at (`RunTooLong` in the contract of
  `FindRun`, `WholeSpaceIsTooLong`).
- munmap rounds its length down, so a range that does not end at a page boundary keeps its last page (`MunmapCoversIff`,
  `MunmapOneByte`).
- A load segment without file bytes gets every page from page one on (`SegmentPagesIff`, `BssFromPageOne`).
- The stack pointer a program starts with is aligned only if argc plus the number of environment strings is odd
  (`StartsAlignedIff`, `MisalignedStart`).
- access_continuously also visits the page of va + size, so a range that ends at a page boundary needs one page more than
  it covers (`AccessSucceedsIff`, `PageAtATimeFails`).
- Hardware refuses pages that are writable but not readable, which the software walk translates (`LoadAgreesIffReadable`,
  `WriteOnlyPage`).
- The stack execve builds has no bound: with more than a page of arguments it changes the frame below, whoever owns it
  (`BuildStack`, `LeavesFrame`, `LongArgument`). Isolation over runs therefore assumes arguments of at most a page.
- A process that waits for the pid of a zombie that is not its child sleeps for ever, even if the zombie becomes its child
  (`WakeupIsLost`, `NeverMissedIff`, `ZombieSleepersNeverWake`); waiting for one's own child is safe (`OwnChildIsNeverMissed`).
- The kernel stack pointer of a process starts 511 pages above the end of its stack, so the kernel pushes into frames the
  process does not own (`KernelStackPointer`, `PushesIntoNeighbour`). Runs are those of the operations; what the kernel
  itself pushes is not part of them.
- A mapping in the kernel's gigabyte makes the walk use kernel memory as tables (`KernelFrameAsTable`); `Map` and the
  operations above it exclude those pages.
- The pipe's test for a full ring never holds, so more than 512 unread bytes overwrite each other (`InOrderIffWithin`).
- A read of zero bytes from a pipe waits while the writing end is open, even if bytes are unread (`ReadAnswer`).
- dup3 closes the file of its target although other descriptors name it (`Dup3KeepsIff`, `OntoItself`).
- Printed paths resolve only if no name on the way is empty, a dot, two dots or contains a slash; mkdir accepts the empty
  name and link accepts all of them (`FullPathResolvesIff`, `EmptyName`).
- A directory record longer than 65535 bytes, or of a name with a NUL, does not read back (`RecordReadsBackIff`, `LongRecord`).

## Model

| member | source | states |
|---|---|---|
| `Words.LoadAfterStore` | src/memory/address.rs:220-235 | a little-endian load of n bytes returns what was stored, for every value that fits |
| `Words.StoreAfterLoad` | src/memory/address.rs:220-235 | storing back what was loaded leaves the bytes as they were |
| `Words.LeastFirst` | src/memory/address.rs:220-235 | byte i of a stored integer is its i-th least significant byte |
| `Physical.WordAfterStore` | src/memory/address.rs:233-235 | a 64-bit store to one entry of a frame changes that entry and no other word of memory |
| `Physical.Machine.Alloc` | src/memory/page_allocator.rs:102-111 | any free frame is taken, cleared, and leaves the free set; it panics exactly when nothing is free |
| `Sv39.LeafEntryDecodes` | src/memory/paging.rs:136-158 | the entry set_pte writes, with or without the T-Head attribute bits, decodes to the page and the prepared flags; bits 61 to 63 are clear except on a T-Head core, where addresses from 0xD0000000 on have bit 63 and the others bits 61 and 62 |
| `Sv39.EntryDecodes` | src/memory/paging.rs:36-51 | page number and flags of a new entry read back unchanged |
| `Sv39.FlagBitsAre` | src/memory/paging.rs:20-34 | bits 0 to 7 of an entry are V, R, W, X, U, G, A and D |
| `Sv39.IndexesIdentifyPage` | src/memory/address.rs:323-331 | distinct 27-bit page numbers have distinct triples of table indexes |
| `Sv39.GetPteIndexes` | src/memory/address.rs:323-331 | the loop yields the root, middle and last index of the page number |
| `PageTables.PageTable.FindPte` | src/memory/paging.rs:84-102 | the walk returns the slot of the page's entry in the page map, and None exactly when a table on the way is missing |
| `PageTables.PageTable.AddTable` | src/memory/paging.rs:114-118 | hanging a cleared frame at an empty entry maps and unmaps nothing and keeps the tree well formed |
| `PageTables.PageTable.FindPteCreate` | src/memory/paging.rs:104-122 | adds exactly the missing tables, maps nothing, and panics only when frames run out |
| `PageTables.PageTable.SetPte` | src/memory/paging.rs:136-158 | fills the slot of one page; panics exactly when it is valid already |
| `PageTables.PageTable.Map` | src/memory/paging.rs:160-163 | refines insertion into the abstract page map at the 27-bit page number the walk looks up; panics exactly when that page is mapped or the missing tables exceed the free frames, and takes exactly that many; all other pages, tables and frames stay; the attribute bits of the new entry are those of its address |
| `PageTables.PageTable.Unmap` | src/memory/paging.rs:165-169 | refines removal from the page map at any address; panics exactly when the page is not mapped; no table node is given back |
| `PageTables.PageTable.Translate` | src/memory/paging.rs:198-209 | equals the page map's translation of the low 39 bits of the address, offset included |
| `PageTables.PageTable.MapBig` | src/memory/paging.rs:171-175 | adds one 1 GiB leaf and maps no 4 KiB page |
| `PageTables.PageTable.UnmapMany` | src/memory/paging.rs:187-192 | removes exactly the run of pages; panics exactly when one of them is not mapped |
| `PageTables.PageTable.New` | src/memory/paging.rs:76-82 | a table whose page map is empty, made of one frame |
| `PageTables.PageTable.Run` | src/memory/paging.rs:160-169 | every sequence of maps and unmaps does to the tree what the same sequence does to a plain map and panics where that one does; two free frames for each operation rule out running out of frames |
| `PageTables.KeyIndexes` | src/memory/address.rs:323-331 | page numbers that agree in 27 bits have the same indexes, so a walk never sees the rest |
| `PageTables.MissingFramed` | src/memory/paging.rs:104-122 | how many tables a page still needs depends on the table's own frames only |
| `PageTables.AbstractRunFails` | src/memory/paging.rs:160-169 | an operation that fails on the page map makes the whole run fail |
| `PageTables.LeafStore` | src/memory/paging.rs:144-168 | storing a last-level entry changes the page map at that page alone |
| `PageTables.GrowExtends` | src/memory/paging.rs:114-118 | a new node extends the set of owned frames by one and changes no translation |
| `PageTables.OtherTableKept` | src/memory/paging.rs:84-175 | a step of one table leaves every table with other frames, and both its views, unchanged |
| `PageTables.TableFramed` | src/memory/paging.rs:84-102 | a table and its page map depend on the bytes of its own frames only |
| `PageTrees.WalkIsNode` | src/memory/paging.rs:84-102 | outside 1 GiB slots the walk ends in a last-level node reached by pointers only |
| `PageTrees.LeafStoreChangesOnePage` | src/memory/paging.rs:144-168 | a last-level store changes the lookup of one page alone |
| `PageTrees.GrowAddsNode` | src/memory/paging.rs:114-118 | hanging a cleared frame at an empty entry adds exactly that node to the tree |
| `PageTrees.GrowKeepsLookups` | src/memory/paging.rs:114-118 | growing the tree maps nothing |
| `PageTrees.BigStoreView` | src/memory/paging.rs:171-175 | a 1 GiB leaf appears in its root slot and no 4 KiB mapping changes |
| `HardwareWalk.WalkAgrees` | src/memory/paging.rs:84-122 | a hart walking the kernel's tables by section 4.3.2 of the RISC-V Privileged Architecture v1.12 reaches exactly the entry in the page map |
| `HardwareWalk.FieldsAreIndexes` | src/memory/address.rs:323-331 | bits 30 to 38, 21 to 29 and 12 to 20 of an address are the indexes the kernel computes from its page number |
| `HardwareWalk.LeafEntryResult` | src/memory/paging.rs:124-158 | the hart accepts what set_pte wrote, T-Head bits included, exactly for the accesses the flags promise, whichever choice it makes about clear accessed and dirty bits |
| `HardwareWalk.HardwareAgrees` | src/memory/paging.rs:84-209 | at every canonical address of both halves, software and hardware translation give the same physical address on every permitted access and the hardware faults on all others; loads and stores that succeed find the accessed and dirty bits set; non-canonical addresses fault |
| `HardwareWalk.LoadAgreesIffReadable` | src/memory/paging.rs:198-209 | for loads the two translations agree if and only if the page is unmapped, or readable in that mode at a canonical address |
| `Failures.WriteOnlyPage` | src/memory/paging.rs:124-158 | a page mapped for writing only: the kernel translates it and no access of a hart reaches it |
| `HardwareWalk.KernelIdentity` | src/process/process_memory.rs:49-66 | the kernel leaf maps every address of [0x80000000, 0xC0000000) to itself for the supervisor and is closed to user mode |
| `Trampoline.WindowIsContiguous` | src/memory/address.rs:286-307 | byte k of the window translates to the same physical byte as va + k in the user table |
| `Trampoline.PokeReadsBack` | src/memory/address.rs:286-307 | bytes stored through a page map read back, and every other byte is as before |
| `Trampoline.MapWindow` | src/memory/address.rs:286-307 | ends exactly as WindowFault says, the first missing user page or taken window page, unless fewer than two frames a page are free; without fault the window pages map the user's frames in order and nothing else changed |
| `Trampoline.CopyThrough` | src/memory/address.rs:286-307 | a byte-by-byte store through the kernel table changes exactly the bytes its page map gives |
| `Trampoline.AccessContinuously` | src/memory/address.rs:286-307 | success or the exact reason of a panic, decided by the pages from va to va + size inclusive; on success the user's range holds the data, the later byte where two addresses share one, every other byte and both page maps are as before, and the window was contiguous meanwhile; a hart in supervisor mode finds the user's bytes at 0xC0000000 and after while the accessor runs |
| `Trampoline.HartSeesWindow` | src/memory/address.rs:286-307 | with the window in place the hardware walk from the kernel's table reaches the user's bytes one after another, for loads, stores and fetches |
| `Trampoline.NoFault` | src/memory/address.rs:290-297 | no turn of the window loop fails if and only if all user pages are mapped and the window is free |
| `Trampoline.AccessSucceedsIff` | src/memory/address.rs:290-297 | with a free window a translated range is accessed without panic if and only if it ends inside a page or the page after it is mapped too |
| `Failures.PageAtATimeFails` | src/memory/address.rs:290-297 | one whole mapped page with nothing after it cannot be accessed |
| `AddressSpaces.TableReadsMaps` | src/process/process_memory.rs:76-90 | reading through the page table and through the map of owned pages sees the same byte at every user address |
| `AddressSpaces.MapSpace` | src/process/process_memory.rs:76-81 | mapping an unowned frame keeps table and map in agreement, frames distinct, and every other page's contents |
| `AddressSpaces.UnmapSpace` | src/process/process_memory.rs:83-90 | unmapping frees exactly that frame and keeps the agreement and all other pages |
| `AddressSpaces.OtherSpaceKept` | src/process/process_memory.rs:76-90 | whatever one space does, every other space keeps its table, its pages and its bytes |
| `AddressSpaces.GrewOne` | src/process/process_memory.rs:76-81 | a filled frame just taken from the free set grows the space by exactly that page |
| `ProcessMemories.ProcessMemory.Map` | src/process/process_memory.rs:76-81 | both views gain the page; it panics exactly when the page is taken or a table cannot be added |
| `ProcessMemories.ProcessMemory.AddPage` | src/process/process_memory.rs:96-128 | how every growing operation adds one page: success and each panic exactly as Adding says, with the data in a cleared frame that was free |
| `ProcessMemories.ProcessMemory.Unmap` | src/process/process_memory.rs:83-90 | both views lose the page and its frame is free again; false exactly when it was not mapped, and then nothing changed |
| `ProcessMemories.ProcessMemory.SetBrk` | src/process/process_memory.rs:96-121 | growing adds exactly the cleared pages up to the new break, shrinking panics, a break below the minimum changes nothing; three free frames a page rule out running out of frames; breaks beyond the stack are covered while a page below them is mapped; on every new page the program can read and write, not execute, and finds zeros |
| `ProcessMemories.HeapGrows` | src/process/process_memory.rs:96-121 | between the old break and the new one a hart lets the program load and store, and not fetch, on every new page, which reads zero; other pages there hold a byte below the old break and answer as before; every new page has a byte in between |
| `ProcessMemories.HeapUsableIff` | src/process/process_memory.rs:96-121 | after the break grew the program can read and write everywhere in between if and only if it could before in the rest of the old break's page |
| `Failures.GrowOverHole` | src/process/process_memory.rs:96-121 | a break inside a page that was unmapped grows to the page's end without mapping it |
| `ProcessMemories.BrkKeepsHeap` | src/process/process_memory.rs:96-121 | after growing, every byte of the heap up to the new break is mapped |
| `ProcessMemories.BrkCanGrowIff` | src/process/process_memory.rs:105-117 | growing a break with nothing above it finds its pages free if and only if it is not one byte into a page |
| `Failures.GrowTwice` | src/process/process_memory.rs:105-117 | a break moved to one byte past a page boundary makes every further growth panic |
| `Failures.KernelStackPointer` | src/process/process.rs:82 | the kernel stack pointer starts 511 pages above the end of the stack: what is pushed lands in the process's own stack if and only if between 511 and 1023 pages are in use |
| `Failures.PushesIntoNeighbour` | src/process/process.rs:82 | of two processes with adjacent kernel stacks the lower one pushes into the stack of the upper one |
| `Failures.KernelFrameAsTable` | src/memory/paging.rs:104-122 | a page of the kernel's gigabyte makes the walk use frame 0x80000 as a table, and an entry that find_pte_create adds there changes that frame |
| `ProcessMemories.ProcessMemory.IncreaseUserStack` | src/process/process_memory.rs:123-128 | one zero page more just below the stack, which a hart lets the program load and store but not fetch, with the exact condition of each panic |
| `ProcessMemories.ProcessMemory.AllocStackIfPossible` | src/process/process_memory.rs:247-260 | true exactly for a fault on the unmapped page below the stack, and then the faulting load or store succeeds |
| `ProcessMemories.ProcessMemory.New` | src/process/process_memory.rs:49-66 | an empty good space on one frame with the kernel's gigabyte mapped |
| `ProcessMemories.ProcessMemory.Reset` | src/process/process_memory.rs:229-245 | every page and table node of the old space goes back to the free set and a fresh empty space remains |
| `ProcessMemories.ProcessMemory.CopyFrom` | src/process/process_memory.rs:142-153 | the space gains a page of its own for every page of the other, with the same flags and bytes; the other is untouched and shares no frame; three free frames a page suffice |
| `ProcessMemories.ProcessMemory.CheckCollapse` | src/process/process_memory.rs:155-168 | true exactly when some page of the run is mapped; panics exactly when the run reaches below page zero |
| `ProcessMemories.ProcessMemory.FindRun` | src/process/process_memory.rs:184-208 | returns a wholly unmapped run where mmap may place it, and None only if there is none; panics exactly on the requests RunTooLong describes |
| `ProcessMemories.ProcessMemory.MmapAnywhere` | src/process/process_memory.rs:184-227 | success maps exactly a free run of cleared pages below the base and leaves older pages alone; failure changes nothing and happens only if no allowed run is free; three free frames a page suffice |
| `ProcessMemories.ProcessMemory.MmapFixed` | src/process/process_memory.rs:170-182 | the fixed run consists of cleared pages afterwards; pages in the way were dropped, all others stay; three free frames a page suffice |
| `ProcessMemories.ProcessMemory.RemovePages` | src/syscall/memory.rs:92-102 | exactly the run is given back; panics when one page of it is not mapped |
| `ProcessMemories.ProcessMemory.MmapCall` | src/syscall/memory.rs:32-90 | each answer of the system call fixes the address space after it: a run of fresh pages with the bytes of the file, no memory, zero length, or rolled back on a bad descriptor, and then both views and all bytes are as before if and only if no page was in the way of a fixed mapping; the same address by address, as CallMeans says |
| `ProcessMemories.CallMeans` | src/syscall/memory.rs:32-90 | what each answer means by addresses: minus one exactly for length zero; an address from which on len bytes are the file's, then zero, open to exactly the accesses the permissions promise, with no page beyond them new and no page outside them changed; a free place is found at the base or under the lowest fitting page, and no memory means there is none; a failed fixed call loses exactly the pages of its range |
| `ProcessMemories.PlacedBelow` | src/process/process_memory.rs:180-210 | a mapping without address ends at the mmap base if the bytes below it are free, otherwise at the lowest mapped page above the break with enough free bytes below |
| `ProcessMemories.ProcessMemory.MunmapCall` | src/syscall/memory.rs:92-102 | gives back exactly the pages from that of addr on that end at addr + len at the latest; panics exactly if one of them is not mapped |
| `ProcessMemories.MunmapCoversIff` | src/syscall/memory.rs:92-102 | the whole range is unmapped if and only if it ends at a page boundary or its last page was not mapped |
| `Failures.MunmapOneByte` | src/syscall/memory.rs:92-102 | unmapping one byte of a page succeeds and leaves the page mapped |
| `ProcessMemories.RollbackIsCompleteIff` | src/syscall/memory.rs:78-84 | after a failed call maps, page map and every byte are what they were if and only if the lost pages were not mapped before |
| `ProcessMemories.ProcessMemory.FillPages` | src/syscall/memory.rs:67-77 | the fresh pages hold the file from its start, zeros behind its end, and no other page changes |
| `Failures.FixedOverMapped` | src/syscall/memory.rs:78-84 | a fixed mapping of a bad descriptor over a mapped page: the call fails and the page is gone |
| `Failures.WholeSpaceIsTooLong` | src/process/process_memory.rs:155-168 | in an empty space a request for 0x60000 pages stops the kernel |
| `ProcessMemories.UndoGrew` | src/syscall/memory.rs:67-84 | growing by a run and removing it again restores the pages, bytes and flags of the space |
| `ProcessMemories.UndoReplaced` | src/syscall/memory.rs:67-84 | undoing a fixed mapping loses exactly the pages that were in the way |
| `FreeRuns.SlideUp` | src/process/process_memory.rs:184-208 | every allowed free run can be slid up against the base or against a mapped page, still free |
| `FreeRuns.SearchComplete` | src/process/process_memory.rs:184-208 | the candidates tried contain a free run if and only if any allowed run is free |
| `FreeRuns.ShortRequestsNeverPanic` | src/process/process_memory.rs:155-168 | a request that fits below the break page never makes the search underflow |
| `Isolation.SystemStep` | src/process/process_memory.rs:76-260 | one space's step keeps all spaces good, pairwise disjoint in frames, and owned plus free frames equal to the machine's |
| `Isolation.SystemAdd` | src/process/process.rs:78-113 | a new space out of free frames joins without disturbing the others, after other frames were taken for a kernel stack |
| `Isolation.SystemRemove` | src/process/process.rs:341-345 | dropping a space gives all its frames back, with those of a kernel stack, and leaves every other space as it is |
| `Isolation.StackAdd` | src/process/process.rs:80 | a kernel stack out of frames of no other stack keeps the stacks apart, and the spaces keep exactly the rest of the frames |
| `Isolation.StackRemove` | src/process/process.rs:489-493 | a kernel stack that goes away leaves its frames, and only those, to the rest |
| `Physical.Machine.AllocStack` | src/memory/page_allocator.rs:113-116 | 512 frames in a row, aligned as the buddy allocator aligns them and not cleared, leave the free set; it panics exactly when no such block is free |
| `Kernels.OnePlacePerFrame` | src/process/process.rs:46-60 | in every good system each frame is free, in one address space or in one kernel stack, and in no second place |
| `Kernels.StepIs` | src/process/process_memory.rs:76-260 | a step of one space keeps the whole system good and changes neither the pages nor the kernel stack of any other process |
| `Kernels.Kernel.DoSpawn` | src/process/process.rs:78-113 | a new process takes a kernel stack of 512 frames and one frame for its root, every other process is as before, and it fails only if no stack or nothing beyond it is free |
| `Kernels.Kernel.DoFork` | src/process/process.rs:398-410 | the fork step: a new process with a kernel stack and the parent's pages, flags and bytes in frames of its own; every other process as before; it fails only if no stack is free or at most 512 and three a page of the parent are |
| `Kernels.Kernel.DoMmap` | src/syscall/memory.rs:32-90 | the mmap step on one space: the answer is minus one if and only if the length is zero and otherwise fixes the new space; every other process as before, and the reasons it can stop the kernel |
| `Kernels.Kernel.DoMunmap` | src/syscall/memory.rs:92-102 | the munmap step on one space, every other process as before, and the one reason it can stop the kernel |
| `Kernels.Kernel.DoReset` | src/process/process_memory.rs:229-245 | the reset step on one space, every other process as before |
| `Kernels.Kernel.DoDrop` | src/process/process.rs:489-493 | a reaped process: all frames of its space and of its kernel stack are free again, every other process as before |
| `Kernels.Kernel.Run` | src/process/process_memory.rs:49-260 | over every run of spawn, fork, execve, reset, brk, stack growth, mmap, munmap, the drop of a process and the stores of the programs themselves: each state is the step of the one before by its operation, with the pages and kernel stacks of all other processes as they were; all spaces are good, no frame is shared between spaces and kernel stacks, and none is lost; and the kernel stops only for a reason the operation has |
| `Kernels.Kernel.DoStore` | src/process/process_memory.rs:76-81 | a store of a process, as the hart translates it, reaches a page of its own or nothing; every other process as before |
| `Kernels.ForkChain` | src/process/process.rs:398-410 | the parent did not change while the child was made |
| `UserAccess.HardwareSeesMaps` | src/process/process_memory.rs:76-81 | in every good space a hart reaches exactly the recorded pages at the recorded frames as their flags allow, in both halves of the address space |
| `UserAccess.MappedAsPromised` | src/process/process_memory.rs:76-81 | at a mapped address an access in user mode succeeds exactly if the address is canonical and the permissions of its page promise it |
| `UserAccess.PermissionsMean` | src/process/process_memory.rs:76-81 | loads, stores and fetches of a program by the R, W and X bits of a readable page; a page without U is closed to it |
| `UserAccess.KernelAlwaysMapped` | src/process/process_memory.rs:49-66 | every good space keeps the kernel's gigabyte identity mapped for the supervisor and closed to the user |
| `UserStores.StoreTarget` | src/process/process_memory.rs:76-81 | a user store at any 64-bit address that does not fault lands in one of the process's own pages, never in a table |
| `UserStores.StoreIsSeen` | src/process/process_memory.rs:76-81 | what a program stores where it may store is what it finds there, and no other byte of its pages changes |
| `UserStores.StoresAreIsolated` | src/process/process.rs:398-410 | no sequence of user stores through one table changes any byte seen through another |
| `UserStores.ForkedBytes` | src/process/process.rs:398-410 | a forked child reads every byte its parent reads |
| `ElfLoader.SegmentBytes` | src/process/process.rs:124-179 | byte vaddr + k of a loaded segment is file byte offset + k below the file size and zero up to the memory size |
| `ElfLoader.SegmentPagesIff` | src/process/process.rs:152-179 | the loader maps exactly the pages from the segment's start to its end if and only if it has file bytes, an offset inside a page, or starts in page one |
| `Failures.BssFromPageOne` | src/process/process.rs:152-179 | a one-page segment at 256 MiB without file bytes makes the loader map every page from page one on |
| `ElfLoader.PlacedIsUsable` | src/process/process.rs:115-189 | at every address of a load segment a hart lets the program do exactly what the segment's permissions promise, and it can read and write its stack page |
| `ElfLoader.ProgramPlanAt` | src/process/process.rs:124-179 | for page-disjoint segments each one's pages are as that segment alone asks |
| `ElfLoader.CopySegment` | src/process/process.rs:124-160 | the page loop adds exactly the pages with file bytes, each with its slice of the file and zeros around it; three free frames a page suffice |
| `ElfLoader.LoadSegment` | src/process/process.rs:124-179 | one segment: a bad slice, a taken page or lack of frames panics; otherwise the space gains exactly the planned pages; three free frames a page suffice with the segment's permissions |
| `ElfLoader.LoadSegments` | src/process/process.rs:120-180 | all segments in order, each as planned, or the first reason to stop; three free frames a page suffice |
| `ElfLoader.GrewLoadsImage` | src/process/process.rs:124-179 | a space that gained the plan of page-disjoint, congruent segments reads the image byte for byte |
| `ElfLoader.MappedLastPage` | src/process/process_memory.rs:130-140 | the highest mapped page below the stack, or page zero |
| `ElfLoader.LoadElf` | src/process/process.rs:115-210 | the space gains exactly the planned pages and one zero stack page, the image reads back, the break is the least page boundary above all pages below the stack; a panic names the cause, and three free frames a page suffice; every address of a segment is open to exactly what the segment's permissions promise, and the stack page to loads and stores |
| `ElfLoader.BreakIsLeast` | src/process/process.rs:183-186 | the break after loading is at most any page boundary, from the second page on, with all pages below the stack under it |
| `ElfLoader.ExecMemory` | src/process/process.rs:220-338 | the old space is given back; the new one has exactly the pages of the segments, with the planned flags and bytes, and one stack page with the arguments; the break is the least page boundary above them; no frame of any other space is touched; a panic has a cause in the file, the segments or the number of frames; every address of a segment is open to exactly what the segment's permissions promise, and the stack page to loads and stores |
| `ElfLoader.ExecStack` | src/process/process.rs:226-338 | arguments of at most a page: the stack lies in the frame of the stack page, the space stays good, every other page keeps its frame and bytes, and the user reads the arguments from the new stack pointer |
| `ElfLoader.StackInView` | src/process/process.rs:226-338 | the stack in its frame and the stack the user sees are the same bytes |
| `Kernels.Kernel.DoExec` | src/process/process.rs:212-338 | execve with arguments of at most a page: exactly the pages of the segments and of the stack, with their flags and bytes, the least break above them, the stack readable from the user's side, and every other process as before |
| `InitialStack.ReadArgsBack` | src/process/process.rs:226-338 | a reader walking the laid-out stack from its pointer recovers argc, all argument and environment strings and the auxiliary table |
| `InitialStack.PushString` | src/process/process.rs:234-243 | the string and its NUL lie at the new 16-byte aligned pointer; nothing above the old pointer changes |
| `InitialStack.PushStrings` | src/process/process.rs:234-260 | every returned pointer leads to its string, however many are pushed after it |
| `InitialStack.PushTables` | src/process/process.rs:263-309 | the tables and argc lie below the strings in the layout the reader expects |
| `InitialStack.BuildStack` | src/process/process.rs:226-338 | in physical memory: reading back gives exactly argv, env and aux plus AT_EXECFN; only bytes from the new pointer up are written; up to a page of arguments changes one frame, more changes a lower frame whatever lies there |
| `InitialStack.StartsAlignedIff` | src/process/process.rs:226-328 | the stack pointer a program starts with is a multiple of 16 if and only if argc plus the number of environment strings is odd |
| `Failures.MisalignedStart` | src/process/process.rs:226-328 | one argument and one environment string give a misaligned stack pointer |
| `InitialStack.StaysInFrame` | src/process/process.rs:226-338 | a stack of at most a page leaves every other frame alone |
| `InitialStack.LeavesFrame` | src/process/process.rs:226-338 | a deeper one writes argc into a lower frame |
| `Failures.LongArgument` | src/process/process.rs:234-243 | one argument of 4096 bytes changes the frame below the stack's |
| `Scheduler.Choose` | src/process/process.rs:370-396 | None exactly when nothing is ready; otherwise the first ready pid going up from the previous one and round |
| `Scheduler.NearestIsNext` | src/process/process.rs:370-396 | the choice is the least ready pid above the previous one or, if there is none, the least ready pid |
| `Scheduler.CloserEveryTime` | src/process/process.rs:370-396 | each choice of another pid strictly shortens the cyclic distance to a waiting one |
| `Scheduler.BoundedBypass` | src/process/process.rs:370-396 | a pid that stays ready is chosen within limit selections, whatever the others do |
| `Scheduler.NearestIsUnique` | src/process/process.rs:370-396 | the choice is determined |
| `Fairness.NobodyStarves` | src/process/process.rs:370-396 | in every run, while a process stays ready there are fewer dispatches than pids ever handed out, with forks, exits and sleeps in between |
| `Fairness.NearestForAnyLimit` | src/process/process.rs:370-396 | the choice does not depend on how many pids there are |
| `Processes.BootInv` | src/process/mod.rs:50-55 | the system after init satisfies the invariants |
| `Processes.NextPidIsNew` | src/process/process.rs:363-368 | the pid the next spawn takes belongs to nobody, so no entry of the list is overwritten |
| `Processes.ForkInv` | src/process/process.rs:398-429 | fork and the parent's yield keep all invariants |
| `Processes.YieldInv` | src/process/task.rs:53-82 | yielding keeps all invariants |
| `Processes.DispatchInv` | src/process/mod.rs:57-84 | handing the hart to the chosen process keeps all invariants |
| `ProcessExits.ExitInv` | src/process/process.rs:431-466 | exit with reparenting to init and wakeup keeps all invariants |
| `ProcessExits.ExitInitKids` | src/process/process.rs:444-451 | the children handed over are not among init's already, so its list has nobody twice |
| `ProcessExits.WaitInv` | src/process/process.rs:468-517 | one turn of wait_for, whatever it does, keeps all invariants |
| `ProcessExits.StepInv` | src/process/process.rs:363-517 | every step of the system keeps all invariants |
| `StepEffects.ForkEffects` | src/process/process.rs:398-428 | fork adds one ready process with a pid nobody has, last in its parent's list; nobody else changes |
| `StepEffects.ExitEffects` | src/process/process.rs:430-463 | exit leaves a zombie with its code, gives its children to init in reverse order, makes its waiters ready, and changes nobody else |
| `StepEffects.WaitAnswers` | src/process/process.rs:465-517 | a wait hands out a code if and only if some existing child is a zombie and the pid is -1 or its own; each other answer is decided by whether there is a child, whether the caller hangs, and who has the pid |
| `StepEffects.WaitReaps` | src/process/process.rs:470-495 | the code handed out is that of the first such child in the caller's list, and that child alone is gone |
| `StepEffects.WaitGoesOn` | src/process/process.rs:496-515 | a wait that hands out nothing leaves the caller running, ready, or asleep and last in the queue of the process with that pid, and changes nobody else |
| `ProcessRuns.RunInv` | src/process/process.rs:363-517 | every state of every run from boot satisfies all invariants |
| `ProcessRuns.ProcessesFormATree` | src/process/process.rs:398-451 | at every moment each process but init is in exactly one children list, once, of a process that is no zombie, and following parents leads to init |
| `ProcessRuns.PidsAreUnique` | src/process/pid.rs:26-56 | at every moment pids are unique, the list maps each to its process, pid 1 is init and has not exited, and the next pid is unused |
| `ProcessRuns.PidsAreReused` | src/process/pid.rs:26-40 | the allocator's max equals the largest number of processes that ever existed at once |
| `ProcessRuns.ExitsOnce` | src/process/process.rs:431-466 | a process exits at most once in a run |
| `ProcessRuns.ZombieHasExited` | src/process/process.rs:431-466 | a zombie carries the code of an earlier exit of its own |
| `ProcessRuns.ExitCodesAreDeliveredOnce` | src/process/process.rs:468-500 | every delivered code goes to the parent of the exited process, is the code of its one exit before, and is delivered in no other step |
| `ProcessRuns.SleepersWaitForAnExit` | src/process/process.rs:500-515 | a process asleep in wait_for is queued at a process that has yet to exit if and only if that one was no zombie when the sleep began |
| `ProcessRuns.ExitWakes` | src/process/condvar.rs:26-33 | an exit makes every process queued at it ready |
| `ProcessRuns.SleeperStep` | src/process/process.rs:431-515 | a step wakes a sleeper only by the exit it waits for; any other step leaves it asleep |
| `ProcessRuns.SleepEndsWithTheExit` | src/process/process.rs:431-515 | over every run, who fell asleep on a process that was no zombie is still queued at it before its exit, or was made ready by it |
| `ProcessRuns.NeverMissedIff` | src/process/process.rs:468-515 | a wait that goes to sleep misses nothing at any later moment if and only if the process it chose was no zombie then |
| `ProcessRuns.OwnChildIsNeverMissed` | src/process/process.rs:468-515 | over every run, a wait for one's own child misses nothing: at every later moment its exit is still to come and will wake the waiter, or it came and made the waiter ready |
| `ProcessRuns.ZombieSleepersNeverWake` | src/process/process.rs:500-515 | a process that went to sleep on a zombie sleeps for ever |
| `LostWakeup.WakeupIsLost` | src/process/process.rs:431-515 | a run in which init sleeps for ever on a zombie that has become its own child |
| `ProcessManagers.PidAllocator.Alloc` | src/process/pid.rs:26-33 | the last freed id, or a new one |
| `ProcessManagers.PidAllocator.Free` | src/process/pid.rs:34-38 | the id is kept for reuse; it panics exactly for an id never handed out or freed already |
| `StepEffects.FreedPidIsNext` | src/process/pid.rs:26-38 | the pid a wait gave back is the pid of the next process |
| `ProcessManagers.ProcessManager.Spawn` | src/process/process.rs:363-368 | takes the spawn step of the transition system |
| `ProcessManagers.ProcessManager.Dispatch` | src/process/mod.rs:57-84 | takes a dispatch step for the scheduler's choice, or nothing is ready |
| `ProcessManagers.ProcessManager.Fork` | src/process/process.rs:398-429 | takes the fork step, keeps the invariants, and returns a pid nobody had |
| `ProcessManagers.ProcessManager.Reparent` | src/process/process.rs:446-451 | the popping loop leaves no children behind and appends them reversed to init's |
| `ProcessManagers.ProcessManager.WakeAll` | src/process/condvar.rs:26-33 | the popping loop makes exactly the queued processes ready and empties the queue |
| `ProcessManagers.ProcessManager.Exit` | src/process/process.rs:431-466 | panics exactly for init; otherwise takes the exit step and keeps the invariants |
| `ProcessManagers.ProcessManager.Retain` | src/process/process.rs:471 | keeps exactly the children that still exist, in order |
| `ProcessManagers.ProcessManager.Scan` | src/process/process.rs:475-488 | finds the first child that is a zombie and is waited for |
| `ProcessManagers.ProcessManager.Drop` | src/process/process.rs:489-496 | removing a zombie frees its pid and never panics |
| `ProcessManagers.ProcessManager.WaitTurn` | src/process/process.rs:468-517 | takes the wait step: reaps, reports no child, returns at once, yields, or sleeps in the queue of the pid; it reaps if and only if some child is due |
| `ProcessManagers.ProcessManager.WaitOn` | src/process/condvar.rs:35-40 | the caller is suspended and last in the queue |
| `Pipes.RingIsAQueue` | src/device/pipe.rs:35-77 | for every interleaving in which at most 512 bytes are ever unread, the bytes read are a prefix of the bytes written and the ring holds exactly the rest in order |
| `Pipes.InOrderIffWithin` | src/device/pipe.rs:35-77 | reads stay in order for all contents if and only if at most 512 bytes are unread |
| `Pipes.SlotIs` | src/device/pipe.rs:63-66 | an array position holds the byte written there while fewer than 512 have followed it |
| `Pipes.PipeBuffer.Read` | src/device/pipe.rs:35-54 | returns the next bytes up to the write counter or the buffer's length; None exactly on an empty pipe without writer |
| `Pipes.PipeBuffer.Write` | src/device/pipe.rs:56-77 | always takes every byte, because the test for a full ring never holds; None exactly without reader |
| `Pipes.PipeBuffer.Create` | src/device/pipe.rs:180-194 | an empty pipe with both ends open |
| `Descriptors.FileTables.AllocateFd` | src/process/process.rs:67-74 | the lowest empty slot, appended if there is none; no descriptor changes its file |
| `Descriptors.FileTables.Open` | src/syscall/file.rs:40-63 | a new file in the lowest empty slot |
| `Descriptors.FileTables.Close` | src/syscall/file.rs:65-84 | empties the slot, and closes the file exactly if no other descriptor names it |
| `Descriptors.FileTables.Dup` | src/syscall/file.rs:394-402 | the lowest empty slot names the same file; a bad descriptor changes nothing |
| `Descriptors.FileTables.Pipe2` | src/syscall/file.rs:376-391 | two lowest empty slots name the two open ends of a new pipe |
| `Descriptors.FileTables.Fork` | src/process/process.rs:411-422 | the child has its own first three files and shares the parent's others at the same numbers |
| `Descriptors.FileTables.Exit` | src/process/process.rs:453-462 | all descriptors of the process are gone and the log of closes is extended |
| `Descriptors.Run` | src/syscall/file.rs:65-402 | every sequence of new, open, close, dup, pipe2, fork and exit calls: each state is the step of the one before by its call and satisfies the descriptor invariant |
| `Duplicates.Dup3` | src/syscall/file.rs:404-414 | closes what the target names, whoever else names it, and lets the target name the source's file; a target outside the table stops the kernel |
| `Duplicates.Dup3KeepsIff` | src/syscall/file.rs:404-414 | dup3 keeps counts, closes and pipe ends in step with the descriptors if and only if its target is empty, or is the only descriptor of its file and not the source |
| `Failures.OntoItself` | src/syscall/file.rs:404-414 | a descriptor duplicated onto itself names a closed file |
| `Descriptors.Perform` | src/syscall/file.rs:65-402 | each call takes its step: descriptors, files and pipes afterwards are fixed by the state before |
| `Descriptors.StepDetermined` | src/syscall/file.rs:65-402 | a step leaves no choice but the order in which one exit closes its files |
| `Descriptors.ReleaseInv` | src/syscall/file.rs:69-79 | giving up one reference keeps strong counts equal to the number of descriptors, closes exact and pipe flags exact |
| `Descriptors.ClosedWhenUnnamed` | src/process/process.rs:453-462 | close has run exactly once on a file without descriptors and never on one with |
| `Descriptors.ClosedAtTheLastMoment` | src/syscall/file.rs:65-84 | close runs in exactly the step in which the last descriptor goes away |
| `Descriptors.EndsOpenWhileNamed` | src/device/pipe.rs:147-160 | an end of a pipe is open if and only if some descriptor of some process names it |
| `PipeFiles.PipeTables.DoRead` | src/device/pipe.rs:95-117 | a read through any descriptor takes the front of the ring; with nothing to return it waits if some descriptor of some process names the writing end, and is refused if none does and the ring is empty |
| `PipeFiles.PipeTables.DoWrite` | src/device/pipe.rs:119-145 | a write through any descriptor stores all bytes; it is refused if and only if no descriptor names the reading end |
| `PipeFiles.PipeTables.DoCall` | src/device/pipe.rs:147-160 | a call on descriptors with the closes it makes: the flags of every buffer again say which ends are not closed, and no ring changes |
| `PipeFiles.OpenUntilClosed` | src/device/pipe.rs:147-160 | an end is open exactly as long as its file is not among those closed |
| `PipeFiles.Run` | src/device/pipe.rs:91-160 | over every run of calls on descriptors, reads and writes by all processes, every answer and every state is the specified one |
| `PipeFiles.PipeIsAQueue` | src/device/pipe.rs:35-77 | whichever descriptors are used in a run, what was read from a pipe is a prefix of what was written to it while at most 512 bytes are unread |
| `PipeFiles.PipeFds` | src/syscall/file.rs:376-390 | the lowest free descriptor is the reading end of a new empty pipe and the next one its writing end |
| `PipeFiles.WriteThenRead` | src/device/pipe.rs:35-77 | what is written to an empty pipe, at most 512 bytes, is what the next read returns |
| `PipeFiles.RefusedIsFinal` | src/device/pipe.rs:95-117 | once a read was refused for want of a writer, nothing is ever written to that pipe again, in any run |
| `Paths.SplitJoined` | src/filesystem/mod.rs:369 | splitting p/q gives the pieces of p and then those of q |
| `Paths.SplitOfJoin` | src/filesystem/mod.rs:369 | splitting undoes joining on pieces without slashes |
| `Dentries.WalkComposes` | src/filesystem/mod.rs:357-455 | following p and then q reaches the same entry and leaves the same tree as following p/q |
| `Resolution.WalkKeepsView` | src/filesystem/mod.rs:384-408 | resolving a path changes nothing of the name space below any entry |
| `Resolution.WalkFollows` | src/filesystem/mod.rs:357-455 | where a path leads is determined by the name space alone, cached or not |
| `Resolution.CacheIsTransparent` | src/filesystem/mod.rs:384-408 | from trees with the same name space a path leads to the same name and inode, or fails in both |
| `Vfs.ResolveComposes` | src/filesystem/mod.rs:357-455 | resolving p/q equals resolving q from the result of p, for nonempty p and q without leading slash |
| `Vfs.EarlierResolutionsDoNotMatter` | src/filesystem/mod.rs:357-455 | no sequence of earlier resolutions changes the name and inode a later one finds |
| `Vfs.FullPathResolvesIff` | src/filesystem/mod.rs:418-471 | the printed path of an attached entry resolves to that entry from any directory if and only if no name on its way is empty, a dot, two dots or contains a slash |
| `Failures.EmptyName` | src/filesystem/mod.rs:509-533 | a directory with the empty name is made and its printed path is that of the root |
| `Vfs.MadeOk` | src/filesystem/mod.rs:509-533 | a new directory is attached below its parent and no other entry comes loose |
| `Vfs.FileSystem.Descend` | src/filesystem/mod.rs:384-408 | the loop ends with the entry in the cache, or refuses; at most one lookup |
| `Vfs.FileSystem.Search` | src/filesystem/mod.rs:429-449 | the cached entry, or the looked-up one entered in the cache |
| `Vfs.FileSystem.GetParent` | src/filesystem/mod.rs:357-416 | the loop reaches where all components but the last lead, with the directory test on the way |
| `Vfs.FileSystem.FromPath` | src/filesystem/mod.rs:418-455 | returns where the path leads, for every path and working directory |
| `Vfs.FileSystem.Fullpath` | src/filesystem/mod.rs:457-471 | the loop going up builds the printed path |
| `Vfs.FileSystem.Mkdir` | src/filesystem/mod.rs:509-533 | refuses dots and cached names, panics where the inode would have to make it, and otherwise attaches the entry |
| `Vfs.MadeIsEmpty` | src/filesystem/mod.rs:509-533 | no name leads anywhere from a new directory, and no path through one does |
| `Vfs.MadeShows` | src/filesystem/mod.rs:509-533 | the name space below every other entry is as before, except that the new name, which led nowhere, is a directory with nothing below it |
| `Vfs.FilesHaveNoChildren` | src/filesystem/mod.rs:385-387 | searching in a file finds nothing, so the missing test on the last component makes no difference |
| `DirEntries.FromDentry` | src/syscall/c/mod.rs:62-96 | builds the record: fields, name, padding to eight bytes |
| `DirEntries.RecordReadsBackIff` | src/syscall/c/mod.rs:62-96 | a C reader gets the entry, its position and its length back if and only if the name has no NUL and the length fits 16 bits |
| `Failures.LongRecord` | src/syscall/c/mod.rs:62-96 | a name of 65516 bytes gives a record that does not read back |
| `Getdents.Smallest` | src/filesystem/mod.rs:550-555 | the next key of the ordered iteration |
| `Getdents.LessMeans` | src/filesystem/mod.rs:550-555 | a key is before another if it is its beginning or has the smaller byte where they first differ |
| `Getdents.ListingExists` | src/filesystem/mod.rs:539-556 | every set of children has a listing in key order, each once |
| `Getdents.DirFile.Load` | src/filesystem/mod.rs:539-549 | the children become the cached ones and the entries of the inode, the last entry of a name winning; they are read once, and a failed read changes nothing |
| `Getdents.ExtendedMerges` | src/filesystem/mod.rs:543-547 | a name is listed if and only if it was cached or some entry has it; its value is the last entry of that name, otherwise the cached one |
| `Getdents.DirFile.GetChild` | src/filesystem/mod.rs:539-556 | the child at that position of the listing, or None past the end |
| `Getdents.DirFile.Getdents64` | src/syscall/file.rs:334-373 | as many records from the cursor on as fit, each complete, and the cursor behind them; nothing from a cursor past the end |
| `Getdents.TakenIsMost` | src/syscall/file.rs:344-368 | the records of a call fit, and the next one would not |
| `Getdents.OffsetsReadBack` | src/syscall/file.rs:347-348 | each record carries the position of its entry |
| `Getdents.ReadDirectory` | src/syscall/file.rs:334-373 | a directory just opened and read by enough calls with enough room: the reader finds exactly the cached names and the names of the inode's entries, each once, in order, with the right entry and position |
| `Getdents.DirFile.Calls` | src/syscall/file.rs:334-373 | any sequence of calls produces the specified output and cursor |
| `Getdents.EveryChildOnce` | src/syscall/file.rs:334-373 | with roomy buffers the output so far reads back as the first entries in order, each once; a call returns nothing exactly at the end; the end comes after at most as many calls as entries |

## Left out

- Boot, trap entry, context switch assembly, CSR access, TLB fences, SBI calls and device drivers.
- More than one hart: a step of the life cycle is what one hart does between two yields, and locks are not modelled.
- The buddy allocator behind PhyPage: frames are a set, any free one may be returned, and a kernel stack is any block of 512 free frames that starts at a multiple of 512; the DMA pages of drivers are taken before the first process.
- The contents of kernel stacks: the trap context at their start, and what the kernel pushes.
- map_many, getppid and the parent pointer of a process.
- The arithmetic width of addresses is explicit where it matters (64-bit entries, 27-bit page numbers, saturating page offsets, underflow as a panic as in a build with overflow checks); the counters of pipes, cursors and identities of processes are unbounded.
- PageTables.PageTable.FindPteCreate: pages below a 1 GiB leaf are excluded, because find_pte follows such a leaf as if it were a pointer and the walk then reads and writes inside the mapped gigabyte.
- PageTables.PageTable.Map: pages below a 1 GiB leaf are excluded, as for FindPteCreate.
- PageTables.PageTable.Unmap: pages below a 1 GiB leaf are excluded, as for FindPteCreate.
- PageTables.PageTable.Translate: pages below a 1 GiB leaf are excluded, as for FindPteCreate.
- PageTables.PageTable.UnmapMany: runs that touch a 1 GiB leaf or pass page 2^27 are excluded; the kernel unmaps its own window only.
- PageTables.PageTable.MapBig: the flags must include R, W or X, as they do at every call; otherwise the slot would be a pointer.
- HardwareWalk.HardwareAgrees: SUM and MXR are clear, as the kernel leaves them.
- Trampoline.AccessContinuously: the accessor copies data to the address it is given; the user's bytes must lie outside both tables.
- ProcessMemories.ProcessMemory.SetBrk: a break above the stack base is covered while some page between the old break and the kernel's gigabyte is mapped, as the first stack page is; otherwise the loop would reach the gigabyte of the kernel.
- ProcessMemories.ProcessMemory.Map: pages in user space only, as for FindPteCreate.
- ProcessMemories.ProcessMemory.AddPage: pages in user space only, as for FindPteCreate.
- ProcessMemories.ProcessMemory.MmapFixed: pages in user space only, as for FindPteCreate.
- ElfLoader.CopySegment: segments in user space only, as for FindPteCreate.
- ElfLoader.LoadSegment: segments in user space only, as for FindPteCreate.
- ElfLoader.LoadSegments: segments in user space only, as for FindPteCreate.
- ElfLoader.ExecMemory: segments in user space only, and arguments of at most a page.
- ProcessMemories.ProcessMemory.MmapCall: the permissions are given as page flags, not as PROT bits; a fixed range must lie in user space; a read of an open file gives a full page unless the file ends.
- ProcessMemories.ProcessMemory.CopyFrom: the flag copy_stack has no effect in the source and is not a parameter.
- Kernels.Kernel.Run: breaks up to the stack base, fixed mappings and segments in user space, and arguments of at most a page; InitialStack and Failures show what happens otherwise. A store that faults changes nothing; the stack growth that answers a fault is its own operation, and a fault that is not answered shuts the machine down. What the kernel pushes on its stacks is left out.
- Kernels.Kernel.DoExec: arguments of at most a page, for the same reason.
- ElfLoader.ExecStack: arguments of at most a page; BuildStack covers all lengths that stay in memory.
- ElfLoader.LoadElf: the ELF header is parsed elsewhere; segments are given with address, offset, sizes and flags, and lie in user space; the auxiliary table is a parameter of execve.
- ElfLoader.SegmentBytes: a segment without file bytes at offset congruent to zero must not start in page zero, where the loader would skip its first page.
- InitialStack.BuildStack: the bytes written must be memory, and the user stack base lies above the depth.
- Processes: suspension on other queues than exit is one abstract step, and so is being woken there; a wait on one's own pid stops the hart in the source and is no step.
- ProcessManagers.ProcessManager.Exit: the assertion that three references to the process exist is left out; references are not counted here.
- ProcessManagers.ProcessManager.Drop: the assertion that nobody else holds the child is left out, for the same reason.
- Fairness.NobodyStarves: says nothing about how long a process runs before it yields.
- PipeFiles.PipeTables.DoRead: one attempt; the condition variable it waits on before the next attempt is left out.
- Descriptors.Run: dup3, which Duplicates treats by itself because it can break the invariant, descriptors held by calls in flight, and files whose close fails are left out; every close in the source succeeds.
- Vfs.FileSystem.FromPath: inode lookups are a function that returns the requested name, and inodes of files find nothing; mounting, link and unlink are left out.
- Getdents.DirFile.Getdents64: the type byte is given with the entry, the records are a sequence of bytes whose transfer to user memory is that of access_continuously, and the directory does not change between calls once its children are loaded.
- uname, stat, times, console and FAT driver: easy members without further properties.
