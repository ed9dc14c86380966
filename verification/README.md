# Verified model of MakenOS

MakenOS is a small kernel for x86-64 processors. This project models those of
its parts that compute over memory, and proves what they promise:

- **The memory allocator** (`HalvingTree`, `Allocator`, `AllocatorRuns`,
  `RequestPairs`, `WordBytes`, `PhysicalMemory`). A recursive search over
  blocks that are halved but never recorded. It is a first-fit scan of one
  level of a binary tree; runs of requests whose levels never deepen hand out
  disjoint blocks, and the exact condition under which a later, smaller request
  stays safe is proved with its counterexample, which is the kernel's own first
  two requests. In any heap, overlapping blocks or not, it is known in advance
  when a pair of requests is granted.
- **Four-level paging** (`PageTables`, `PageTree`, `PageMap`, `PageRights`,
  `Paging`). Mapping keeps the tables a tree of depth four, and whatever the flags of the
  calls, the pages that are present and their translations are exactly those of
  a plain map from pages to frames in which the last call decides; which pages
  can be written, used by programs and executed is told by three bits of the
  flags and the tables that were there before.
- **Tasks and interrupts** (`Machine`, `FlagBits`, `ContextSwitch`, `Interrupts`,
  `InterruptedCode`, `InterruptedSwitch`, `TaskRuns`, `Tasking`). An
  interpreter for the instructions in use; interrupts nested to any depth, with
  handlers that write kernel data; code that is interrupted between any two of
  its instructions; and whole runs of tasks that compute, are interrupted
  anywhere, the task switch included, and yield around a ring.
- **Strings and numbers** (`Bytes`, `CString`, `NumberText`), copying within
  one memory, comparing, and writing numbers that parse back.
- **The initial ramdisk** (`RamdiskImage`, `RamdiskMount`,
  `RamdiskAllocation`, `Ramdisk`, `KernelBoot`), from the boot loader's image
  through the kernel's own requests, the two allocations, mounting, lookup and
  clamped reads to the listing loop, with the exact condition on the region
  under which the listing comes about.
- **The disk driver** (`AhciLayout`, `AhciCommand`, `AhciTable`, `AhciBuild`,
  `AhciSlots`, `AhciRun`, `AhciSystem`): memory layout, the descriptors of a
  command in memory, the slot protocol against a disk that completes commands
  at any time, and whole runs in which every command in flight stays intact.
- **The MADT** (`Madt`): the walk over its records, and when it ends.

`Arithmetic` and `Options` hold shared facts and types. `dafny verify
dfyconfig.toml` checks the project.

## How the code is modelled

Code that changes memory is a method over an array or a class with the same
state, proved equal to a function of the old state; what the code promises is
proved about those functions. Numbers are unbounded, and every wrap-around,
cut bit field and truncating cast that the code depends on is written out.

- The allocator's memory is an array of 64-bit words. The region's `length` is
  counted in words, as the code's pointer arithmetic does, although the
  boot loader reports bytes.
- Paging memory is the frames that the 40-bit field can name. `k_malloc(4096)`
  appears as a pool of frames that are not yet tables and have no present
  entry; that its result starts a frame is assumed.
- The processor's memory is given as the 64-bit word that starts at each
  address. A store overlaps the words that start up to seven bytes away, so
  "memory changes nowhere else" is always said of words that lie wholly
  outside what was stored. `pushfq` and `popfq` carry all flags; the bits that
  the processor masks there (RF, VM, reserved ones) are not treated apart.
- An interrupt handler may use all registers, if it ends with the callee-saved
  ones as they were, and may write all memory but the interrupted stack and the
  words that a `Guard` names. A single interrupt can be stated with a guard
  that names none; in runs of tasks the guard names the tasks' structures and
  the other tasks' stacks.
- The ramdisk, its entries and the buffers are in one memory of bytes; the
  nodes, which nothing reads as bytes, are an array beside it.
- What the disk does to SACT and CI while `runCommand` works, and whether the
  port stays busy, is the parameter `Disk` of `AhciRun.RunCommand`, of which
  only is asked that the disk sets no bit; in runs it is any sequence of events
  between the steps of the caller (`AhciSystem`).
- The allocator works on words and the ramdisk on bytes;
  `WordBytes.SameMemory` is the memory seen both ways.
- Which exceptions push an error code is taken from table 6-1 of the Intel SDM,
  Volume 3A, and for vectors 29 and 30 from AMD's manual.
- The seven arrays of the MADT are the rows of one two-dimensional array and
  their counters one array, since the seven cases of the switch are alike.

Where the code differs from its comments or from what one would expect, the
model follows the code:

- The second buffer that kernel.c asks for lies inside the first one
  (`RequestPairs.KernelRequestsOverlap`).
- An allocation larger than the region is granted if the region is larger than
  one block (`Allocator.OversizedRequestIsGranted`).
- `k_free` clears as many bytes as the block has words, and the block is never
  reused (`Allocator.KFree`, `AllocatorRuns.ExactCapacity`).
- The present bit of a page is bit 1 of the flags, and physical addresses are
  cut to 40 bits (`PageMap.PagePresentIff`, `PageMap.TranslationExactIff`).
- `struct InterruptFrame` names the four fields behind the error code rsp,
  rflags, cs and rip; the processor puts rip, cs, rflags and rsp there
  (`Interrupts.EnteredEnters`).
- Vectors 21 and 29 have a stub for exceptions without an error code.
  `Interrupts.ReturnFrameFoundIff` says what happens if the processor pushes one.
- `strcpy` writes no terminator (`CString.StrcpyNeedsZero`).
- A read whose offset and size wrap around can pass the end of its file
  (`Ramdisk.ReadStaysInsideIff`).
- The descriptor table's length has 16 bits, so the last 16 counts below 2^20
  and all above are not covered (`AhciBuild.HardwareTransfersIff`), and the
  count in the command is right up to 16 sectors only
  (`AhciCommand.CommandCountIff`). A count of 0, which ATA takes as 65536
  sectors, gets an empty table.
- The MADT walk never ends at a record of unknown type or of length zero
  (`Madt.LoopEndsIff`).

## Model

| member | source | states |
|---|---|---|
| HalvingTree.FitLevelIsDeepestUsable | kernel/memory/pmm.c:89-98 | the level a request falls on is exactly the deepest one that the search may reach and whose nodes hold size + 1 words |
| HalvingTree.NodesShape | kernel/memory/pmm.c:89-106 | the blocks of a level are as many as a full binary tree has, lie in the region, ascend and do not overlap |
| HalvingTree.NodesDisjoint | kernel/memory/pmm.c:89-106 | two blocks of one level are the same or apart |
| HalvingTree.NodesOfShallowerLevel | kernel/memory/pmm.c:100-102 | the start of a block is the start of one of its halves, down to every deeper level |
| HalvingTree.FitLevelAntitone | kernel/memory/pmm.c:89-100 | larger requests fall on levels that are no deeper |
| HalvingTree.HalvedIff | kernel/memory/pmm.c:78-97 | a region is halved if and only if it is longer than 4096 words and its half is longer than the request |
| HalvingTree.SmallestBlocks | kernel/memory/pmm.c:78-100 | the smallest blocks of a larger region have from 2048 to 4096 words |
| Allocator.SearchIsLowestFree | kernel/memory/pmm.c:76-109 | the search gives the lowest block with a zero header among all blocks of the smallest fitting level, and NULL exactly when that level has none |
| Allocator.SearchHalves | kernel/memory/pmm.c:89-106 | one round of halving, with the edge case of a half that is exactly size + 1 words |
| Allocator.GrantedBlockStaysInside | kernel/memory/pmm.c:76-109 | a granted block stays in the region if and only if the request fits it |
| Allocator.OversizedRequestIsGranted | kernel/memory/pmm.c:91-95 | a request larger than an empty large region is granted |
| Allocator.BMalloc | kernel/memory/pmm.c:76-109 | the recursion computes the search, and claims the block it finds: header, cleared payload, nothing else |
| Allocator.Claim | kernel/memory/pmm.c:92-94 | header and payload after a grant |
| Allocator.ZeroBytes | kernel/memory/pmm.c:119 | clearing bytes within words, one after the other |
| Allocator.KFree | kernel/memory/pmm.c:116-120 | as many bytes as the header says words are cleared; the header stays |
| WordBytes.WordIsNumber | kernel/memory/pmm.c:76-120 | a word of the allocator is the number of eight bytes, least significant first, at its address |
| WordBytes.ClearedBytesAre | kernel/memory/pmm.c:116-120 | a free clears exactly as many bytes, from the payload's start on, as the header has counted words |
| AllocatorRuns.BlocksNeverOverlap | kernel/memory/pmm.c:76-120 | over every run whose requests fall on levels that never deepen, with any writes to payloads and any frees, all blocks lie in the region, are disjoint and keep their headers |
| AllocatorRuns.GrowingSizesNeverDeeper | kernel/memory/pmm.c:89-100 | requests whose sizes never shrink are such a run |
| AllocatorRuns.SafeAfterGrowthIff | kernel/memory/pmm.c:89-106 | after runs down to the level of size m a request of size s is safe for every history if and only if its level is not deeper than that of m |
| AllocatorRuns.FreeIffNotTaken | kernel/memory/pmm.c:84-91 | in runs, a header reads as free exactly if no block starts there |
| AllocatorRuns.MallocKeepsPacked | kernel/memory/pmm.c:76-114 | a request at its level keeps the invariant of runs |
| AllocatorRuns.TouchKeepsPacked | kernel/memory/pmm.c:116-120 | writes and frees keep it |
| AllocatorRuns.RunKeepsPacked | kernel/memory/pmm.c:76-120 | every run whose levels never deepen keeps it |
| AllocatorRuns.ExactCapacity | kernel/memory/pmm.c:89-120 | of one fixed size exactly 2^d requests succeed, at ascending addresses, and the next one gets NULL, whatever is freed in between |
| RequestPairs.KernelRequestsOverlap | kernel/kernel.c:177-183 | in every region that can hold them, the block of 4096 words lies wholly inside the payload of the 0x8000 words granted before |
| RequestPairs.SecondGrantedIff | kernel/filesystem/initrd.c:51-52 | in any heap: of two requests, the second not smaller, the second one is granted if and only if its level has a free node that the first one does not get; and NULL for the first one means NULL for the second |
| RequestPairs.PairApart | kernel/filesystem/initrd.c:51-52 | in any heap, whatever overlaps in it, the second block of the pair lies behind the first one |
| RequestPairs.FreshServesBothIff | kernel/filesystem/initrd.c:51-52 | on a zeroed region the pair is granted if and only if the second request falls below the top level |
| RequestPairs.KernelServesIff | kernel/kernel.c:177-198 | after the kernel's own two requests, with anything in the sector and the text, the pair is granted if and only if the levels of three requests say so |
| PhysicalMemory.KernelHeap.constructor | kernel/memory/pmm.c:61-64 | a zeroed region starts without blocks, packed at every level |
| PhysicalMemory.KernelHeap.KMalloc | kernel/memory/pmm.c:111-114 | one allocation step of a run, in any heap; a packed heap stays packed if the request does not go deeper |
| PhysicalMemory.KernelHeap.KFree | kernel/memory/pmm.c:116-120 | one free step of a run, in any heap; a packed heap stays packed |
| PageTree.EmptyTablesAreTree | kernel/memory/paging.c:60-64 | a root table without present entries is a tree, ready for as many tables as there are fresh frames |
| PageTree.EnsuredEntryKeepsLevels | kernel/memory/paging.c:60-64 | making an entry present keeps every table's level, gives no table a second parent, and leads one level down |
| PageTree.EnsuredEntryRooted | kernel/memory/paging.c:78-89 | a table that was added has a parent exactly if its entry was made present |
| PageTree.DescendedKeepsLevels | kernel/memory/paging.c:78-91 | the way down keeps levels and present entries and ends where the walk ends |
| PageTree.DescendedKeepsRoots | kernel/memory/paging.c:78-91 | it keeps every table rooted exactly if the flags set the present bit or nothing was added |
| PageTree.MappedKeepsTree | kernel/memory/paging.c:67-97 | one mapping keeps the levels and all present upper entries and adds at most three tables; the tables are a tree afterwards if and only if they were one, and the present flag is set or the path was there |
| PageTree.WalksMeetOnce | kernel/memory/paging.c:53-55 | present walks that reach one table came the same way |
| PageTree.SamePageIff | kernel/memory/paging.c:47-51 | two addresses have the same four indices exactly if bits 12 to 47 agree |
| PageMap.MappedLeaf | kernel/memory/paging.c:93 | after a mapping the walk ends at an entry with the given frame |
| PageMap.OtherLeafKept | kernel/memory/paging.c:67-97 | whatever the flags, other pages that were present keep their entry |
| PageMap.OtherPageStaysAbsent | kernel/memory/paging.c:67-97 | whatever the flags, no other page becomes present |
| PageMap.EmptyTablesAgree | kernel/memory/paging.c:43-58 | tables without present entries map nothing |
| PageMap.MappedRefines | kernel/memory/paging.c:67-97 | one call, with any flags, adds one page to the plain map or takes it away |
| PageMap.MapAllRefines | kernel/memory/paging.c:67-97 | any sequence of calls, with any flags, keeps the levels, and the tables map exactly the pages of the plain map; they stay a tree if every call sets the present bit |
| PageMap.TranslationAgreesWithMap | kernel/memory/paging.c:43-58 | after any sequence of calls a page is present if and only if it is in the plain map, and its physical address is the last frame given to it, with the offset kept |
| PageMap.TranslationExactIff | kernel/memory/paging.c:57 | the address is the one given if and only if that is below 2^40 |
| PageMap.PagePresentIff | kernel/memory/paging.c:30 | the page is present for the processor if and only if bit 1 of the flags is set |
| PageRights.MappedEntriesSay | kernel/memory/paging.c:28-41 | after a mapping every entry of the walk that was not there before, and the leaf entry always, has present, writable, user and no-execute from bits 1, 2, 3 and 7 of the flags, keeps accessed and dirty, and is clear otherwise |
| PageRights.MappedRightsIff | kernel/memory/paging.c:67-97 | a page is writable if and only if bit 2 is set and the older tables of its walk allow it; so for user access and bit 3, and for execution and bit 7 |
| PageRights.NewPageRightsIff | kernel/memory/paging.c:67-97 | if there was nothing below the root, the three bits alone decide |
| Paging.AddressSpace.SetPageTableEntry | kernel/memory/paging.c:28-41 | every field of one entry, bit by bit; four of them are always cleared |
| Paging.AddressSpace.GetPhysicalAddress | kernel/memory/paging.c:43-58 | the walk of the specification |
| Paging.AddressSpace.AllocateEntry | kernel/memory/paging.c:60-64 | an entry gets the next frame |
| Paging.AddressSpace.MapPage | kernel/memory/paging.c:67-97 | the mapping of the specification |
| Machine.Processor.Execute | kernel/process/switch.asm:3-59 | straight-line code is executed one instruction after the other |
| Machine.WrapIsRemainder | kernel/process/switch.asm:6 | addresses wrap around as 64-bit registers do |
| Machine.RunConcat | kernel/process/switch.asm:3-59 | code in two pieces runs as the pieces do |
| Machine.RunStores | kernel/process/switch.asm:8-22 | a block of stores leaves every register in its field and changes no word outside them |
| Machine.RunLoads | kernel/process/switch.asm:32-43 | a block of loads fills every register named from its field |
| Machine.RunPushes | kernel/interrupts/interrupt.asm:4-14 | a block of pushes puts the registers below the stack pointer in order |
| Machine.RunPops | kernel/interrupts/interrupt.asm:16-26 | a block of pops takes them back |
| FlagBits.AddFlagsAre | kernel/process/switch.asm:6 | an addition sets carry, parity, adjust, zero, sign and overflow as the sum says, and no other bit of the flags: neither interrupts nor the direction |
| FlagBits.WithFlagKeeps | kernel/process/switch.asm:6 | setting one bit of the flags leaves every other one |
| ContextSwitch.SwitchTaskSwitches | kernel/process/switch.asm:3-59 | for every state with separate areas and stacks: the whole old context is saved, field by field as struct Registers has it, the flags but for six arithmetic bits; the new one is loaded except rcx, rax gets the saved rcx, and no word outside the area and the two stack ends changes |
| InterruptedCode.ExecutesAgrees | kernel/process/switch.asm:3-59 | code that reads only what interrupts keep ends, however it is interrupted, as it does without interrupts |
| InterruptedSwitch.InterruptedSwitchSwitches | kernel/process/switch.asm:3-59 | interrupted anywhere, on the old stack and on the new one, switchTask switches and ends in a state that cannot be told from that of a plain run |
| TaskRuns.SwitchTaskYields | kernel/process/task.c:14-19 | the code, uninterrupted, makes the step that runs are made of |
| TaskRuns.SwitchesYields | kernel/process/switch.asm:3-59 | interrupted between any two instructions, to any depth, the code makes the same step |
| TaskRuns.InterruptedComputes | kernel/interrupts/interrupt.asm:28-100 | an interrupt of the running task changes no task's structure and no other task's stack |
| TaskRuns.TaskCanBeInterrupted | kernel/interrupts/interrupt.asm:28-100 | interrupts that write kernel data, nested to any depth, can happen in every state with enough stack |
| TaskRuns.SwitchCanBeInterrupted | kernel/process/switch.asm:3-59 | with enough of both stacks, a switch can be interrupted after any number of instructions on the old stack and after any number on the new one |
| TaskRuns.StepKeepsInv | kernel/process/task.c:14-19 | computing, being interrupted and yielding keep the ring, and every waiting task ready |
| TaskRuns.TraceInv | kernel/process/task.c:14-19 | so does every run |
| TaskRuns.OthersKeep | kernel/process/task.c:14-19 | nothing that other tasks do changes a waiting task's area or its stack from the saved pointer up |
| TaskRuns.TaskContinues | kernel/process/switch.asm:3-59 | over every run, with interrupts anywhere in the tasks and in the switches, a task that yielded resumes with its rip, rsp, all flags but six arithmetic ones, all registers but rax and rcx, and with its stack |
| Tasking.Scheduler.CreateTask | kernel/process/task.c:27-40 | the fields of a new task; rbp and r8 to r15 are not set |
| Tasking.Scheduler.InitTasking | kernel/process/task.c:50-61 | the ring of two tasks meets the invariant of runs |
| Tasking.Scheduler.Yield | kernel/process/task.c:14-19 | a call of yield is one step of a run, made by executing the assembly, and of the kind that may be interrupted; the two structures field by field |
| Interrupts.EnteredEnters | kernel/interrupts/isr.h:6-12 | the handler finds the interrupted registers, vector and error code in its frame, and the processor's frame behind, if the stub matches what was pushed |
| Interrupts.EveryVectorEnters | kernel/interrupts/interrupt.asm:51-100 | for every vector but 21 and 29, with the error codes that processors push, the handler starts with its frame in the order of the structure, the right error code, its return address, and with interrupts, traps and the direction flag off and no other flag changed |
| Interrupts.EveryVectorReturns | kernel/interrupts/interrupt.asm:28-81 | with such a processor the return frame is found for every vector but 21 and 29, and for these it is missed by one word |
| Interrupts.DeliveredAsExpectedIff | kernel/interrupts/interrupt.asm:51-82 | such a processor's interrupts are those of the theorems on nesting for every vector but 21 and 29, and for these they are not |
| Interrupts.LeftRestores | kernel/interrupts/interrupt.asm:28-35 | after a handler that keeps the calling convention, and writes what it likes outside its caller's stack, everything is restored |
| Interrupts.ReturnFrameFoundIff | kernel/interrupts/interrupt.asm:37-49 | the return frame is found if and only if the stub matches what the processor pushed |
| Interrupts.HandlerKeepsStack | kernel/interrupts/interrupt.asm:83-90 | whatever a handler writes elsewhere and whatever interrupts it, the stack of its caller is kept |
| Interrupts.InterruptIsTransparent | kernel/interrupts/interrupt.asm:28-100 | for every state, every nesting and handlers that write any memory but the interrupted stack, all registers, flags, rip, rsp and the stack are as they were |
| Interrupts.EnterHandler | kernel/interrupts/interrupt.asm:28-32 | executing the stub, the handler finds the interrupted registers and its frame, for every vector but 21 and 29 in the order of the structure |
| Interrupts.LeaveHandler | kernel/interrupts/interrupt.asm:33-35 | executing the way back restores the interrupted state |
| Interrupts.NestingCanHappen | kernel/interrupts/interrupt.asm:28-100 | such nestings of every depth exist, for every vector and every state with enough stack, with handlers that write any word outside the stack |
| CString.Memcpy | kernel/lib/string.c:5-14 | the destination gets the source for areas that do not overlap upwards |
| CString.Memset | kernel/lib/string.c:16-24 | exactly the bytes of the area are set |
| CString.Memmove | kernel/lib/string.c:26-41 | the destination gets the old source for every overlap, and nothing else changes |
| CString.CopyUp | kernel/lib/string.c:30-33 | the ascending loop is right if the destination is not above within the source |
| CString.CopyDown | kernel/lib/string.c:34-38 | the descending loop is right if the destination is not below |
| CString.Strlen | kernel/lib/string.c:57-63 | the number of characters before the first NUL |
| CString.Strcmp | kernel/lib/string.c:65-77 | the comparison of the two texts, reading past neither terminator |
| CString.CompareEqual | kernel/lib/string.c:65-77 | zero exactly for equal texts |
| CString.CompareAtDifference | kernel/lib/string.c:65-77 | the result is the difference of the two signed characters where the texts first differ |
| CString.CompareAntisymmetric | kernel/lib/string.c:65-77 | swapping the strings negates the result |
| CString.CompareTransitive | kernel/lib/string.c:65-77 | the order is transitive |
| CString.Strcpy | kernel/lib/string.c:79-86 | the characters are copied, the NUL is not |
| CString.StrcpyNeedsZero | kernel/lib/string.c:79-86 | the copy reads as the source if and only if a NUL was already behind it |
| CString.ReverseRange | kernel/lib/string.c:92-97 | swapping from both ends reverses the bytes |
| CString.Reverse | kernel/lib/string.c:88-99 | the string is reversed in place |
| NumberText.ParseOfText | kernel/lib/stdlib.c:26-36 | parsing the text gives the value back, in every base |
| NumberText.DigitAt | kernel/lib/stdlib.c:26-36 | each character is that of its digit, counted from the character "0" |
| NumberText.NoLeadingZero | kernel/lib/stdlib.c:29-33 | the text starts with the digit zero if and only if the value is zero |
| NumberText.DigitCount | kernel/lib/stdlib.c:29-33 | n digits are enough if and only if the value is below the n-th power of the base |
| NumberText.PrintBufferHoldsIff | kernel/lib/print.c:8-14 | text and terminator fit 20 bytes if and only if the value is below 10^19 |
| NumberText.WriteDigits | kernel/lib/stdlib.c:29-33 | the loop writes the digits, lowest first |
| NumberText.Uint64toa | kernel/lib/stdlib.c:26-36 | the string left in memory is the value's text |
| NumberText.ParseOfSignedText | kernel/lib/stdlib.c:6-24 | parsing the signed text gives the value back with its sign |
| NumberText.MinusInFront | kernel/lib/stdlib.c:19-23 | the text of a negative number is "-" and the text of its absolute value |
| NumberText.Itoa | kernel/lib/stdlib.c:6-24 | the string left in memory is the signed value's text |
| RamdiskAllocation.GrantedEntriesAreZero | kernel/memory/pmm.c:93 | all bytes of the directory entries are zero when the allocator grants them |
| RamdiskAllocation.ReadyToMount | kernel/filesystem/initrd.c:51-52 | after the two allocations the image outside the region is as it was and the entries are zero, which is what mounting asks for |
| RamdiskAllocation.BootRamdisk | kernel/kernel.c:196-220 | from the boot loader's image, with any heap and whatever overlaps in it: every entry of the image is listed if the heap grants both requests, which can be told before, and nothing is listed otherwise |
| KernelBoot.StartKernel | kernel/kernel.c:177-220 | on a zeroed region, through the two buffers and what is written into them: every entry of the image is listed if and only if the levels of three requests say so |
| RamdiskMount.WriteHeader | kernel/filesystem/initrd.c:100 | turning one offset into an address leaves the other headers as they are |
| RamdiskMount.WriteEntry | kernel/filesystem/initrd.c:102-103 | one more entry leaves the earlier ones as they are and the later ones zero |
| RamdiskMount.MountedEntry | kernel/filesystem/initrd.c:102 | after the mount every entry reads as its name |
| RamdiskMount.MountedHasLayout | kernel/filesystem/initrd.c:55-103 | image, entries and relocated headers lie byte by byte as the structures have them |
| RamdiskMount.MountedBytes | kernel/filesystem/initrd.c:95-103 | the mount does not touch the bytes of the files |
| RamdiskMount.StaysMounted | kernel/filesystem/initrd.c:15-42 | writing elsewhere does not unmount it |
| Ramdisk.ReadStaysInsideIff | kernel/filesystem/initrd.c:18-21 | a read stays in its file if and only if it starts behind the end or offset and size do not wrap |
| Ramdisk.ReadsCompose | kernel/filesystem/initrd.c:15-24 | a read of a + b bytes is a read of a bytes and the following one of b |
| Ramdisk.ChunksRebuildFile | kernel/filesystem/initrd.c:15-24 | chunked reads of any positive size end and rebuild the file |
| Ramdisk.LookupFindsSelfIff | kernel/filesystem/initrd.c:37-40 | looking up an entry's name finds that entry if and only if no earlier one has the name |
| Ramdisk.NodeLengthReadsFileIff | kernel/filesystem/initrd.c:110 | reading as many bytes as a file's node says gives the whole file if and only if it is shorter than 4 GiB |
| Ramdisk.Initrd.InitialiseInitrd | kernel/filesystem/initrd.c:44-122 | every well-formed ramdisk is mounted: image, entries and addresses byte by byte, every field of every node, and no other memory |
| Ramdisk.Initrd.WriteDirent | kernel/filesystem/initrd.c:102-103 | one entry has its name and number, thanks to the zero behind the name |
| Ramdisk.Initrd.RelocateHeader | kernel/filesystem/initrd.c:100 | one offset becomes an address |
| Ramdisk.Initrd.AddFiles | kernel/filesystem/initrd.c:95-120 | the loop over the files |
| Ramdisk.Initrd.ReadDirectory | kernel/filesystem/initrd.c:26-33 | every index below the number of entries has one, and no other |
| Ramdisk.Initrd.FindDirectory | kernel/filesystem/initrd.c:35-42 | the first entry with the name, or NULL exactly if there is none |
| Ramdisk.Initrd.Read | kernel/filesystem/initrd.c:15-24 | the buffer gets the file's bytes as they were before the mount, clamped to its end |
| Ramdisk.Initrd.ReaddirFs | kernel/filesystem/file.c:37-43 | only directories can be listed |
| Ramdisk.Initrd.FinddirFs | kernel/filesystem/file.c:45-51 | only directories can be searched |
| Ramdisk.Initrd.ReadFs | kernel/filesystem/file.c:5-12 | files are read, directories give nothing |
| Ramdisk.Initrd.List | kernel/kernel.c:200-220 | the listing visits every entry once, finds the first node of its name and shows its first 256 bytes |
| Ramdisk.Initrd.MountAndList | kernel/kernel.c:196-220 | mounting and listing, from the image and zeroed entries |
| Ramdisk.ListingShowsOwnEntriesIff | kernel/kernel.c:203-220 | every line shows its own entry if and only if no two entries have the same name |
| Ramdisk.PrintedIsFile | kernel/kernel.c:214-217 | once the buffer has been cleared, what is printed of a short text file is the file |
| AhciLayout.AreasPartition | kernel/devices/ahci.c:107-128 | the areas of all ports lie side by side: each address belongs to exactly one |
| AhciLayout.AreasAligned | kernel/devices/ahci.c:107-128 | lists, received FISes and tables are aligned as the hardware asks |
| AhciLayout.OtherPortsKept | kernel/devices/ahci.c:107-128 | setting up a port leaves every area of the other ports alone |
| AhciLayout.Port.Rebase | kernel/devices/ahci.c:99-134 | the four registers and all 32 headers have their literal addresses and cleared tables, and memory of other ports is not touched |
| AhciLayout.RebaseStep | kernel/devices/ahci.c:120-131 | setting up one slot leaves the earlier ones as they are |
| AhciCommand.CoversBufferIff | kernel/devices/ahci.c:169-192 | the descriptors tile the buffer, in order and in pieces of at most 8 KiB, if and only if the sectors are at most 1048560 and the last piece starts below 4 GiB |
| AhciCommand.TotalIsRequestIff | kernel/devices/ahci.c:169-192 | their byte counts sum to 512 times the sectors if and only if the sectors are at most 1048560 |
| AhciCommand.SmallCount | kernel/devices/ahci.c:169 | up to there the length is the sectors divided by 16, rounded up |
| AhciCommand.CommandCountIff | kernel/devices/ahci.c:212-213 | the count in the command is that of the last piece, so it is the request if and only if there are at most 16 sectors |
| AhciCommand.FitsSlotIff | kernel/devices/ahci.c:122-123 | a table covers its buffer within its slot's 256 bytes if and only if there are at most 128 sectors and the last piece starts below 4 GiB |
| AhciTable.WritePrd | kernel/devices/ahci.c:178-181 | one descriptor with its two bit fields |
| AhciTable.FillTable | kernel/devices/ahci.c:175-192 | the loop writes all descriptors of the specification |
| AhciTable.WriteFis | kernel/devices/ahci.c:195-213 | the command carries the 48-bit sector number and the count |
| AhciBuild.WriteHeader | kernel/devices/ahci.c:162-169 | length, direction and table length of the header |
| AhciBuild.BuildCommand | kernel/devices/ahci.c:162-213 | header, descriptors and command in memory, byte by byte as the hardware reads them, and nothing written outside the header and its table; the hardware finds the table if and only if its address has no upper half |
| AhciBuild.HardwareTransfersIff | kernel/devices/ahci.c:162-213 | what the hardware reads back from memory, through all 64 bits of the table's address, transfers the caller's buffer under exactly the condition of CoversBufferIff |
| AhciBuild.CommandStaysInSlot | kernel/devices/ahci.c:162-213 | on a rebased port a command whose table fits changes only its own header and its own table |
| AhciRun.RunCommand | kernel/devices/ahci.c:151-228 | the command is built in the lowest slot that was free in the two readings, and that slot is still free when it is issued there; without a slot nothing is written, and a busy port is not issued to |
| AhciRun.TakenSlotsKept | kernel/devices/ahci.c:157-213 | a new command touches neither header nor table of a slot that was taken, so commands in flight keep what the disk reads |
| AhciRun.CommandKeepsReady | kernel/devices/ahci.c:162-171 | every header still names its own table, in both halves of the address |
| AhciRun.RebasedIsReady | kernel/devices/ahci.c:120-131 | a rebased port is ready for commands |
| AhciSystem.InvStarts | kernel/devices/ahci.c:151-155 | whatever commands were in the port before, runs may start |
| AhciSystem.StepKeepsInv | kernel/devices/ahci.c:151-254 | every step of the caller, of the disk and of anyone who writes elsewhere in memory keeps the commands in flight as they were built |
| AhciSystem.CommandsInFlightIntact | kernel/devices/ahci.c:151-254 | over every run of commands of at most 128 sectors, the header, table and FIS of each slot with a command in flight are still those of that slot's request |
| AhciSystem.RunProjects | kernel/devices/ahci.c:151-254 | a run of the system is a run of the slot protocol |
| AhciSystem.OneCommandPerSlot | kernel/devices/ahci.c:228-254 | over every run a slot has at most one command in flight and gets one only while it is free |
| AhciSystem.CommandIsRun | kernel/devices/ahci.c:151-228 | every outcome of runCommand is such a run: the two readings, the search, the command built, the issue, and the disk clearing bits in between |
| AhciSlots.FindCmdSlot | kernel/devices/ahci.c:137-149 | the lowest free slot, or -1 exactly if all are taken |
| AhciSlots.StepKeepsInv | kernel/devices/ahci.c:154-254 | bits that the caller has read as clear stay clear until it issues |
| AhciSlots.IssueIsToFreeSlot | kernel/devices/ahci.c:228 | in every run a command goes only to a slot that is free at that moment |
| AhciSlots.OneInFlight | kernel/devices/ahci.c:228-254 | per slot, the CI bit at the start plus the commands issued is the CI bit now plus the commands completed, in every run: never two in flight |
| AhciSlots.SearchSawTheRegisters | kernel/devices/ahci.c:140-148 | the slot is the lowest one free when the registers were read; without one, all 32 were taken then |
| Madt.LoopEndsIff | kernel/interfaces/description_tables/madt.c:27-62 | the loop ends if and only if every record it meets has one of the types 0 to 5 and 9 and is not empty |
| Madt.Records | kernel/interfaces/description_tables/madt.c:27-31 | the records come in ascending order and have known types |
| Madt.RowListsExactly | kernel/interfaces/description_tables/madt.c:31-60 | for rows 0 to 5 the list has exactly the records of that type, and for row 6 those of type 9, in the order of the table |
| Madt.EachRecordInOneRow | kernel/interfaces/description_tables/madt.c:31-60 | the seven lists together have as many members as there are records |
| Madt.SizesFillTable | kernel/interfaces/description_tables/madt.c:27-60 | the lengths sum to the table's length less 44 if and only if the last record ends with the table |
| Madt.Lists.ParseMADT | kernel/interfaces/description_tables/madt.c:18-63 | each of the seven arrays, by its name, holds exactly the records of its own type, in the order of the table, and keeps what was behind them |

## Left out

- PhysicalMemory.KernelHeap.KFree: requires the bytes that the header counts to be in memory, which they are in packed heaps, since memory is an array.
- AllocatorRuns.Step: a free through a header that a client has damaged so that it points past the end of memory changes nothing in the model; in runs of the theorems headers are intact, so it does not occur there.
- Allocator.BMalloc: requires the block to end within memory where the code does not look, since memory is an array.
- CString.Strcpy: the source string is a value, so a source that overlaps the destination is not modelled.
- NumberText.Itoa: the smallest `int` is left out, since negating it is undefined in C.
- NumberText.Uint64toa: bases above 208 are left out, since a digit's character would not fit a byte.
- Ramdisk.Initrd.InitialiseInitrd: both allocations succeed; the code does not look at their result.
- RamdiskAllocation.BootRamdisk: after a NULL it lists nothing, where the code would go on with the NULL; requests that do not fit the region are left out; and the mount works on the bytes of memory as the allocations leave it and is not written back to the allocator's words.
- KernelBoot.StartKernel: a sector and a text of any content stand for what the disk and the kernel write into the buffers.
- Ramdisk.Initrd.Read: requires that offset and size do not wrap around from within the file; `Ramdisk.ReadStaysInsideIff` says what happens otherwise.
- Ramdisk.Initrd.List: the text sent to the terminal is the entry's name and the buffer up to its first NUL; only the two byte sequences are modelled, and the first file is shown in a buffer that nothing has cleared.
- Tasking.Scheduler.CreateTask: the address of the new stack is a parameter; a failed allocation is not modelled.
- Tasking.Scheduler.Yield: cr3 is stored in the task but never loaded, as in the code; switching address spaces is left out.
- AhciRun.RunCommand: how the wait for completion ends, and with it the returned flag, is the disk's choice; the protocol has it as the events Completed and Failed.
- AhciSlots.StepKeepsInv: busy-waiting, time-outs and the liveness of the disk are events that may happen at any time.
- Madt.Lists.ParseMADT: requires at most 32 records of each type; the code would write behind its arrays.
- Madt.LoopEndsIff: tables whose length is within 255 bytes of 4 GiB, where the 32-bit sum of lengths can wrap, are left out.
- TLB flushing, reading cr3 and `initPML4`: effects on hardware.
- `startCMD`, `stopCMD`, `probePort` and the port registers other than the four addresses, SACT and CI: hardware handshakes and output.
- `memcmp`: no code of the kernel calls it.
- `open_fs`, `close_fs` and `write_fs`: no node of the ramdisk has these functions.
- Port input and output, serial line, PS/2, timer, APIC, PCI and PIC drivers: register accesses whose meaning lies in hardware.
- Boot code, terminal output and memory map printing: plumbing for the boot loader.
- GDT and IDT set-up: straight-line field splitting.
- ACPI table search and the keyboard handler: short sums, a first-match search and a small automaton.
- `simplefs.c`, `sfs.h`, `vfs.h` and `heap.c`: unfinished in the repository.
