# FOS: memory, paging, scheduling

A Dafny model of the core of the FOS teaching kernel, with proofs.

The central result is that demand paging is invisible. A program's loads and stores go through table
faults and page faults, victims chosen by FIFO, CLOCK or aging LRU, write-back through a borrowed
kernel page, two-level page tables found through the kernel heap's reverse map, reference-counted
frames and a page file with its own tables; over every run the program sees a flat memory, the victims are
those of a small replacement machine over slots, hand and used bits, and no other environment is affected
(`Paging.Env.Run`). On that machine FIFO is a queue and LRU evicts a page referenced least recently
(`Programs.FifoIsQueue`, `Programs.LruEvictsOldest`). Programs share the machine: from power-on, over every
sequence of creations, loads, stores, ticks, allocations, frees and exits, each sees its own flat memory
(`Machine.RunTogether`). Every operation keeps one invariant, which `EnvCreate.CreateEnvironment`
establishes from nothing, and which is all that `EnvFree.EnvFree` asks for.

The one thing that the kernel can take from a program is a page without a disk frame, which is a new page
that found the page file full. `Paging.Env.Run` and `Machine.RunTogether` say when: exactly when a miss on a
full working set evicts it. `Programs.NothingLost` and `Machine.NothingLostTogether` say when that cannot
happen: programs whose pages all have disk frames go on so if and only if every new page finds a free one, and
then nothing is lost.

| file | what it models |
|---|---|
| Common | definitions shared by the others |
| FrameAccounting | frames, references and the entries that name them |
| KernelMemory | memory_manager.c and kheap.c: frames, page tables, kernel heap |
| PageFile | file_manager.c: disk frames, disk tables, pages of each environment |
| AddressSpace, FlatMemory | the memory a program believes in, and how each step keeps it |
| LruAging, Replacement | the aging stamps; which slot a fault uses, by FIFO, CLOCK and LRU |
| Programs | runs of one program on demand-paged memory |
| Paging | trap.c and the working set: class `Env` and its fault handler |
| UserMemory, RequiredFrames | allocateMem, freeMem, calculate_required_frames |
| EnvCreate, EnvFree | env_create without the program's segments; env_free |
| Machine | environments that begin, take turns and exit |
| Failures | runs from power-on on which the kernel loses a page or a frame |
| UserHeap | both user heaps, and that they agree |
| Queue, Scheduler | the intrusive lists and the round-robin scheduler |
| Sorting, NumberFormat | the two sorts; printing and parsing numbers |

Objects that the source updates in place are classes with the source's fields; their ghost fields
(`held`, `blocks`, `flat`, `blank`, `log`, `live`, `elems`, `cursor`) have no effect on the others.
`Memory.lost` counts the words that env_free has left in freed tables, and `Memory.litter` has those that frames
hold from earlier uses. Pages and
frames are named by number, so an address is a page number and an offset. Heap size, working-set
size, frame count and disk-frame count are parameters. A page-table entry has the fields of the Intel
SDM volume 3A, section 4.3, that the kernel reads or writes; the accessed and dirty bits are set by
the model's loads and stores as in section 4.8.

Six places where the code does not do all its documentation promises are stated as exact conditions, each
with an input on which it fails:

- `page_fault_handler` ignores a full page file when it places a new stack page. The page then has no disk
  frame and is lost at its eviction (`Paging.Env.PageFault`: the victim is lost if and only if it has no disk
  frame; `Failures.FullPageFileLoses`).
- `env_free` frees the mirror's page tables before the working set's pages are unmapped. The frame of a
  resident page in the same table is lost (`EnvFree.EnvFree`: every frame comes back if and only if there is
  no such page; `EnvFree.LeakReachable`: the lowest stack page is one; `Failures.DeepStackLeaks`).
- `freeMem` looks for a page among the working-set slots by address, and an empty slot has address 0. A
  resident page 0 behind an empty slot is unmapped but keeps its slot (`UserMemory.FreeMem`: working set and
  page tables agree if and only if this is not the case; `UserMemory.FreePageZeroFails`,
  `Failures.PageZeroLost`).
- `calculate_required_frames` counts a table that an empty range does not need
  (`RequiredFrames.PredictionExact`; `RequiredFrames.CountsUnneeded`).
- `printnum` prints the padding '-' on the left and %d prints the sign before the padding, so some padded
  numbers are not read back (`NumberFormat.RoundTrip`, `NumberFormat.SignedRoundTrip`;
  `NumberFormat.PaddingMisread`).
- Next fit does not see a free run that lies across its starting point (`UserHeap.FoundIffFits`;
  `UserHeap.NextFitMisses`).

The stack's lower bound is computed in 32 bits in the source and wraps; `Paging.STACK_BOTTOM_PAGE` keeps
the wrapped value.

## Model

| member | source | states |
|---|---|---|
| `FrameAccounting.ConservedAfterMap` | FOS_Project_2016_Template/kern/memory_manager.c:633-634 | Frame conservation (a usable frame is on the free list exactly once with no references, or off it with exactly as many references as present entries name it) survives writing an entry and counting it |
| `FrameAccounting.ConservedAfterUnmap` | FOS_Project_2016_Template/kern/memory_manager.c:464-468 | Conservation survives clearing an entry and dropping its reference; the frame returns to the head of the list exactly when that was its last reference |
| `FrameAccounting.ConservedAfterTouch` | FOS_Project_2016_Template/kern/memory_manager.c:1271-1272 | Conservation survives any change of permission bits |
| `FrameAccounting.ConservedAfterMove` | FOS_Project_2016_Template/kern/user_environment.c:687-693 | Conservation survives a word left behind in a freed table: no entry any more, but still counted in its frame's references |
| `FrameAccounting.TwoNamers` | FOS_Project_2016_Template/kern/file_manager.c:282-288 | While a frame is borrowed through USER_LIMIT and its own page still names it, it has at least two references, so ending the loan cannot free it |
| `KernelMemory.Memory.constructor` | FOS_Project_2016_Template/kern/memory_manager.c:322-385 | After initialize_paging the usable frames are exactly the free list and the whole memory invariant holds |
| `KernelMemory.Memory.AllocateFrame` | FOS_Project_2016_Template/kern/memory_manager.c:411-441 | Takes the head of the free list with 0 references and keeps conservation; the frame is one that no entry names, and holds the words of its earlier use |
| `KernelMemory.Memory.DecrementReferences` | FOS_Project_2016_Template/kern/memory_manager.c:464-468 | Exactly one reference is dropped and the frame is freed exactly when that was the last |
| `KernelMemory.Memory.MapSlot` | FOS_Project_2016_Template/kern/memory_manager.c:622-636 | After the table walk: mapping a frame where it already is changes nothing; otherwise the old frame loses its reference, the entry names the new frame, and conservation holds |
| `KernelMemory.Memory.UnmapSlot` | FOS_Project_2016_Template/kern/memory_manager.c:684-697 | After the table walk: exactly this entry goes, its frame loses one reference, and an empty entry changes nothing |
| `KernelMemory.Memory.GrowHeap` | FOS_Project_2016_Template/kern/kheap.c:146-151 | One kmalloc round: a fresh frame behind the next heap page and the reverse map naming that page, heap and conservation invariants kept |
| `KernelMemory.Memory.GrowHeapBy` | FOS_Project_2016_Template/kern/kheap.c:146-152 | The loop maps consecutive heap pages to the first `size` free frames in order; frames backing older pages keep their reverse entries |
| `KernelMemory.Memory.Kmalloc` | FOS_Project_2016_Template/kern/kheap.c:133-177 | NULL and no change at all when the heap range is exhausted; otherwise a block of that many fresh pages at the old top, disjoint from every live block, recorded below the end of the record array |
| `KernelMemory.Memory.TranslationsInverse` | FOS_Project_2016_Template/kern/kheap.c:212-241 | kheap_virtual_address and kheap_physical_address are inverse on live heap pages, a frame backing no heap page translates to 0, and the record index is inside its array |
| `KernelMemory.Memory.ShrinkHeap` | FOS_Project_2016_Template/kern/kheap.c:190-191 | One kfree round unmaps one page and clears its frame's reverse entry; on an unmapped page nothing changes |
| `KernelMemory.Memory.ShrinkHeapBy` | FOS_Project_2016_Template/kern/kheap.c:189-193 | The kfree loop unmaps exactly the pages of the run and clears exactly the reverse entries that named them |
| `KernelMemory.Memory.FindRecord` | FOS_Project_2016_Template/kern/kheap.c:182-188 | The search stops at the first record with the address |
| `KernelMemory.Memory.Kfree` | FOS_Project_2016_Template/kern/kheap.c:179-210 | A live block's pages, reverse entries and record go and no other block changes; freeing a block that is no longer live changes nothing |
| `KernelMemory.BlocksApart` | FOS_Project_2016_Template/kern/kheap.c:133-210 | Live blocks are disjoint: freeing one leaves every page of the others mapped |
| `KernelMemory.Memory.KmallocOther` | FOS_Project_2016_Template/kern/user_environment.c:211-231 | A kernel-heap block for anything but a user page table (directory, working-set array, disk tables) leaves every user translation as it was |
| `KernelMemory.Memory.KfreeOther` | FOS_Project_2016_Template/kern/kheap.c:179-210 | Freeing such a block leaves every other block, every user entry and every user translation as it was |
| `KernelMemory.SlotsDistinct` | FOS_Project_2016_Template/kern/memory_manager.c:479-529 | Two user pages, of the same or of different environments, never share a page-table slot |
| `KernelMemory.PageIsSplit` | FOS_Project_2016_Template/kern/memory_manager.c:479-529 | Directory index and table index are the two parts of the page number |
| `KernelMemory.Memory.GetPageTable` | FOS_Project_2016_Template/kern/memory_manager.c:479-529 | The table is found, through the reverse map of the kernel heap, exactly when the directory entry is set, and the address found is the one the directory's frame backs |
| `KernelMemory.Memory.CreatePageTable` | FOS_Project_2016_Template/kern/memory_manager.c:531-544 | A table in a new heap block, swept of whatever its frame held, is linked into the directory; no translation of any environment changes, whatever tables were freed before they were empty |
| `KernelMemory.Memory.ZeroTable` | FOS_Project_2016_Template/kern/memory_manager.c:539 | The loop clears the 1024 entries of this table, those left from earlier uses of its frame included, and no others |
| `KernelMemory.Memory.MapFrame` | FOS_Project_2016_Template/kern/memory_manager.c:575-637 | The page is mapped to the frame with the permissions, a missing table is created first, mapping the same frame again changes nothing, and no other page's translation changes |
| `KernelMemory.Memory.UnmapFrame` | FOS_Project_2016_Template/kern/memory_manager.c:684-697 | The page is unmapped and its frame loses one reference; an unmapped page changes nothing; no other page's translation changes |
| `KernelMemory.Memory.SetBits` | FOS_Project_2016_Template/kern/memory_manager.c:1253-1297 | The used and modified bits of one page change, and no frame, other permission or other page; also the processor's update on a load or store |
| `KernelMemory.Memory.MapScratch` | FOS_Project_2016_Template/kern/file_manager.c:282 | A victim's frame is mapped at USER_LIMIT, gaining one reference, with all invariants kept |
| `KernelMemory.Memory.UnmapScratch` | FOS_Project_2016_Template/kern/file_manager.c:284-288 | The temporary extra reference keeps unmap_frame from freeing the frame; afterwards the counts are those before the loan and the free list is unchanged |
| `KernelMemory.Memory.ReadThroughScratch` | FOS_Project_2016_Template/kern/file_manager.c:282-288 | Reading a victim through USER_LIMIT yields its frame's contents and leaves entries, reference counts and free list as they were |
| `KernelMemory.Memory.DropTable` | FOS_Project_2016_Template/kern/user_environment.c:690-692 | A table goes back to the kernel heap and its directory entry goes; the frames of the pages still mapped through it become lost references, exactly those; some are lost if and only if a page was mapped through it; every other translation stays |
| `KernelMemory.Memory.LeaveTable` | FOS_Project_2016_Template/kern/user_environment.c:687-693 | The pages mapped through the table lose their mapping, but their frames keep the references of the words left in it; none is lost if and only if the table was empty |
| `KernelMemory.Memory.LeaveBehind` | FOS_Project_2016_Template/kern/user_environment.c:687-693 | Of the table's 1024 entries exactly those present become lost references, and frame conservation holds |
| `KernelMemory.Memory.DropEmptyTable` | FOS_Project_2016_Template/kern/user_environment.c:690-692 | A table without entries goes back to the kernel heap with its directory entry, and no translation of any environment changes |
| `KernelMemory.Memory.DropTableIfEmpty` | FOS_Project_2016_Template/kern/memory_manager.c:815-830 | A page table goes back to the kernel heap exactly when all its 1024 entries are zero, and no translation changes |
| `KernelMemory.Memory.LostFrame` | FOS_Project_2016_Template/kern/user_environment.c:687-693 | The frame of a word left behind in a freed table keeps a reference and is on no free list, although no environment is mapped to it through that word |
| `KernelMemory.Memory.NoFrameLost` | FOS_Project_2016_Template/kern/user_environment.c:716-751 | A usable frame that is not free, backs no heap page and is named by no lost word is mapped at some environment's page |
| `KernelMemory.Memory.MappedFrame` | FOS_Project_2016_Template/kern/memory_manager.c:649-668 | The frame of a mapped page is a usable frame that is not on the free list |
| `KernelMemory.Memory.OneReference` | FOS_Project_2016_Template/kern/memory_manager.c:684-697 | A frame that exactly one user page and no heap page is mapped to has exactly one reference, so unmapping that page frees it |
| `KernelMemory.Memory.HeapPageOwner` | FOS_Project_2016_Template/kern/kheap.c:133-210 | Every mapped heap page lies in a live block |
| `KernelMemory.Memory.HeapFrame` | FOS_Project_2016_Template/kern/kheap.c:226-241 | The frame behind a heap page is a usable frame that is not on the free list |
| `KernelMemory.Memory.AllocateUserFrame` | FOS_Project_2016_Template/kern/trap.c:541-543 | The frame for a faulting page is named by no page of any environment, so filling it is invisible to all of them |
| `KernelMemory.Memory.StoreFrame` | FOS_Project_2016_Template/kern/file_manager.c:333 | A copy into a resident page's frame changes that frame's contents only |
| `PageFile.PageFile.constructor` | FOS_Project_2016_Template/kern/file_manager.c:87-100 | Frames 1 to PAGES_PER_FILE-1 are all free, without duplicates; frame 0 never is |
| `PageFile.OwnershipAfterAllocate` | FOS_Project_2016_Template/kern/file_manager.c:217-222 | Giving the head of the free list to a page keeps disk frames split exactly between the duplicate-free free list and the (environment, page) entries, no two entries naming the same frame |
| `PageFile.OwnershipAfterRelease` | FOS_Project_2016_Template/kern/file_manager.c:356-358 | Clearing an entry and freeing its frame keeps that split |
| `PageFile.DiskFramesCount` | FOS_Project_2016_Template/kern/file_manager.c:87-100 | Every disk frame but number 0 is counted once: the free ones and the owned ones are PAGES_PER_FILE-1 together |
| `PageFile.DiskFramesShared` | FOS_Project_2016_Template/kern/file_manager.c:217-222 | While the other environments' entries stay, the free disk frames and those of one environment keep their sum: what it gets the free list loses, and the reverse |
| `PageFile.PageFile.GetDiskPageDirectory` | FOS_Project_2016_Template/kern/file_manager.c:439-474 | The environment has a disk directory afterwards; an existing one is untouched; no user translation changes |
| `PageFile.PageFile.FindDiskPageTable` | FOS_Project_2016_Template/kern/file_manager.c:145-202 | Without `create`: the disk table is found exactly when the disk directory has an entry for it |
| `PageFile.PageFile.GetDiskPageTable` | FOS_Project_2016_Template/kern/file_manager.c:145-202 | With `create`: the disk table exists afterwards and no other table is added |
| `PageFile.PageFile.CreateDiskTables` | FOS_Project_2016_Template/kern/file_manager.c:213-215 | Exactly the directory and the table of the page are added, taking exactly the heap pages that were missing |
| `PageFile.PageFile.AddEmptyPage` | FOS_Project_2016_Template/kern/file_manager.c:204-226 | Fails exactly when the page has no disk frame and none is free; a page that has one keeps it; otherwise it gets the head of the free list; ownership stays an exact split |
| `PageFile.PageFile.AddPage` | FOS_Project_2016_Template/kern/file_manager.c:228-257 | The same, and the page's block holds the data and no other block changes |
| `PageFile.PageFile.UpdatePage` | FOS_Project_2016_Template/kern/file_manager.c:259-298 | The page's own block receives the frame's contents, or the missing-page error; page tables, reference counts and free list are as before |
| `PageFile.PageFile.ReadPage` | FOS_Project_2016_Template/kern/file_manager.c:317-341 | The page's frame receives its own block with the modified bit clear, or the missing-page error and no change |
| `PageFile.PageFile.RemovePage` | FOS_Project_2016_Template/kern/file_manager.c:343-360 | Exactly this page's entry goes and its frame is freed; a missing directory, table or entry changes nothing |
| `PageFile.PageFile.ClearDiskEntry` | FOS_Project_2016_Template/kern/file_manager.c:388-391 | One entry goes and its frame is freed; an entry that is zero frees nothing |
| `PageFile.PageFile.FreeDiskTable` | FOS_Project_2016_Template/kern/file_manager.c:383-399 | All pages of one disk table and the table's block go, and nothing else |
| `PageFile.PageFile.FreeDiskTables` | FOS_Project_2016_Template/kern/file_manager.c:366-404 | All disk tables of the environment and all its pages go; every other environment's stay |
| `PageFile.PageFile.FreeEnv` | FOS_Project_2016_Template/kern/file_manager.c:362-417 | Every disk frame, disk table and the disk directory of the environment go back, exactly those, and disk-frame ownership stays an exact split |
| `AddressSpace.AfterWriteBack` | FOS_Project_2016_Template/kern/trap.c:529-533 | Writing a victim's frame to its own block keeps the flat view of memory, and makes the block current |
| `AddressSpace.AfterUnmap` | FOS_Project_2016_Template/kern/trap.c:534 | Unmapping a page whose block is current keeps the flat view; a page without a block leaves it, and no other page does |
| `AddressSpace.AfterPlace` | FOS_Project_2016_Template/kern/trap.c:541-548 | Mapping a fresh frame filled from the page's own block keeps the flat view |
| `AddressSpace.AfterPlaceFresh` | FOS_Project_2016_Template/kern/trap.c:549-553 | A new stack page joins the flat view with arbitrary contents |
| `AddressSpace.AfterPlaceUnbacked` | FOS_Project_2016_Template/kern/trap.c:551 | A new stack page that got no disk frame joins the flat view like any other |
| `AddressSpace.AfterNewBlock` | FOS_Project_2016_Template/kern/file_manager.c:217-222 | A page that gets a disk frame while it is not resident joins the flat view with that block's contents; one that is resident keeps its contents |
| `AddressSpace.AfterTouch` | FOS_Project_2016_Template/kern/trap.c:517-520 | Changing used bits, or setting a modified bit, keeps the flat view |
| `AddressSpace.AfterStore` | FOS_Project_2016_Template/kern/trap.c:490-563 | A program's store changes exactly its page in the flat view and marks the page modified |
| `Programs.LoadReturnsLastStore` | FOS_Project_2016_Template/kern/trap.c:490-563 | In every run a load returns the last value stored to its byte, unless the page was evicted without a disk frame in between |
| `Programs.LoadReturnsFirstByte` | FOS_Project_2016_Template/kern/trap.c:490-563 | With no store before it, a load returns the byte that the page had at the start, unless the page was evicted without a disk frame |
| `Programs.DiskFrameStays` | FOS_Project_2016_Template/kern/trap.c:490-563 | On every run a page with a disk frame keeps it, and so is never lost |
| `Programs.NothingLost` | FOS_Project_2016_Template/kern/trap.c:549-553 | From a program whose pages all have disk frames: they go on having them if and only if every page that is new to the program finds one free, and then the run loses nothing |
| `Programs.WholeStep` | FOS_Project_2016_Template/kern/trap.c:490-563 | After every operation each page is still resident or on disk, and no page is in two slots |
| `Programs.EvictsWhen` | FOS_Project_2016_Template/kern/trap.c:490-535 | An operation evicts a page exactly when it misses while the set holds as many pages as slots; the page was resident and leaves, the missed page comes, all others stay |
| `Programs.LruEvictsOldest` | FOS_Project_2016_Template/kern/trap.c:495-504 | On every run each page that LRU evicts is one that was referenced least recently, by the histories that the run has added to those at its start |
| `Programs.FifoIsQueue` | FOS_Project_2016_Template/kern/trap.c:506-508 | Under FIFO, set and hand move as a queue of exactly the pages that the operations miss on, in order |
| `Programs.RunRecorded` | FOS_Project_2016_Template/kern/trap.c:490-563 | At every point of a run the working set is what its ticks, evictions and placements make of the first one |
| `Paging.Env.constructor` | FOS_Project_2016_Template/kern/user_environment.c:294-301 | All slots of the working set are empty, the hand is at slot 0 and the program has no page |
| `Paging.Env.WsSize` | FOS_Project_2016_Template/kern/memory_manager.c:968-973 | The number of occupied slots, which equals the set size exactly when the set is full |
| `Replacement.ResidentCount` | FOS_Project_2016_Template/kern/memory_manager.c:968-973 | The working set holds as many different pages as it has occupied slots |
| `Paging.Env.LruVictim` | FOS_Project_2016_Template/kern/trap.c:495-504 | The lowest slot with the least stamp below the sentinel, or the hand when no stamp is below it |
| `Paging.Env.ClockVictim` | FOS_Project_2016_Template/kern/trap.c:510-524 | At most set-size+1 inspections; the first slot from the hand with a clear used bit, or the hand itself if all were set; exactly the bits of the slots passed are cleared |
| `Paging.Env.ClearUsed` | FOS_Project_2016_Template/kern/trap.c:520 | One used bit is cleared and the state stays valid |
| `Paging.Env.WriteBack` | FOS_Project_2016_Template/kern/trap.c:529-533 | Afterwards the victim's disk block, if it has one, equals the memory the program believes the page has, whether or not a write was needed |
| `Paging.Env.Evict` | FOS_Project_2016_Template/kern/trap.c:526-535 | The victim is unmapped, its slot emptied and its frame heads the free list; its contents are safe on disk, or the program loses exactly this page if it has no disk frame; no other page of this or any environment changes |
| `Paging.Env.Unload` | FOS_Project_2016_Template/kern/trap.c:534-535 | The same for a victim whose block is current |
| `Paging.Env.VictimAlone` | FOS_Project_2016_Template/kern/trap.c:534 | A resident page's frame has exactly one reference, because no other page and no heap page shares it |
| `Paging.Env.NextEmpty` | FOS_Project_2016_Template/kern/trap.c:538-540 | The first empty slot from the start in hand order |
| `Paging.Env.ChooseVictim` | FOS_Project_2016_Template/kern/trap.c:495-524 | The victim slot is the one the algorithm in force defines, and exactly CLOCK clears used bits, those of the slots it passes; modified CLOCK has no branch and takes the hand like FIFO |
| `Paging.Env.MakeRoom` | FOS_Project_2016_Template/kern/trap.c:492-540 | A full set loses exactly its victim, which the algorithm in force defines, and gains one free frame; the program loses the victim's page exactly when it has no disk frame; a set with room is unchanged and its first empty slot from the hand is used; beside that slot the used bits change under CLOCK alone |
| `Paging.Env.Fetch` | FOS_Project_2016_Template/kern/trap.c:541-545 | The page is mapped to a fresh frame that holds its disk block exactly when it has one |
| `Paging.Env.PlaceStackPage` | FOS_Project_2016_Template/kern/trap.c:549-553 | The page is mapped, recorded and part of the program's memory; it gets the first free disk frame, and none, without complaint, when the page file is full |
| `Paging.Env.GiveDiskFrame` | FOS_Project_2016_Template/kern/trap.c:551 | The mapped page gets the first free disk frame, or the ignored error exactly when none is free; no mapping changes |
| `Paging.Env.Place` | FOS_Project_2016_Template/kern/trap.c:541-558 | A page of the page file or the stack is mapped and recorded in the slot, taking one frame and its missing disk tables; any other ends in the panic with the frame given back and nothing changed |
| `Paging.Env.MoveHand` | FOS_Project_2016_Template/kern/trap.c:561 | The hand moves to the slot after the one used and stays below the set size |
| `Paging.Env.PlaceAndMove` | FOS_Project_2016_Template/kern/trap.c:541-562 | The same and the hand moves behind the slot; the page is marked used and may be read and written by the program |
| `Paging.Env.PageFault` | FOS_Project_2016_Template/kern/trap.c:490-563 | The page takes the slot that the algorithm in force defines for the set, hand and used bits it finds, the hand moves behind it and only CLOCK clears used bits; under LRU the victim is a page referenced least recently since the environment began; the page may be read and written by the program; the program's memory is as before, except that a new stack page joins it and that a victim without a disk frame is lost; it takes one frame, unless the victim supplies it, and the missing disk tables |
| `Paging.Env.TableFault` | FOS_Project_2016_Template/kern/trap.c:468-482 | A table is created for the faulting address and no translation of any environment changes |
| `Paging.Env.StampSlot` | FOS_Project_2016_Template/kern/sched.c:555-571 | One slot's stamp ages by its used bit, which is then cleared |
| `Paging.Env.UpdateStamps` | FOS_Project_2016_Template/kern/sched.c:553-573 | Every occupied slot's stamp ages by its page's used bit, all those bits end clear, no other environment changes |
| `Paging.Env.StampsIfLru` | FOS_Project_2016_Template/kern/trap.c:217-227 | Under LRU every occupied slot's stamp ages by its used bit, which ends clear, before the fault is handled; under any other algorithm nothing changes |
| `Paging.Env.Access` | FOS_Project_2016_Template/kern/trap.c:416-464 | A resident page changes nothing and takes nothing; otherwise a table fault if the table is missing, then a page fault in the slot that the algorithm defines, after which the page is resident and the believed memory is as before, except that a new stack page joins it and that a victim without a disk frame is lost; or the panic, exactly for a page that is neither in the program's memory nor in the stack |
| `Paging.Env.Fault` | FOS_Project_2016_Template/kern/trap.c:416-464 | The same for a page that is not resident: the stamps age once before the page fault and once more before a table fault, the slot is the one the algorithm defines after that, under LRU a page referenced least recently by the histories with those ticks; it takes exactly a frame and a heap page for a missing table, a frame for the page unless the victim supplies it, and the disk tables of a new stack page |
| `Paging.Env.TableFaultIfAny` | FOS_Project_2016_Template/kern/trap.c:429-436 | The directory entry is present afterwards; if it was not, exactly one frame and one heap page are taken and under LRU the stamps age first; no translation changes |
| `Paging.Env.BeforeFault` | FOS_Project_2016_Template/kern/trap.c:416-436 | Before the page fault the stamps age under LRU, once more if a table fault came first, and no translation changes |
| `Paging.Env.ReadByte` | FOS_Project_2016_Template/kern/trap.c:490-563 | Through an entry that the user may read: the byte is the one the program believes the page holds; of all used bits exactly the page's is set |
| `Paging.Env.WriteByte` | FOS_Project_2016_Template/kern/trap.c:490-563 | Through an entry that the user may read and write: the believed page changes at exactly that byte; of all used bits exactly the page's is set, and its modified bit |
| `Paging.Env.PageIsPermitted` | FOS_Project_2016_Template/kern/trap.c:544 | Every page of the program that is mapped outside the mirror may be read and written by it |
| `Paging.Env.LoadByte` | FOS_Project_2016_Template/kern/trap.c:416-563 | A load with whatever faults it takes is a load of the flat memory without the victim that had no disk frame, if there is such a victim, and one step of the replacement machine; no other environment changes |
| `Paging.Env.StoreByte` | FOS_Project_2016_Template/kern/trap.c:416-563 | The same for a store |
| `Paging.Env.Step` | FOS_Project_2016_Template/kern/trap.c:212-261 | A load, store or tick is one step of the program: of its flat memory, less the victim if that had no disk frame; of its disk frames; and of set, hand, stamps and used bits as the algorithm in force defines. It is refused exactly on a panic, or when fewer frames or heap pages are free than the served operation takes |
| `Paging.Env.Run` | FOS_Project_2016_Template/kern/trap.c:490-563 | Demand paging is invisible: every run of loads, stores, ticks and changes of algorithm is a run of a flat memory, from which an operation takes a page exactly if it evicts it and it has no disk frame, and of a replacement machine over slots, hand and used bits, which fixes every victim of FIFO, CLOCK and LRU; the stamps at its start record reference histories; the invariant holds throughout, no other environment's mapping or contents change, and a run under FIFO moves working set and hand as a queue of exactly the pages that the operations faulted on, in order |
| `Paging.Env.IsWhole` | FOS_Project_2016_Template/kern/trap.c:490-563 | Every page of the program is resident or has a disk frame, and no page is in two slots |
| `Paging.Env.ResidentIsFlat` | FOS_Project_2016_Template/kern/trap.c:490-563 | Outside the mirror, the resident pages are exactly those of the working set, all are in the program's memory, and a page that is not resident is in it exactly when it has a disk frame |
| `Paging.Env.IsRecorded` | FOS_Project_2016_Template/kern/sched.c:553-573 | In every reachable state the stamps record the reference histories since the environment began |
| `Paging.Env.ArraySize` | FOS_Project_2016_Template/kern/user_environment.c:275-285 | The working-set array is one live block with room for every slot and less than a page to spare |
| `Paging.StackBounds` | FOS_Project_2016_Template/kern/trap.c:551 | The stack is exactly the addresses from USTACKBOTTOM, as computed in 32 bits, to USTACKTOP |
| `Replacement.FifoStep` | FOS_Project_2016_Template/kern/trap.c:506-508 | A FIFO fault on an in-order set is a queue step: the slot at the hand leaves, the new page joins at the back |
| `Replacement.FifoVictimIsOldest` | FOS_Project_2016_Template/kern/trap.c:490-563 | On every fault-only run from an in-order fill, as which `Run` moves the set under FIFO, the next victim is the page resident longest |
| `Replacement.LruVictimIsOldest` | FOS_Project_2016_Template/kern/trap.c:495-504 | When stamps record reference histories, the victim is the lowest slot least recently referenced over the last 16 ticks, or the hand if every page was just referenced |
| `Replacement.StampsRecordRun` | FOS_Project_2016_Template/kern/sched.c:553-573 | Over every run of ticks, placements and evictions, of which every reachable state keeps its own log, the stamps record the pages' reference histories |
| `Replacement.LruVictimOverRun` | FOS_Project_2016_Template/kern/trap.c:495-504 | From a new environment's empty set, after any run of ticks, placements and evictions, LRU evicts a least recently referenced page; `PageFault` applies it to the log of its own state |
| `Replacement.FaultMoves` | FOS_Project_2016_Template/kern/trap.c:490-562 | In the replacement machine a fault has a victim exactly when the set is full; the victim goes, the page comes, no other page moves |
| `Replacement.LruAfter` | FOS_Project_2016_Template/kern/trap.c:495-504 | In the replacement machine LRU evicts a page referenced least recently by the histories that the stamps record, those with the ticks before the fault included |
| `Replacement.FifoAfter` | FOS_Project_2016_Template/kern/trap.c:506-508 | In the replacement machine a FIFO step is a queue step |
| `LruAging.AgedPushes` | FOS_Project_2016_Template/kern/sched.c:562-569 | A tick on a stamp pushes the newest reference bit onto its 16-bit history and drops the oldest |
| `LruAging.AgedBitsArithmetic` | FOS_Project_2016_Template/kern/sched.c:564-569 | On the number that a word's sixteen base-4 digits stand for, the C expression's shift and bit-or are exactly the division by 4 and the addition of 2^31 that the model's stamps use; nothing overflows |
| `LruAging.StampOrder` | FOS_Project_2016_Template/kern/sched.c:564-569 | Unsigned stamp order is the lexicographic order of the last 16 reference bits |
| `LruAging.Sentinel` | FOS_Project_2016_Template/kern/trap.c:496 | 1e9 separates the pages referenced at the last tick from the others |
| `LruAging.StampDigits` | FOS_Project_2016_Template/kern/sched.c:564-569 | Every base-4 digit of a stamp is 0 or 2, and is the reference bit of one of the last 16 ticks |
| `LruAging.StampBits` | FOS_Project_2016_Template/kern/sched.c:564-569 | Over every reference history the word that the C expression computes stands for the stamp, and only has bits of 0xAAAAAAAA |
| `UserMemory.FreeMem` | FOS_Project_2016_Template/kern/memory_manager.c:783-833 | Removes exactly the range: none of its pages stays in the page file, the working set or (mirror apart) the page tables; everything outside keeps contents, mapping, slot, used bit and disk frame; of the tables the last loop visits exactly those with no entry left go; working set and page tables agree afterwards if and only if it is not the case that the range begins with page 0 and an empty slot precedes the slot that holds page 0 |
| `UserMemory.RemoveFromFile` | FOS_Project_2016_Template/kern/memory_manager.c:793-797 | Exactly the pages of the range leave the page file; the believed memory loses exactly them |
| `UserMemory.ReleaseResident` | FOS_Project_2016_Template/kern/memory_manager.c:801-807 | The page's slot is cleared and the page unmapped and no other slot or page changes; for page 0 behind an empty slot the wrong slot is cleared and the page is lost |
| `UserMemory.ReleaseRun` | FOS_Project_2016_Template/kern/memory_manager.c:799-809 | Exactly the slots of the range's pages are cleared and exactly those pages unmapped, or page 0 is lost, exactly as stated for FreeMem |
| `UserMemory.FreePageZeroFails` | FOS_Project_2016_Template/kern/memory_manager.c:801-807 | An input on which the search misses page 0 |
| `UserMemory.DropEmptyTables` | FOS_Project_2016_Template/kern/memory_manager.c:812-831 | Of the tables of the range's directory entries exactly those whose entries are all zero go, and no translation changes |
| `UserMemory.AllocateMem` | FOS_Project_2016_Template/kern/memory_manager.c:763-772 | Exactly the pages of the range without a disk frame join the page file, in order while disk frames are left, all of them if and only if the free disk frames suffice; the program gains those outside the mirror; none is brought into memory; pages already there keep their contents; exactly the missing disk tables are taken from the kernel heap |
| `UserMemory.AllJoin` | FOS_Project_2016_Template/kern/memory_manager.c:763-772 | Every page of the range gets a disk frame if and only if the free ones are at least as many as the pages without |
| `RequiredFrames.CalculateRequiredFrames` | FOS_Project_2016_Template/kern/memory_manager.c:862-898 | The number of missing tables plus unmapped pages that the two loops count |
| `RequiredFrames.MapRange` | FOS_Project_2016_Template/kern/memory_manager.c:858-898 | With as many free frames as the unmapped pages plus the missing tables that some page of the range lies in, giving every unmapped page a frame with map_frame takes exactly that many |
| `RequiredFrames.PredictAndMap` | FOS_Project_2016_Template/kern/memory_manager.c:858-898 | Called before the range is allocated, the function returns exactly the number of frames the allocation then takes, if and only if the range is not an empty one at a page boundary inside a missing table |
| `RequiredFrames.PredictionExact` | FOS_Project_2016_Template/kern/memory_manager.c:862-898 | The count of tables predicted is the count that allocation creates if and only if the range is not an empty one at a page boundary inside a missing table |
| `RequiredFrames.CountsUnneeded` | FOS_Project_2016_Template/kern/memory_manager.c:862-898 | An empty range at a page boundary inside a missing table is an input on which the prediction is wrong |
| `EnvFree.EnvFree` | FOS_Project_2016_Template/kern/user_environment.c:716-751 | From any valid state every page, table, working-set block, directory, disk frame and disk table of the environment goes back, nothing of any other environment changes, and every usable frame is free, backs a live kernel-heap block of another owner, is mapped by another environment, or was lost before, if and only if no resident page shares a page table with the mirror |
| `EnvFree.LostOrReturned` | FOS_Project_2016_Template/kern/user_environment.c:716-751 | Once nothing is mapped and no block is left, every usable frame is returned or was lost before if and only if no word was left behind |
| `EnvFree.LostForGood` | FOS_Project_2016_Template/kern/user_environment.c:687-693 | The frame of a word left behind is usable, but not free, backs no heap page and is mapped by no environment |
| `EnvFree.AfterFree` | FOS_Project_2016_Template/kern/user_environment.c:716-751 | Afterwards no two pages of the remaining environments share a frame or a disk frame, and lost frames are mapped by nobody |
| `EnvFree.LeakReachable` | FOS_Project_2016_Template/kern/user_environment.c:674-696 | The lowest stack page shares a page table with the mirror |
| `EnvFree.FreeDisk` | FOS_Project_2016_Template/kern/user_environment.c:749 | No kernel-heap block of the environment is left after the page file has given back its tables; every other block stays |
| `EnvCreate.AllocateRoot` | FOS_Project_2016_Template/kern/user_environment.c:211-231 | The directory, or the working-set array, is a new heap block that no environment sees; every translation stays |
| `EnvCreate.MapNew` | FOS_Project_2016_Template/kern/memory_manager.c:716-747 | A page that was not mapped is mapped to the frame, a missing table is created, and no other translation changes |
| `EnvCreate.MapMirror` | FOS_Project_2016_Template/kern/user_environment.c:273-285 | Exactly the mirror's pages are mapped, for the user to read only, each to the frame behind its page of the working-set array, creating exactly the missing tables; no other environment changes |
| `EnvCreate.MapArray` | FOS_Project_2016_Template/kern/user_environment.c:273-285 | The same as a step of the shared memory: every other environment keeps its pages, disk frames, blocks and contents |
| `EnvCreate.PlantEnvironment` | FOS_Project_2016_Template/kern/user_environment.c:454-475 | The new environment owns a new directory and a new array, which its mirror shows frame by frame; all slots are empty; nobody else notices |
| `EnvCreate.MapStackFrame` | FOS_Project_2016_Template/kern/user_environment.c:616-619 | The first stack page is mapped to a frame that nobody names, nor its new page table takes |
| `EnvCreate.MapZeroPage` | FOS_Project_2016_Template/kern/user_environment.c:616-622 | That frame is zeroed, and the program's memory is exactly this page |
| `EnvCreate.MapStackPage` | FOS_Project_2016_Template/kern/user_environment.c:614-628 | The page takes slot 0 and the hand moves behind it |
| `EnvCreate.BackStackPage` | FOS_Project_2016_Template/kern/user_environment.c:632 | The page gets the first free disk frame, if there is one; the failure, which env_create ignores, leaves a valid environment all the same |
| `EnvCreate.CreateEnvironment` | FOS_Project_2016_Template/kern/user_environment.c:454-651 | The new environment satisfies the invariant that every operation keeps; its memory is exactly the topmost stack page, which is zero, in slot 0; its working-set array is a block of exactly the pages that its slots need; it takes exactly the heap pages and frames of its directory, array and tables and one frame; every other environment keeps its pages, disk frames, blocks and contents |
| `Machine.RunTogether` | FOS_Project_2016_Template/kern/trap.c:416-563 | Over every interleaving of creations, exits, loads, stores, ticks, allocations and frees of any number of environments under whatever algorithms, each program takes exactly its own steps: its flat memory, its disk frames, its working set, hand, stamps and used bits change by its own turns alone, as the algorithm in force defines; all stay in order; complete unless a turn gets stuck |
| `Machine.TakeTurn` | FOS_Project_2016_Template/kern/trap.c:416-563 | One turn does to its environment's program what that turn means, and nothing to any other; it is served exactly unless it is stuck, and a creation is refused for want of room only when less is free than it takes |
| `Machine.TakeCall` | FOS_Project_2016_Template/kern/trap.c:416-563 | The same for a load, store, tick, allocation or free |
| `Machine.TakeCreate` | FOS_Project_2016_Template/kern/user_environment.c:454-651 | The same for a creation: one program more, with one zeroed stack page, and one free disk frame less if there was one |
| `Machine.TakeExit` | FOS_Project_2016_Template/kern/user_environment.c:716-751 | The same for env_free, whether or not it loses frames: one program less, whose disk frames are free again |
| `Machine.ServeBeside` | FOS_Project_2016_Template/kern/trap.c:416-563 | A call of one environment leaves the fields, the memory and the validity of every other one as they were |
| `Machine.CreateBeside` | FOS_Project_2016_Template/kern/user_environment.c:454-651 | The same for a creation |
| `Machine.ExitBeside` | FOS_Project_2016_Template/kern/user_environment.c:716-751 | The same for env_free |
| `Machine.OwnKept` | FOS_Project_2016_Template/kern/trap.c:416-563 | What keeps the pages, disk frames, blocks and contents of the other environments keeps each of them valid |
| `Machine.Serve` | FOS_Project_2016_Template/kern/memory_manager.c:763-833 | An access, allocateMem or freeMem is a step of the environment's program exactly unless it is stuck; an allocateMem is stuck only when fewer frames or heap pages are free than the missing disk tables take |
| `Machine.ServeAccess` | FOS_Project_2016_Template/kern/trap.c:416-563 | The disk frames that an access takes are those of the free list; it is a step of the program exactly unless it is stuck |
| `Machine.ServeAllocate` | FOS_Project_2016_Template/kern/memory_manager.c:763-772 | allocateMem gives the pages of the range without a disk frame one each in order, as long as any is free, and leaves the working set alone |
| `Machine.ServeFree` | FOS_Project_2016_Template/kern/memory_manager.c:783-833 | freeMem takes exactly the pages of the range from memory, page file and working set, their disk frames are free again, and the other slots keep page, stamp and used bit |
| `Machine.ByteStaysTogether` | FOS_Project_2016_Template/kern/trap.c:416-563 | On every such run a stored byte keeps its value until its own program stores to it again, frees the page, exits, or evicts the page without a disk frame |
| `Machine.BackedStays` | FOS_Project_2016_Template/kern/trap.c:416-563 | A page with a disk frame keeps it until its program frees it or exits, and is never lost |
| `Machine.LoadReturnsOwnStore` | FOS_Project_2016_Template/kern/trap.c:416-563 | On every such run a load returns the last value its own environment stored to the byte, whatever the others did meanwhile, if the page has a disk frame or is not evicted without one |
| `Machine.NothingLostTogether` | FOS_Project_2016_Template/kern/trap.c:549-553 | When all pages of all programs have disk frames, they always do on a run if and only if every page that an access or a creation adds finds one free, and then no program loses a page |
| `Machine.TogetherWhole` | FOS_Project_2016_Template/kern/trap.c:490-563 | In every reachable state each page of each program is resident or has a disk frame |
| `Machine.Boot` | FOS_Project_2016_Template/kern/memory_manager.c:322-385 | The machine that initialize_paging and initialize_disk_page_file leave is one on which runs can start, with no environment |
| `Failures.SmallEnvironment` | FOS_Project_2016_Template/kern/user_environment.c:454-651 | From power-on on a machine of 63 frames: an environment with one or two slots, whose stack page has a disk frame exactly if the page file has one |
| `Failures.FullPageFileLoses` | FOS_Project_2016_Template/kern/trap.c:549-553 | A run from power-on with the page file full: the program stores a 7 to its first stack page, loads from the page below, and its first page is gone |
| `Failures.DeepStack` | FOS_Project_2016_Template/kern/trap.c:549-553 | An environment whose only resident page is the lowest page of its stack |
| `Failures.DeepStackLeaks` | FOS_Project_2016_Template/kern/user_environment.c:687-693 | env_free of that environment leaves a usable frame that is not free, backs no other block and is mapped by nobody |
| `Failures.AllocatePageZero` | FOS_Project_2016_Template/kern/memory_manager.c:763-772 | From power-on, an allocateMem of a new environment gives it page 0 |
| `Failures.PageZeroBehindEmptySlot` | FOS_Project_2016_Template/kern/memory_manager.c:799-809 | The run goes on: after a load from page 0 and a freeMem of the first stack page, page 0 is behind an empty slot, where freeMem misses it |
| `Failures.PageZeroLost` | FOS_Project_2016_Template/kern/memory_manager.c:801-807 | In such a state freeMem of page 0 unmaps it and takes its contents and disk frame while its slot still holds it: working set and page tables disagree |
| `EnvFree.RemoveMirror` | FOS_Project_2016_Template/kern/user_environment.c:674-696 | The mirror is unmapped and its tables freed; no other environment changes; something is left behind exactly when a resident page shares one of those tables |
| `EnvFree.UnmapMirror` | FOS_Project_2016_Template/kern/user_environment.c:680-684 | Exactly the mirror's pages are unmapped |
| `EnvFree.DropTables` | FOS_Project_2016_Template/kern/user_environment.c:687-693 | Exactly the tables of the directory entries are freed; the pages still mapped through them become lost references, exactly those; none is lost if and only if there are no such pages |
| `EnvFree.UnmapWorkingSet` | FOS_Project_2016_Template/kern/user_environment.c:725-730 | Exactly the working set's pages are unmapped |
| `EnvFree.FreeWorkingSet` | FOS_Project_2016_Template/kern/user_environment.c:718-732 | No page of the environment is mapped afterwards and its working-set array is freed |
| `EnvFree.FreeTables` | FOS_Project_2016_Template/kern/user_environment.c:733-744 | No table block and no directory of the environment is left; every other block stays |
| `EnvFree.FreeMemory` | FOS_Project_2016_Template/kern/user_environment.c:718-744 | Every kernel-heap block of the environment but its disk tables is freed and every other block stays |
| `UserHeap.FlagHeap.SearchFirst` | FOS_Project_2016_Template/kern/uheap.c:93-118 | First fit: the lowest page whose whole run is free, or none exactly if no run is long enough |
| `UserHeap.FlagHeap.SearchExtreme` | FOS_Project_2016_Template/kern/uheap.c:120-179 | Best (worst) fit: the lowest of the smallest (largest) sufficient holes that a block ends; the trailing hole only if there is none; none only if that is too small |
| `UserHeap.FlagHeap.SearchNext` | FOS_Project_2016_Template/kern/uheap.c:51-90 | Next fit ends after exactly one turn, the counter reaching 0 without underflow: the lowest place from the roving pointer to the heap's end, else the lowest before it, none if and only if neither part has one |
| `UserHeap.FlagHeap.Search` | FOS_Project_2016_Template/kern/uheap.c:51-179 | The place the strategy in force defines; every strategy but next fit sends the roving pointer home first |
| `UserHeap.FlagHeap.Place` | FOS_Project_2016_Template/kern/uheap.c:180-190 | The run becomes one block, flagged page by page and recorded; the roving pointer ends at the block, or at the start if the block reaches the heap's end |
| `UserHeap.FlagHeap.Malloc` | FOS_Project_2016_Template/kern/uheap.c:35-191 | For the least number of pages that hold the bytes asked for: the address of the place the strategy defines with that block added, or NULL with no block added; blocks stay disjoint and the roving pointer never lies strictly inside one |
| `UserHeap.FlagHeap.Free` | FOS_Project_2016_Template/kern/uheap.c:205-222 | Exactly the block at the address goes; an address that is no block's changes nothing |
| `UserHeap.RunHeap.SearchFirst` | FOS_Project_2016_Template/lib/uheap.c:85-114 | First fit: the lowest page whose whole run is free, or none exactly if no run is long enough |
| `UserHeap.RunHeap.SearchExtreme` | FOS_Project_2016_Template/lib/uheap.c:116-183 | Best (worst) fit: the lowest of the smallest (largest) sufficient holes that a block ends; the trailing hole only if there is none; none only if that is too small |
| `UserHeap.RunHeap.SearchNext` | FOS_Project_2016_Template/lib/uheap.c:38-82 | Next fit ends after exactly one turn, the counter reaching 0 without underflow: the lowest place from the roving pointer to the heap's end, else the lowest before it, none if and only if neither part has one |
| `UserHeap.RunHeap.Search` | FOS_Project_2016_Template/lib/uheap.c:38-183 | The place the strategy in force defines; every strategy but next fit sends the roving pointer home first |
| `UserHeap.RunHeap.Malloc` | FOS_Project_2016_Template/lib/uheap.c:35-192 | For the least number of pages that hold the bytes asked for: the address of the place the strategy defines with that block added, or NULL with no block added; blocks stay disjoint and the roving pointer never lies strictly inside one |
| `UserHeap.RunHeap.Free` | FOS_Project_2016_Template/lib/uheap.c:206-220 | Exactly the block at the address goes; an address that is no block's changes nothing |
| `UserHeap.RunBoth` | FOS_Project_2016_Template/lib/uheap.c:35-227 | Over every sequence of malloc and free calls and strategy changes the run-length heap returns the same addresses and keeps the same roving pointer as the flag heap, and a page is flagged in the one exactly when some head's run covers it in the other |
| `UserHeap.ChosenUnique` | FOS_Project_2016_Template/kern/uheap.c:51-179 | A strategy leaves no choice: two placements that satisfy its definition are equal |
| `UserHeap.FoundIffFits` | FOS_Project_2016_Template/kern/uheap.c:88-178 | First, best and worst fit find a place if and only if some free run is long enough; next fit if and only if one lies on one side of the roving pointer |
| `UserHeap.NextFitMisses` | FOS_Project_2016_Template/kern/uheap.c:51-90 | Two pages are taken and freed again in a heap of three: next fit then finds no place for three pages, although all are free |
| `UserHeap.AtBoundary` | FOS_Project_2016_Template/lib/uheap.c:43-79 | Between blocks, a zero word means a free page and a length word means that many occupied pages with the next boundary right after them, so skipping a block misses no free page |
| `UserHeap.PlaceBlock` | FOS_Project_2016_Template/lib/uheap.c:185 | Writing a block's length on a free run keeps blocks disjoint and covers exactly that run more |
| `UserHeap.RemoveBlock` | FOS_Project_2016_Template/lib/uheap.c:214 | Zeroing a block's length uncovers exactly its run and moves no boundary into a block |
| `UserHeap.MallocDetermined` | FOS_Project_2016_Template/kern/uheap.c:35-191 | malloc has one possible answer and one possible effect for a heap state |
| `UserHeap.AddressesApart` | FOS_Project_2016_Template/kern/uheap.c:35-191 | No page has the address NULL and no two pages have the same |
| `Queue.Queue.constructor` | FOS_Project_2016_Template/inc/queue.h:191-195 | LIST_INIT yields a well-linked empty list |
| `Queue.Queue.InsertHead` | FOS_Project_2016_Template/inc/queue.h:238-246 | The links spell the element followed by the old list; the list stays doubly linked with the right ends and size |
| `Queue.Queue.InsertTail` | FOS_Project_2016_Template/inc/queue.h:252-260 | The links spell the old list followed by the element |
| `Queue.Queue.InsertAfter` | FOS_Project_2016_Template/inc/queue.h:202-212 | The links spell the old list with the element right after the given one |
| `Queue.Queue.InsertBefore` | FOS_Project_2016_Template/inc/queue.h:219-232 | The links spell the old list with the element right before the given one |
| `Queue.Queue.Remove` | FOS_Project_2016_Template/inc/queue.h:266-278 | The links spell the old list without the element, whose own links are null |
| `Scheduler.Ring.NextCircular` | FOS_Project_2016_Template/kern/sched.c:180-188 | The next element, or the first after the last; null for null |
| `Scheduler.Ring.Turn` | FOS_Project_2016_Template/kern/sched.c:42-46 | The head of the rotation is returned and goes to its back; null if and only if no environment is ready |
| `Scheduler.Ring.Insert` | FOS_Project_2016_Template/kern/sched.c:195-203 | Linking a new environment in before the cursor appends it to the rotation |
| `Scheduler.Ring.Remove` | FOS_Project_2016_Template/kern/sched.c:211-219 | Removing an environment deletes it from the rotation and moves nothing else, whether or not the cursor was on it |
| `Scheduler.Scheduler.constructor` | FOS_Project_2016_Template/kern/sched.c:169-177 | sched_init: three empty queues, no next environment, scheduler stopped |
| `Scheduler.Scheduler.Dispatch` | FOS_Project_2016_Template/kern/sched.c:30-69 | The head of the rotation becomes current and goes to the back; with an empty rotation the scheduler stops |
| `Scheduler.Scheduler.InsertReady` | FOS_Project_2016_Template/kern/sched.c:190-205 | The environment joins the back of the rotation with status READY; the other queues are untouched |
| `Scheduler.Scheduler.RemoveReady` | FOS_Project_2016_Template/kern/sched.c:207-222 | The environment leaves the rotation and belongs to no queue |
| `Scheduler.Scheduler.InsertNew` | FOS_Project_2016_Template/kern/sched.c:224-231 | The environment joins the tail of the new queue |
| `Scheduler.Scheduler.RemoveNew` | FOS_Project_2016_Template/kern/sched.c:232-239 | The environment leaves the new queue and belongs to no queue |
| `Scheduler.Scheduler.InsertExit` | FOS_Project_2016_Template/kern/sched.c:241-248 | The environment joins the tail of the exit queue |
| `Scheduler.Scheduler.RemoveExit` | FOS_Project_2016_Template/kern/sched.c:249-256 | The environment leaves the exit queue and belongs to no queue |
| `Scheduler.Scheduler.RunAll` | FOS_Project_2016_Template/kern/sched.c:301-312 | The new queue empties into the back of the rotation in order although the loop unlinks the element it stands on; a stopped scheduler then dispatches the head |
| `Scheduler.Scheduler.ExitReady` | FOS_Project_2016_Template/kern/sched.c:427-436 | The environment moves from the rotation to the tail of the exit queue; if it was running, the next one is dispatched at once |
| `Scheduler.RunEvents` | FOS_Project_2016_Template/kern/sched.c:29-222 | Over every sequence of arrivals, departures and scheduler calls the linked list and cursor dispatch the same environments in the same order as a rotation |
| `Scheduler.BoundedWait` | FOS_Project_2016_Template/kern/sched.c:29-222 | An environment at position p that stays runs within p+1 scheduler calls, whatever arrives or leaves meanwhile, and none of those calls finds the queue empty |
| `Scheduler.RotatedRemove` | FOS_Project_2016_Template/kern/sched.c:207-222 | Deleting from list and cursor is deleting from the rotation |
| `Sorting.Swap` | FOS_Project_2016_Template/user/quicksort_noleakage.c:147-152 | The two positions exchange values and no other changes |
| `Sorting.Partition` | FOS_Project_2016_Template/user/quicksort_noleakage.c:107-120 | The range is permuted so that everything before j is at most the pivot at j, everything from i on at least the pivot, and the band between them holds only pivot values; the loops end |
| `Sorting.SidesSorted` | FOS_Project_2016_Template/user/quicksort_noleakage.c:122-123 | Sorting the two sides of such a partition sorts the whole range, the skipped band included |
| `Sorting.QSort` | FOS_Project_2016_Template/user/quicksort_noleakage.c:103-127 | The range ends sorted and permuted; nothing outside it changes; recursion ends |
| `Sorting.QuickSort` | FOS_Project_2016_Template/user/quicksort_noleakage.c:97-100 | The whole array ends a sorted permutation of itself |
| `Sorting.MergeInto` | FOS_Project_2016_Template/user/mergesort_noleakage.c:208-229 | The loop writes the merge of the two buffers, the right one first on a tie, position by position, and nothing outside the range |
| `Sorting.Merge` | FOS_Project_2016_Template/user/mergesort_noleakage.c:184-234 | The two adjacent ranges are replaced by their merge |
| `Sorting.MergedSorted` | FOS_Project_2016_Template/user/mergesort_noleakage.c:208-229 | The merge of sorted lists is sorted |
| `Sorting.MergedPermutes` | FOS_Project_2016_Template/user/mergesort_noleakage.c:208-229 | The merge has exactly the values of both lists |
| `Sorting.MSort` | FOS_Project_2016_Template/user/mergesort_noleakage.c:167-182 | The range (counted from 1) ends sorted and permuted; nothing outside it changes |
| `Sorting.SortedUnique` | FOS_Project_2016_Template/user/quicksort_noleakage.c:129-142 | Two sorted arrangements of the same values are equal |
| `Sorting.SortBoth` | FOS_Project_2016_Template/user/mergesort_noleakage.c:167-182 | Quicksort and merge sort leave the same array on every input |
| `NumberFormat.Padded` | FOS_Project_2016_Template/lib/printfmt.c:36-51 | Exactly max(width, digit count) characters are printed |
| `NumberFormat.PrintNum` | FOS_Project_2016_Template/lib/printfmt.c:36-51 | The recursion that shrinks the width by one a digit prints the padding and then the numeral, most significant digit first |
| `NumberFormat.FormatSigned` | FOS_Project_2016_Template/lib/printfmt.c:192-199 | %d prints the sign before the padding |
| `NumberFormat.DigitsRead` | FOS_Project_2016_Template/lib/printfmt.c:36-51 | A printed numeral is not empty, consists of digits of its base in lower case, and has the value it was made from |
| `NumberFormat.StrToL` | FOS_Project_2016_Template/lib/string.c:180-225 | However the string is cut into blanks and tabs, at most one sign, the prefix that the base takes (0x for 16 and 0, 0 for 0), digits of the base in either case, and a rest that goes on with none of these: everything before the rest is consumed and the value is that of the signed numeral, wrapped to 32 bits |
| `NumberFormat.CutWell` | FOS_Project_2016_Template/lib/string.c:180-225 | Every string is cut in that way |
| `NumberFormat.RoundTrip` | FOS_Project_2016_Template/lib/printfmt.c:36-51 | For 0 <= n < 2^31, base 10 or 16 and any width, strtol reads a printed number back as n and consumes all of it, if and only if the padding is a blank or 0, or there is none, or it is one '-' before 0 |
| `NumberFormat.SignedRoundTrip` | FOS_Project_2016_Template/lib/printfmt.c:192-199 | For %d above -2^31: a negative number is read back if and only if zeros pad it or nothing does |
| `NumberFormat.PaddingMisread` | FOS_Project_2016_Template/lib/printfmt.c:36-51 | 5 printed two wide with the padding '-', and -5 printed three wide with blanks, are not read back |

## Left out

- Hardware: disk port I/O and disk errors, timer, console, boot, TLB and cr3 switches. The disk is a sequence of page contents and the TLB is always coherent.
- Page buffering (the modified-frame list and the buffering variants of fault, free and freeMem), shared memory, semaphores, moveMem and realloc.
- The table working set: no page table is ever evicted.
- The program's segments in env_create: an environment begins with its stack page alone, and its other pages come from allocateMem. The table working set, the counters and the register set-up of env_create are left out with them.
- The mirror as a second view: it maps the array's own frames when the environment begins, and the model then keeps one array that both addresses read. A page that allocateMem adds inside the mirror gets its disk frame but is no part of the program's flat memory, because the kernel writes to those addresses behind the program's back.
- kmallocFirstFit and kmallocBestFit, which nothing calls; the non-kernel-heap branches (USE_KHEAP is 1).
- Environment identifiers and their lookup: an environment is named by its page directory in the memory model and by its queue element in the scheduler. sched_run_env, sched_kill_env and the search loops by identifier are not modelled.
- Linked free lists inside the memory model: free_frame_list and disk_free_frame_list are sequences there; the macros that implement them are proved in Queue.
- Frame_Info.references has 16 bits in the source and is unbounded here; no frame is named by more entries than fit.
- Exhaustion of frames and of kernel-heap address space outside kmalloc itself: `allocate_frame` panics, so operations require exactly what they take (`Paging.Env.Enough`, `UserMemory.TablesNeeded`, `RequiredFrames.Needed`, `EnvCreate.PagesToCreate`), and runs end where a call would get stuck.
- Concurrency of interrupts: a clock tick happens between two user operations.
- A NULL environment passed to the scheduler's queue moves, which the source ignores.
- Tables as words in frames: entries of page tables, page directories and disk tables are keyed by table and index. A frame keeps the words of its earlier use until it is zeroed (`KernelMemory.Memory.ZeroTable`), and the words that env_free leaves in a table count as lost references (`KernelMemory.Memory.LostFrame`); a new page directory or disk table begins zeroed.
- Byte addresses in allocateMem and freeMem: both take a start page and a number of pages here. The source takes bytes: freeMem rounds the address down and the size up, allocateMem rounds the size up and its page-file entries ignore the offset in the page. A size within a page of 2^32, whose rounding wraps, is left out.
- malloc's and free's system calls: UserHeap says which pages they pass, UserMemory what the calls do; the two are not joined. malloc(0), which reads an unset variable, is excluded, and so is free(NULL).
- The format-string loop of vprintfmt: width and padding arrive as parameters. strtol's overflow is modelled as wrap-around.
- KernelMemory.Memory.Kmalloc: does not model the 32-bit wrap of the address computed from a request of nearly 2^32 bytes, because page counts are unbounded here.
- KernelMemory.Memory.Kfree: requires an address that some record holds, because the source writes through an unset index otherwise.
- UserMemory.AllocateMem: excludes addresses above USER_TOP, which the system call does not check.
- UserMemory.FreeMem: says nothing of the kernel's page tables, which the last loop also visits when the range ends at USER_TOP or above; the system call does not check the range.
- UserHeap.FlagHeap.SearchExtreme: best and worst fit are one method with a flag here and two branches in the source, likewise in RunHeap.
- Scheduler.Scheduler.ExitReady: requires a running environment, because the source reads its identifier, and leaves out the search by identifier and the buffer clean-up.
