# Sinux kernel: a Dafny model and its proofs

Sinux is a small x86_64 kernel written in C. This project models its memory management, lock protocols, hashing, program
start, scheduler, pipes, descriptors and file systems in Dafny, and proves what they keep over whole runs.

`dafny verify dfyconfig.toml` checks everything.

## How the model is laid out

- **Memory.** `Pmm` is the bitmap page allocator, a class over an array of bytes, with a ghost set of the free pages;
  `PmmBoot` sets it up from a memory map and `PmmRun` runs it. `PageTables` is the 4-level tree on values: physical memory maps page
  numbers to tables of 512 entries or to raw bytes, and a node of the tree is named by the indices that lead to it. `Vmm` changes
  tables in place, `MissingTables` counts the tables a mapping takes, `FlatMap` ties the tree to a flat map over any run,
  `ForkSpec`/`Fork` copy and tear down address spaces.
  `SlabSpec`, `Slab`, `SlabHeap` and `SlabRun` are the slab allocator, from list surgery up to runs of `kmalloc_slab`/`kfree_slab`.
- **Locks.** `Spinlock`, `Mutex` and `RwLock` (file `Locks.dfy`) are state machines: one step is one access to shared memory by one CPU,
  any number of CPUs, any interleaving.
- **Hashing.** `Sha256Spec` is FIPS 180-4 and section 2 of RFC 2104; `Sha256Constants` derives its constants and `Sha256Example` works
  its example through; `Sha256` is the streaming context.
- **Program start.** `ElfSpec`/`Elf` load an executable through the page tables; `Exec` follows its pages from `execve` to exit;
  `UserStack` builds the first stack and reads it back.
- **Processes.** `SchedSpec`/`Scheduler` are the run queue, `Pipe` the ring buffer with reads and writes in progress, `FdSpec`/`Descriptors`
  the descriptor tables, reference counts and pipe ends over any run of system calls.
- **File systems.** `Ext2Spec`/`Ext2` go through sectors and one block buffer and are compared with the flat disk; `VfsSpec`/`Vfs`
  resolve paths in the tree of in-memory nodes, `VfsTree` is that tree as an inductive value, `VfsRun` compares runs with it and `VfsBoot`
  is the tree the boot makes; `Ramfs` is the growing file buffer.

Where C works in place the model has classes, arrays and loops; each such method is proved against functions and predicates on values, and
the whole-run results are about those.

## Results that are not what one might expect

- `pmm_init` counts a page once for every usable region holding it, so `free_pages` is exact if and only if usable regions share
  no page (`PmmBoot.CountExactIff`, `PmmBoot.Boot`).
- `vmm_get_phys` masks only the low 12 bits, so it returns the mapped frame if and only if NX was not asked for, or the
  address has bit 63 anyway (`FlatMap.FrameBack`).
- `vmm_clone_pml4` succeeds if and only if there are as many free pages as the copy has places. Short of that it cleans up and reports
  failure if and only if there is no free page, or exactly as many as the data pages before some data page take with their tables; with
  any other number it runs out inside `vmm_map` and goes on with a missing table (`Fork.Clone`).
- The stack pointer `build_user_stack` returns is 16-aligned if and only if argument and environment counts sum to an odd number
  (`UserStack.BuildUserStack`); section 3.4.1 of the System V AMD64 ABI asks for it always.
- `elf_load` maps a fresh page for every page of every segment, so a page in two segments has the bytes of the last one only
  (`Elf.LoadedByte`). One page is lost with every load of a page loaded before, whether the program is loaded and exits or cannot be
  loaded; so its pages all come back on exit if and only if no two segments share a page (`Exec.LoadThenExit`).
- `sched_add` drops a process once 256 have been added (`SchedSpec.DoPacked`), and would overwrite a queued process exactly when the tail slot is
  taken while the count is below 256 (`SchedSpec.AddLoses`): never in the kernel as it is, since nothing calls `sched_remove`
  (`SchedSpec.QueueOnlyGrows`), but right after a remove from a full queue (`SchedSpec.RemoveThenAddLoses`).
- `sched_yield` picks a ready process even if it is the current one, and then leaves it ready: a process that slept while no other was
  ready is current and not running (`SchedSpec.ReadyNotRunning`). A process picked is running afterwards if and only if it was not
  current (`SchedSpec.YieldIs`).
- A read of a pipe tests for an empty buffer and then for a closed write end. So it may return 0 and leave a byte behind, with one reader
  only (`Pipe.LateByte`): it does if and only if a byte was put in between the two tests (`Pipe.EndOfFile`). With two readers it may also
  return 0 with the write end open (`Pipe.TwoReaders`): exactly when it is past its wait, has nothing yet, and finds the buffer empty
  (`Pipe.ZeroRead`). These are interleavings of threads that can be preempted in a system call, or of several processors. The kernel as it
  is built masks interrupts in system calls (arch/x86_64/syscall_init.c:30) and starts one processor (kernel/core/main.c:318-321), so that
  there calls do not interleave, and one that has to wait waits for ever.
- `proc_exit` empties descriptors without dropping their references: a count is the number of descriptors plus those lost this way, and a
  file is released exactly when its only descriptor is closed and none was lost (`Descriptors.Kernel.Close`).
- `ext2_write` leaves the size on disk alone, so what it wrote reads back in full if and only if it ends within that size
  (`Ext2.Volume.WriteThenRead`).
- `ramfs_create` does not look for the name, and `ramfs_unlink` moves the last entry into the gap. So `vfs_unlink` removes the path and what
  lies below it, and leaves every other path leading where it led, if and only if no other entry has the name and the last entry does not
  come to stand before the first of its own name (`Vfs.FileTree.Unlink`).
- Directories come to have two entries of one name: a call ends distinctness of names if and only if it makes an entry of a name that is
  there (`VfsRun.StaysDistinct`). `vfs_create` always does; an open with O_CREAT does if and only if the name is given without any '/',
  which `split_path` takes for an absolute path and `vfs_lookup` does not (`VfsRun.OpenDoubles`, `VfsBoot.OpenTwice`). The boot creates
  home, etc, tmp and bin a second time; unlinking "/etc" then uncovers an empty directory (`VfsBoot.BootDoubles`).
- `find_mount` compares characters, not components; what it finds is right if and only if it ends at a boundary of the path
  (`Vfs.MountsByPrefix`, `Vfs.FallsIntoMount`).

## Model

| member | source | states |
|---|---|---|
| `Bits.WriteBit` | mm/pmm.c:33-35 | writing one bit of a bitmap changes that bit and no other |
| `Pmm.PageAllocator.constructor` | mm/pmm.c:101-102 | every page marked used, none free, count 0 |
| `Pmm.PageAllocator.TakePage` | mm/pmm.c:150-152 | a clear page is taken: set and counter shrink by exactly it |
| `Pmm.PageAllocator.GivePage` | mm/pmm.c:164-165 | a page's bit is cleared and the counter goes up, whether or not it was clear |
| `Pmm.PageAllocator.Alloc` | mm/pmm.c:146-157 | the lowest free page is taken and its address returned; NULL exactly when none is free; the counter's error does not change |
| `Pmm.PageAllocator.Release` | mm/pmm.c:159-167 | a page in use becomes free; any other argument changes nothing |
| `Pmm.PageAllocator.AllocFrame` | mm/pmm.c:146-157 | the same by page number when page 0 is reserved |
| `Pmm.PageAllocator.ReleaseFrame` | mm/pmm.c:159-167 | the same by page number |
| `Pmm.PageAllocator.MarkRange` | mm/pmm.c:117-120 | exactly the pages of the range become free, each counted |
| `Pmm.PageAllocator.ReserveBelow` | mm/pmm.c:137-143 | exactly the pages below the bound cease to be free, each counted down once |
| `PmmRun.Run` | mm/pmm.c:146-167 | over any run of callers that give back only what they hold: the pages out are those returned and not given back, each once; only pages free at the start are handed out; none is lost; counter exact to the same degree; NULL only with every page out |
| `PmmBoot.CoveredHolds` | mm/pmm.c:114-120 | the third pass frees exactly the pages wholly inside a usable region |
| `PmmBoot.CountExactIff` | mm/pmm.c:104-126 | the count equals the number of pages freed if and only if no page lies in two usable regions |
| `PmmBoot.HighestUsable` | mm/pmm.c:46-62 | the end of the highest usable region, 0 without one |
| `PmmBoot.FitsIff` | mm/pmm.c:84-93 | a usable region is taken iff it has room for the bitmap at some page-aligned address above the image, and the address tried is the lowest such |
| `PmmBoot.PlaceBitmap` | mm/pmm.c:71-98 | the first usable region with room above the image, or none exists |
| `PmmBoot.MarkUsable` | mm/pmm.c:104-126 | the free set is the union of the regions' pages, the counter the sum of their sizes |
| `PmmBoot.HeldIsCounted` | mm/pmm.c:64-65 | a page inside a usable region is below the page count iff it is below the cap |
| `PmmBoot.PlanLayout` | mm/pmm.c:64-99 | the page count comes from the highest usable end and the cap; a place is found iff some region has room at a page-aligned address above the image, and is the lowest such address of the first region that has; the reserved range covers image and bitmap, tightly |
| `PmmBoot.Boot` | mm/pmm.c:37-144 | after `pmm_init` a page is free iff it lies wholly inside a usable region, at or above the reserved end and below the cap; the bitmap lies at the lowest page-aligned address above the image in the first region with room; counter exact iff no page lies in two regions; nothing is set up iff no region has room |
| `PmmBoot.ReservedNeverFree` | mm/pmm.c:128-143 | no page of the image or of the bitmap is free |
| `PageTables.EntryParts` | mm/vmm.c:16-18 | frame, flags and present bit come back out of an entry |
| `PageTables.SameNode` | mm/vmm.c:49-54 | a tree does not notice changes to pages outside it |
| `PageTables.AddTable` | mm/vmm.c:12-18 | a zeroed table hung at an empty slot becomes that one node; every other node stays |
| `PageTables.WriteLeaf` | mm/vmm.c:35-36 | writing a last-level entry changes that leaf and no other |
| `PageTables.AddTableGrows` | mm/vmm.c:9-19 | the tree stays sound: one table more, from the allocator, aliasing nothing, all leaves as before |
| `PageTables.AddTableOpen` | mm/vmm.c:29-34 | if every table is reached by entries open to the user, a table added with user and write bits keeps it so |
| `PageTables.LeafDecides` | mm/vmm.c:29-36 | below such tables the leaf alone decides what the user may do, over all four levels of the walk |
| `PageTables.BitsAre` | mm/vmm.h:6-8 | user and write bits of an entry are bits 2 and 1 |
| `PageTables.PathBits` | mm/vmm.c:24-27 | the four indices are bits 47-39, 38-30, 29-21 and 20-12 |
| `PageTables.RebuildSplits` | mm/vmm.c:258-261 | the address rebuilt from four indices splits into them again |
| `PageTables.SplitRebuilds` | mm/vmm.c:24-27 | splitting and rebuilding loses only the page offset and the bits above 47 |
| `Vmm.AddressSpaces.constructor` | mm/vmm.c:141-150 | the boot tables are taken over |
| `Vmm.TableFlagsOpen` | mm/vmm.c:29-30 | a new table is present and writable, and open to the user iff mapping for the user |
| `Vmm.LeafIs` | mm/vmm.c:35-36 | the entry part by part: address bits, low flags with the present bit, NX |
| `Vmm.TableHung` | mm/vmm.c:12-17 | the allocating branch: tree extended by one table on that path, no leaf changed, tables still open to the user |
| `Vmm.LeafWritten` | mm/vmm.c:35-36 | the last write of `vmm_map`: one leaf set, no table moved |
| `Vmm.AddressSpaces.GetOrAlloc` | mm/vmm.c:9-19 | yields the table behind the entry, creating it if absent; fails only with no page free and no table there; no leaf changes |
| `Vmm.AddressSpaces.WalkAlloc` | mm/vmm.c:32-34 | the last-level table for a path exists afterwards; pages gained lie on that path only |
| `Vmm.AddressSpaces.Map` | mm/vmm.c:21-39 | exactly the one leaf becomes the requested entry; the tree gains only tables from the allocator on the way to it; data pages, other pages and upper-half entries unchanged; tables stay open to the user when mapping for the user |
| `Vmm.AddressSpaces.Unmap` | mm/vmm.c:41-57 | exactly the one leaf becomes 0 |
| `Vmm.AddressSpaces.GetPhys` | mm/vmm.c:59-74 | the address bits of the leaf, 0 where no table leads there |
| `MissingTables.MapGrows` | mm/vmm.c:32-34 | a mapping adds to the tree exactly the tables missing on the way to its page |
| `MissingTables.MapStuck` | mm/vmm.c:32-34 | a mapping that fails has added some of them and not all |
| `MissingTables.GrownThen` | mm/vmm.c:21-82 | two steps that add what is missing add what is missing for both |
| `MissingTables.GrownCount` | mm/vmm.c:9-19 | then the pages gone are as many as the tables that were missing |
| `MissingTables.StuckCount` | mm/vmm.c:9-19 | stuck with no page left, there were fewer pages than missing tables |
| `FlatMap.SamePage` | mm/vmm.c:24-27 | two addresses share an entry iff they lie in the same page up to bits above 47 |
| `FlatMap.RangeExact` | mm/vmm.c:76-82 | in the flat map of a range, the page at every offset below the size and divisible by 4096 gets the frame at that offset, the later one should two of them share an entry, and every entry of no such page is as before |
| `FlatMap.AfterRangeOp` | mm/vmm.c:76-82 | the same for a range that comes after any other operations |
| `FlatMap.FrameBack` | mm/vmm.c:35-36 | `vmm_get_phys` gives back the frame mapped iff NX was not set or the address has bit 63 |
| `FlatMap.MapRange` | mm/vmm.c:76-82 | at every offset below the size and divisible by 4096 the page maps the frame at that offset, and no other leaf changes; the tree has gained exactly the tables missing for these pages |
| `FlatMap.Apply` | mm/vmm.c:21-82 | one operation on the tree is that operation on the flat map, at every page |
| `FlatMap.Run` | mm/vmm.c:21-82 | after any sequence of map, map range and unmap, tree and flat map agree at every page, touched or not; the sequence succeeds iff there are as many free pages as tables missing for the pages it maps, and takes exactly those |
| `FlatMap.RunThenGetPhys` | mm/vmm.c:59-82 | after any such sequence `vmm_get_phys` at any address is the flat map's frame |
| `ForkSpec.Ancestor` | mm/vmm.c:228-244 | every page of a tree hangs below tables of the tree |
| `ForkSpec.OwnedFrame` | mm/vmm.c:222-269 | an address space does not notice changes to pages it does not own |
| `ForkSpec.MappedOwned` | mm/vmm.c:250-263 | mapping a fresh page where nothing was mapped adds that page and tables only |
| `ForkSpec.FillsCount` | mm/vmm.c:222-269 | a copy that fills exactly certain places has exactly one page for each |
| `ForkSpec.LessBefore` | mm/vmm.c:228-263 | the places needed before a data page are fewer than with it, and those no more than in all |
| `ForkSpec.BreaksNotStops` | mm/vmm.c:228-263 | the number of free pages that runs out at a table of one data page runs out at no data page |
| `ForkSpec.ShortOfData` | mm/vmm.c:250-254 | running out at a data page means exactly as many free pages as the pages visited before it need |
| `ForkSpec.ShortOfTable` | mm/vmm.c:32-34 | running out at a table means more free pages than the pages before need, and fewer than with this one |
| `Fork.FreeTable` | mm/vmm.c:119-137 | the pages of a subtree are freed, each once |
| `Fork.FreeEntries` | mm/vmm.c:119-137 | the loop over a table's entries frees exactly what lies below them |
| `Fork.Destroy` | mm/vmm.c:115-139 | exactly the pages the user half owns become free, each once |
| `Fork.NewPml4` | mm/vmm.c:101-113 | an empty user half and the kernel's upper half, on a fresh page |
| `Fork.CloneLeaf` | mm/vmm.c:246-263 | one page copied to a fresh page, mapped at the same address with the same low flags |
| `Fork.CloneTable` | mm/vmm.c:228-267 | the loops copy everything below a table |
| `Fork.CloneEntry` | mm/vmm.c:229-264 | an absent entry is skipped, a page copied, a table descended into |
| `Fork.FillCopy` | mm/vmm.c:228-268 | from the empty copy to the deep copy, or to the point where pages ran out |
| `Fork.Clone` | mm/vmm.c:222-269 | succeeds iff enough pages are free; reports failure iff none is free, or exactly as many as the data pages visited before some data page need with their tables, and then restores the free set; done, the copy maps the same user pages with the same low flags and equal contents, in fresh, pairwise distinct pages; however it ends, no page in use is changed |
| `Fork.CopyAccess` | mm/vmm.c:246-263 | in the copy the user may read and write exactly the pages the user may in the source, over all levels of the walk |
| `Fork.CloneThenDestroy` | mm/vmm.c:115-139 | clone then destroy restores the free pages and the counter exactly, for every number of free pages at which the clone returns; which of its outcomes it is, the number of free pages decides |
| `SlabSpec.UnlinkChain` | mm/slab.c:149-155 | taking a page out of a list leaves the rest, in order, and all other headers |
| `SlabSpec.WriteSlot` | mm/slab.c:144-145 | setting or clearing a slot keeps `free_objs` equal to the clear bits |
| `SlabSpec.WriteStep` | mm/slab.c:144-146 | taking or giving back a slot keeps the lists and counters, but for the slab's own place |
| `SlabSpec.PartialToFull` | mm/slab.c:148-158 | the head of the partial list goes to the full list; both stay acyclic and disjoint |
| `SlabSpec.FullToPartial` | mm/slab.c:183-192 | any page of the full list goes to the partial list; both stay acyclic and disjoint |
| `SlabSpec.DropSlab` | mm/slab.c:195-204 | an empty slab leaves the cache; live objects unchanged |
| `SlabSpec.AddSlab` | mm/slab.c:124-131 | a fresh slab becomes the only partial one; live objects unchanged |
| `SlabSpec.HeapStep` | mm/slab.c:117-206 | a step of one cache on its own pages keeps the invariant of all eight |
| `SlabSpec.BlockInPage` | mm/slab.c:54-57 | a block lies past the 56-byte header and inside its page |
| `SlabSpec.HeaderIs` | mm/slab.h:14-21 | the header is as long as its fields, with a bit for each of 256 objects |
| `SlabSpec.CapacityIs` | mm/slab.c:54-57 | a slab has a slot for every object that fits behind the header, up to 256 |
| `SlabSpec.PackedIff` | mm/slab.c:54-60 | a slab has no free slot iff every object that fits on its page is live |
| `SlabSpec.NoPartialIff` | mm/slab.c:117-131 | a cache has no partial slab iff all pages of its class are packed |
| `SlabSpec.GivesUpIff` | mm/slab.c:195 | when a page goes, said of the live objects and the pages of the class |
| `SlabSpec.BlocksDisjoint` | mm/slab.c:67-72 | different slots of whatever slabs and sizes do not overlap |
| `Slab.FindFree` | mm/slab.c:32-40 | the first clear bit, or all are set |
| `Slab.Unlink` | mm/slab.c:149-155 | the pointer surgery takes exactly that page out of the list |
| `Slab.PickSlot` | mm/slab.c:133-142 | a partial slab always has a free slot, so the second `slab_create` is never reached; the slot is the lowest |
| `Slab.RetireIfFull` | mm/slab.c:148-158 | a slab that became full moves over; invariant and live objects kept |
| `Slab.TakeSlot` | mm/slab.c:133-160 | one object more, everything else kept |
| `Slab.ReviveFull` | mm/slab.c:183-193 | a full slab with a slot given back moves to the front of the partial list |
| `Slab.DropIfIdle` | mm/slab.c:195-205 | a slab is given up iff it is empty and more than two remain; live objects unchanged |
| `Slab.GiveSlot` | mm/slab.c:177-205 | one object less, everything else kept; the slab is given up iff this was its last object and the cache has more than two |
| `SlabHeap.FindIndex` | mm/slab.c:74-89 | the slot an address stands for, or -1 iff it stands for none |
| `SlabHeap.SlabAllocator.constructor` | mm/slab.c:237-254 | eight empty caches |
| `SlabHeap.SlabAllocator.Stock` | mm/slab.c:42-65 | a cache without partial slab gets one on a fresh page, any other stays as it is; it fails iff there is no partial slab and no page free |
| `SlabHeap.SlabAllocator.SlabAlloc` | mm/slab.c:117-161 | exactly one new object, in the lowest free slot of its page, on a new page iff every page of the class is packed; NULL, and nothing changed, iff so and no page is free |
| `SlabHeap.SlabAllocator.SlabFree` | mm/slab.c:163-206 | exactly the object at the address is given back, and its page iff it was the last there and the class has more than two pages; an address of no live object changes nothing |
| `SlabHeap.SlabAllocator.Kmalloc` | mm/slab.c:256-281 | an object of the smallest class that fits; NULL for at least one byte iff no page is free and every page of that class is packed with live objects, all that fit behind the header up to 256; then nothing changed |
| `SlabHeap.SlabAllocator.Kfree` | mm/slab.c:283-303 | exactly the object at the address is given back, in its own cache, and its page as above |
| `SlabHeap.PickClass` | mm/slab.c:275-278 | the smallest class that is large enough |
| `SlabRun.LiveDisjoint` | mm/slab.c:67-72 | no two live objects overlap; each is past the header inside one page |
| `SlabRun.ClassFits` | mm/slab.c:275-278 | the class is at least the request, and under twice it above 16 bytes |
| `SlabRun.Retention` | mm/slab.c:195-205 | a cache has at most two pages more than live objects |
| `SlabRun.HeapRetention` | mm/slab.c:195-205 | all eight together at most 16 more |
| `SlabRun.SlabPages` | mm/slab.c:195-205 | so slabs hold at most 16 pages more than the client holds blocks |
| `SlabRun.CrammedIff` | mm/slab.c:67-72 | a page is packed with live objects iff the client holds a block at every address of the page where one fits |
| `SlabRun.AloneIff` | mm/slab.c:195-205 | freeing a block gives its page up iff it is the only block held there and the class has more than two pages |
| `SlabRun.MallocStep` | mm/slab.c:256-281 | the client's blocks stay exactly the live objects; slab pages and free pages together unchanged; NULL for at least one byte iff no page is free and every page of the class is crammed with blocks held, at every address behind the header where one fits; then at most 16 pages more than blocks held |
| `SlabRun.FreeStep` | mm/slab.c:283-310 | freeing a held block frees that block and no other, and its page iff the block was alone there and the class has more than two pages |
| `SlabRun.Serve` | mm/slab.c:256-310 | one request; it takes at most one page from the allocator, and is answered and changes the slab pages as just said |
| `SlabRun.Run` | mm/slab.c:256-310 | after any run, and so at every point of one: blocks returned and not given back are pairwise disjoint, each past the header inside one page in use, of the smallest class that fits; free and slab pages together unchanged; slabs hold at most 16 pages more than there are blocks held; at each request the slab pages change as just said, and a request for at least one byte gets NULL iff every page is a slab and those of its class are crammed with blocks held, so never while there is a free page per request |
| `Spinlock.StepKeeps` | arch/x86_64/smp/lock.c:15-51 | every step keeps: one CPU past the exchange exactly when the word is set, owner field right, its view current |
| `Spinlock.MutualExclusion` | arch/x86_64/smp/lock.c:15-51 | in every run at most one CPU holds the lock, `owner_cpu` names it, and the protected data does not change under it |
| `Spinlock.TryFails` | arch/x86_64/smp/lock.c:43-51 | in every run a `try` fails iff another CPU is past the exchange, and changes nothing |
| `Spinlock.FreeIsTaken` | arch/x86_64/smp/lock.c:15-51 | in every run an exchange takes the lock iff no CPU is past its own, and the CPU is inside after its next step |
| `Spinlock.ReleaseFrees` | arch/x86_64/smp/lock.c:32-41 | in every run a CPU inside that releases is out, and the lock free, after two more steps of its own |
| `Mutex.StepKeeps` | arch/x86_64/smp/lock.c:62-84 | the same invariant for the two-path mutex |
| `Mutex.MutualExclusion` | arch/x86_64/smp/lock.c:62-84 | in every run at most one holder, named by `owner_cpu`, data stable under it |
| `Mutex.FreeIsTaken` | arch/x86_64/smp/lock.c:62-78 | in every run either exchange takes the mutex iff no CPU is past its own; otherwise the slow path looks on until it sees it free |
| `Mutex.ReleaseFrees` | arch/x86_64/smp/lock.c:80-84 | in every run a CPU inside that releases is out, and the mutex free, after two more steps of its own |
| `RwLock.CounterStep` | arch/x86_64/smp/lock.c:101-113 | the 32-bit counter stays the number of CPUs between increment and decrement, without wrapping |
| `RwLock.StepKeeps` | arch/x86_64/smp/lock.c:95-135 | every step keeps the flag, counter, exclusion and data invariant |
| `RwLock.Exclusion` | arch/x86_64/smp/lock.c:95-135 | in every run never a writer with a reader or a second writer; counter exact; `writer_cpu` right; what a CPU inside has read stays current |
| `RwLock.NoNewReaders` | arch/x86_64/smp/lock.c:95-125 | while a writer's flag is up no new reader gets in, and the counter changes at most twice more per CPU |
| `RwLock.DrainEnds` | arch/x86_64/smp/lock.c:122-127 | once those changes are made the counter is 0 and the writer's next look lets it in |
| `RwLock.Admits` | arch/x86_64/smp/lock.c:95-127 | in every run a reader goes on at either look iff no CPU has the flag, an exchange takes the flag iff no CPU has it, and the writer goes in iff no CPU is between increment and decrement |
| `RwLock.ReaderGetsIn` | arch/x86_64/smp/lock.c:95-109 | whatever the other CPUs do, while the flag stays down an idle CPU that asks to read is reading after its fourth step |
| `RwLock.ReadersShare` | arch/x86_64/smp/lock.c:95-109 | there is a run to a state in which any number of CPUs are reading at once |
| `RwLock.WriterGetsIn` | arch/x86_64/smp/lock.c:115-128 | a writer asking for a lock with no reader and no flag is writing after four steps of its own |
| `RwLock.ReleaseFrees` | arch/x86_64/smp/lock.c:111-135 | in every run a reader that releases is out at once, with the counter one less, and a writer after one more step, with the flag down |
| `Sha256Spec.ZeroPadLeast` | lib/sha256.c:98-110 | the padding is the least that leaves room for the length, as section 5.1.1 of FIPS 180-4 asks |
| `Sha256Spec.DigitsSpell` | lib/sha256.c:113-120 | the eight length bytes spell the length |
| `Sha256Spec.WordRoundTrip` | lib/sha256.c:28-30 | writing a word as bytes and reading it gives the word |
| `Sha256Spec.WordBytes` | lib/sha256.c:28-30 | byte j of word t is byte 4t + j of the block |
| `Sha256Spec.ChBits` | lib/sha256.c:5 | `Ch` has the second word's bits where the first has ones, and the third's where it has zeros |
| `Sha256Spec.MajBits` | lib/sha256.c:6 | where two of the three words agree, `Maj` has their bits |
| `Sha256Spec.AddSteps` | lib/sha256.c:44-52 | addition of words goes round: adding 0 changes nothing, one more gives the next word, and 0 follows the last |
| `Sha256Spec.OutputSpells` | lib/sha256.c:123-132 | the digest spells the eight words in order, most significant byte first |
| `Sha256Spec.HmacIs` | lib/sha256.c:154-175 | the keyed hash byte by byte: key or its digest, filled up with zeros, against 0x36 and 0x5c |
| `Sha256Constants.SieveIff` | lib/sha256.c:12-21 | below 361 the sieve the primes are listed by leaves exactly the primes |
| `Sha256Constants.RoundConstantIs` | lib/sha256.c:12-21 | the t-th round constant is the first 32 bits of the fraction of the cube root of the t-th prime, as section 4.2.2 of FIPS 180-4 says |
| `Sha256Constants.InitialHashIs` | lib/sha256.c:71-78 | the initial hash value the same of square roots, as section 5.3.3 says |
| `Sha256Example.KnownAnswer` | lib/sha256.c:23-133 | the standard's example "abc" worked through: its hash value |
| `Sha256.Macros` | lib/sha256.c:4-10 | shifts joined by "or" are the standard's rotations |
| `Sha256.FillSchedule` | lib/sha256.c:28-32 | the message schedule of section 6.2.2 |
| `Sha256.RunRounds` | lib/sha256.c:43-54 | the 64 rounds of section 6.2.2 |
| `Sha256.ShiftedDigit` | lib/sha256.c:113-120 | the bytes taken by shifting are the digits of the length |
| `Sha256.AbsorbStep` | lib/sha256.c:84-92 | one more byte keeps the buffer, state and length those of the message, at a block end too |
| `Sha256.PadCases` | lib/sha256.c:100-110 | the closing block in both cases, including the one that needs a block of its own first |
| `Sha256.Context.Init` | lib/sha256.c:66-79 | the empty message |
| `Sha256.Context.Transform` | lib/sha256.c:23-64 | the compression of section 6.2.2 |
| `Sha256.Context.Update` | lib/sha256.c:81-93 | the message grows by exactly the input |
| `Sha256.Context.Final` | lib/sha256.c:95-133 | the digest of everything given, for any length modulo 2^64 bits |
| `Sha256.HashParts` | lib/sha256.c:66-133 | for every split into updates, the digest of the padded concatenation |
| `Sha256.Hash` | lib/sha256.c:135-142 | the digest of the input |
| `Sha256.HmacHash` | lib/sha256.c:144-176 | the construction of section 2 of RFC 2104, for every key length |
| `UserStack.WordRoundTrip` | kernel/proc/usermode.c:76-78 | a word stored and read is the word |
| `UserStack.ReadBack` | kernel/proc/usermode.c:58-70 | a string stored with its NUL reads back |
| `UserStack.ListBack` | userspace/libc/src/start.asm:8-10 | a NULL-terminated array of string pointers reads back as the strings |
| `UserStack.CopyStrings` | kernel/proc/usermode.c:58-70 | the strings lie below each other in exactly their bytes, nothing else touched |
| `UserStack.PushPointers` | kernel/proc/usermode.c:75-85 | a NULL and below it the pointers in order, nothing else touched |
| `UserStack.BuildUserStack` | kernel/proc/usermode.c:48-91 | `_start` recovers exactly argc, argv and envp; writes stay between RSP and the top; RSP is exactly that many words below the strings, rounded down to 16, so within the bytes allowed, 8-aligned, and 16-aligned iff the counts sum to an odd number |
| `ElfSpec.LoadEndIsMax` | kernel/proc/elf.c:80 | `load_end` is the highest rounded segment end |
| `ElfSpec.HeaderFields` | kernel/proc/elf.h:14-40 | the fields read are those of the two headers by their position and width |
| `ElfSpec.ValidateIs` | kernel/proc/elf.c:7-18 | byte by byte, which files are taken |
| `ElfSpec.SegmentsAre` | kernel/proc/elf.c:32-34 | the i-th program header is `e_phentsize` times i past `e_phoff` |
| `ElfSpec.StopIs` | kernel/proc/elf.c:36-43 | loading stops at the first segment of type 1 with a memory size that starts below 0x400000 |
| `ElfSpec.CoversIff` | kernel/proc/elf.c:45-47 | the pages the loader goes through are those that hold some byte of the segment |
| `ElfSpec.ImageAt` | kernel/proc/elf.c:32-78 | a page of the image has what the last segment covering it describes |
| `ElfSpec.LoadsImage` | kernel/proc/elf.c:52-57 | the pages loaded are those of the image |
| `ElfSpec.OverlapIff` | kernel/proc/elf.c:52-57 | no page is loaded twice iff no two segments share a page |
| `Elf.FillPage` | kernel/proc/elf.c:58-75 | a page holds the file's bytes inside the file part and zeros elsewhere, first and last page included |
| `Elf.LoadPage` | kernel/proc/elf.c:52-78 | one page more in the tree, in a frame of its own, all else kept; without a page exactly as many were free as all before took, without a table more, but fewer than with this page |
| `Elf.LoadSegment` | kernel/proc/elf.c:45-78 | all pages of the segment in order, or as far as memory goes, with the exact count for either way of running out |
| `Elf.Load` | kernel/proc/elf.c:20-90 | refused iff not valid; otherwise the segments before the first one below the base are loaded, the longest beginning of their pages that the free pages pay for with the missing tables; NoMemory iff that is not all and costs exactly the free pages, NoTable iff it is not all and costs fewer; loaded, the tree holds exactly the described image in fresh frames, other mappings and memory kept, tables open to the user, `load_end` the maximum |
| `Elf.Spent` | kernel/proc/elf.c:52-78 | at any time as many pages are gone as tables were missing and pages were loaded |
| `Elf.OutOfTables` | mm/vmm.c:32-34 | running out at a table: more pages than all before took, fewer than with this page |
| `Elf.AffordsIs` | kernel/proc/elf.c:52-57 | the pages loaded are the longest beginning the free pages pay for |
| `Elf.LoadedByte` | kernel/proc/elf.c:52-78 | each byte of a segment's pages, read through the page tables, is the file's or zero, and the user may write it iff the segment is writable, for the last segment covering the page |
| `Elf.ImageReadsBack` | kernel/proc/elf.c:32-78 | segments that share no page all read right: every address of a segment has the file's byte, or 0 past the file part, the user may read it, and may write it iff the segment's flags have bit 1 |
| `Exec.LoadedOwned` | kernel/syscall/syscall.c:265-272 | what was loaded into a new address space, the address space owns, each page at its one place and nothing else, as clone and destroy ask |
| `Exec.Conserved` | kernel/syscall/syscall.c:265-275 | its pages, the free ones and those mapped over are those that were free before |
| `Exec.LostCount` | kernel/proc/elf.c:52-78 | as many pages are lost as loads were of a page loaded before |
| `Exec.Load` | kernel/syscall/syscall.c:264-280 | the outcome is decided by the file and the number of free pages, which pay for the root, the tables and each page in order; a program that cannot be loaded leaves all free pages free but one for each repeated load among the pages it came to |
| `Exec.AllGivenBack` | kernel/syscall/syscall.c:274-280 | so all pages are free again whenever no two of the segments before the first low one share a page |
| `Exec.LoadThenExit` | kernel/proc/process.c:72-75 | loaded and exited, or not loaded: the free pages are what they were but one for each repeated load; after an exit all of them iff no two segments share a page |
| `SchedSpec.DoKeeps` | kernel/proc/scheduler.c:47-102 | every event keeps: a running process is the current one |
| `SchedSpec.OnlyCurrentRuns` | kernel/proc/scheduler.c:47-102 | so in every reachable state |
| `SchedSpec.WakesOnTime` | kernel/proc/scheduler.c:69-73 | a tick wakes a queued sleeper iff its time has come |
| `SchedSpec.DeadlineExact` | kernel/proc/scheduler.c:93 | the deadline is now plus the milliseconds asked for iff no 64-bit product or sum wraps |
| `SchedSpec.PickNearer` | kernel/proc/scheduler.c:35-45 | a pick that passes a ready slot over brings the head nearer to it |
| `SchedSpec.BoundedWaiting` | kernel/proc/scheduler.c:35-88 | a process that is not current and ready in a slot whenever `next_ready` looks is current and running with a full slice within 256 calls and within 5*256 ticks, its slot being passed over until then |
| `SchedSpec.PassedOver` | kernel/proc/scheduler.c:35-88 | while a ready slot is passed over no slot is picked twice, there are fewer than 256 picks and fewer than 5*256 ticks |
| `SchedSpec.YieldIs` | kernel/proc/scheduler.c:47-88 | the process of the nearest ready slot past the head, unless current, becomes current and running with slice 5, the former one, if running, ready, and no other process changes; with none ready a running process goes on with slice 5 |
| `SchedSpec.StateAfter` | kernel/proc/scheduler.c:20-102 | the state, deadline and processor of every process after every event |
| `SchedSpec.SleepIs` | kernel/proc/scheduler.c:90-96 | a sleeper has its deadline, and gives up the processor iff another process is ready |
| `SchedSpec.SleepsUntil` | kernel/proc/scheduler.c:64-102 | over any run, a sleeper that gave up the processor sleeps on until a wake-up or a tick at its time |
| `SchedSpec.FullSlice` | kernel/proc/scheduler.c:75-76 | over any run in which it does not give it up, a running process keeps the processor for every tick of its slice but the last |
| `SchedSpec.ReadyNotRunning` | kernel/proc/scheduler.c:79-96 | a run from boot to a state in which the current process is ready and none is running |
| `SchedSpec.DoPacked` | kernel/proc/scheduler.c:20-26 | slots fill from 0 up; an added process gets a slot iff fewer than 256 were added |
| `SchedSpec.QueueOnlyGrows` | kernel/proc/scheduler.c:20-102 | in every run without `sched_remove` no queued process is overwritten |
| `SchedSpec.RemoveThenAddLoses` | kernel/proc/scheduler.c:28-33 | out of a full queue, a remove and an add overwrite slot 0 |
| `Scheduler.RunQueue.constructor` | kernel/proc/process.c:12-21 | the boot state |
| `Scheduler.RunQueue.Remove` | kernel/proc/scheduler.c:28-33 | the first slot holding the process is emptied |
| `Scheduler.RunQueue.NextReady` | kernel/proc/scheduler.c:35-45 | the ready slot nearest past the head, or none is ready; the head moves just past it |
| `Scheduler.RunQueue.YieldCpu` | kernel/proc/scheduler.c:79-88 | the processor changes hands as `SchedSpec.YieldIs` says |
| `Scheduler.RunQueue.OnTick` | kernel/proc/scheduler.c:64-77 | every queued sleeper that is due wakes, the slice shrinks, and at 0 the processor is yielded |
| `Scheduler.Drive` | kernel/proc/scheduler.c:20-102 | from boot, through any sequence of ticks, yields, sleeps, exits, waits, wakes, adds, creations and reapings, the queue goes through the states of the specification; there a running process is the current one and slots fill from 0 up |
| `Pipe.PutAppends` | kernel/ipc/pipe.c:43-45 | one byte appended, across wrap-around |
| `Pipe.DropRemoves` | kernel/ipc/pipe.c:21-23 | the oldest byte removed, across wrap-around |
| `Pipe.PipeBuffer.CopyOut` | kernel/ipc/pipe.c:18-25 | the copying loop takes the oldest bytes, as many as there are and at most n |
| `Pipe.PipeBuffer.CopyIn` | kernel/ipc/pipe.c:38-47 | the copying loop appends a prefix, all of it unless the buffer is full |
| `Pipe.StepKeeps` | kernel/ipc/pipe.c:7-48 | every byte step of any thread keeps the stream |
| `Pipe.Fifo` | kernel/ipc/pipe.c:7-48 | in every interleaving of any number of threads, bytes read followed by bytes buffered are the bytes written; the head is `count` past the tail, modulo 4096 |
| `Pipe.FedRun` | kernel/ipc/pipe.c:13-24 | with one read at a time, a read past its wait still finds its byte |
| `Pipe.ZeroRead` | kernel/ipc/pipe.c:13-25 | with any number of readers, the next step ends a read of n > 0 bytes with 0 iff it saw the buffer empty and now sees the write end closed, or is past its wait with nothing got and the buffer empty |
| `Pipe.Overtaken` | kernel/ipc/pipe.c:13-25 | two readers that both see the one byte there is: the second returns 0, whatever the write end |
| `Pipe.EndOfFile` | kernel/ipc/pipe.c:13-25 | in every run from a fresh pipe with one read at a time, a read of n > 0 bytes returns 0 iff, having seen the buffer empty, it sees the write end closed; by then every byte written has been read iff none was put in between the two tests |
| `Pipe.LateByte` | kernel/ipc/pipe.c:13-14 | there is a run with one reader in which a read returns 0 and the one byte written stays behind |
| `Pipe.ContiguousStep` | kernel/ipc/pipe.c:18-47 | with one reader and one writer at a time, what a call has moved is the latest piece of the stream |
| `Pipe.ContiguousRun` | kernel/ipc/pipe.c:18-47 | so throughout any such run |
| `Pipe.WholeWrite` | kernel/ipc/pipe.c:38-47 | in any such run from a fresh pipe a write that returns has put in all of its bytes, and they are the latest |
| `Pipe.TwoReaders` | kernel/ipc/pipe.c:13-25 | there is a run with two readers in which a read of 1 byte returns 0 with the write end open |
| `FdSpec.PutSlots` | kernel/proc/process.c:92-112 | changing one descriptor changes which descriptors refer to a file by exactly that one |
| `FdSpec.FileGone` | kernel/ipc/pipe.c:50-60 | releasing a file closes its pipe end and keeps every other file's pipe |
| `FdSpec.PipeReleased` | kernel/ipc/pipe.c:50-60 | a pipe is released iff its other end is closed already; then no file refers to it |
| `FdSpec.InheritStep` | kernel/syscall/syscall.c:107-111 | one descriptor copied and counted keeps everything consistent |
| `FdSpec.ForgetStep` | kernel/proc/process.c:69-70 | one descriptor emptied without dropping its reference |
| `FdSpec.CloseStep` | kernel/fs/vfs.c:112-120 | one descriptor closed; the file goes iff it was the only one and no reference was lost |
| `Descriptors.OpenThenClose` | kernel/syscall/syscall.c:36-56 | opening and closing again restores tables, files and pipes |
| `Descriptors.PipedIs` | kernel/ipc/pipe.c:78-106 | in the new pipe's descriptors, the first is its read end and the second its write end, and no other descriptor changed |
| `Descriptors.ForkedIs` | kernel/syscall/syscall.c:106-111 | each descriptor of the child is the parent's, and exactly their files have one reference more |
| `Descriptors.ExitedIs` | kernel/proc/process.c:63-70 | a zombie with no descriptor, all counts as before |
| `Descriptors.StateAfter` | kernel/syscall/syscall.c:74-161 | the state of every process after every call: only exits, waits and forks change one |
| `Descriptors.Kernel.constructor` | kernel/proc/process.c:12-21 | no file open |
| `Descriptors.Kernel.FindFd` | kernel/proc/process.c:92-103 | the lowest empty descriptor, or none is empty |
| `Descriptors.Kernel.Open` | kernel/syscall/syscall.c:36-46 | one new regular file with one reference in the lowest empty descriptor and no other descriptor changed, or nothing changed and none was empty |
| `Descriptors.Kernel.DropReference` | kernel/fs/vfs.c:112-120 | one reference less; with the last the file is released and its pipe end closed |
| `Descriptors.Kernel.ClosePipeEnd` | kernel/ipc/pipe.c:50-60 | the end is closed, the count drops, the pipe goes with the second end |
| `Descriptors.Kernel.Close` | kernel/syscall/syscall.c:48-56 | the call is `Closed`; refused iff nothing is open there; the file is released iff this was its only descriptor anywhere and none was lost |
| `Descriptors.Kernel.MakePipe` | kernel/ipc/pipe.c:78-106 | two files, the read end and the write end of one new pipe, in the two lowest empty descriptors in this order, as far as there are any, which it returns |
| `Descriptors.Kernel.CreateProcess` | kernel/proc/process.c:31-61 | the lowest unused entry, with nothing open |
| `Descriptors.Kernel.Inherit` | kernel/syscall/syscall.c:106-111 | the child has exactly the parent's descriptors, and exactly their files have one reference more |
| `Descriptors.Kernel.Fork` | kernel/syscall/syscall.c:88-143 | the lowest unused entry, which it returns, has each descriptor of the parent, with exactly their files counted once more, or tables and files unchanged |
| `Descriptors.Kernel.Exit` | kernel/proc/process.c:63-70 | every descriptor empty, the process a zombie |
| `Descriptors.Kernel.Wait` | kernel/syscall/syscall.c:153-156 | a zombie becomes unused, with nothing open |
| `Descriptors.Run` | kernel/syscall/syscall.c:36-161 | after any run of open, close, pipe, fork, exit, wait and switches the state is what the calls' functions give, no descriptor of any process refers to a released file or pipe, and each count covers all descriptors |
| `Ext2Spec.NoStraddle` | kernel/fs/ext2.c:79-99 | descriptors and inodes never straddle a sector |
| `Ext2Spec.BlocksTile` | kernel/fs/ext2.c:63-70 | blocks follow each other without gap from the start of the volume |
| `Ext2Spec.Numbering` | kernel/fs/ext2.c:75-76 | each inode number from 1 on has exactly one place in one group |
| `Ext2Spec.InodeLayout` | kernel/fs/ext2.c:75-99 | a group's first inode is at the start of its table, the next ones 128 bytes apart, the groups' descriptors 32 |
| `Ext2Spec.InodeFields` | kernel/fs/ext2.c:17-42 | size, block numbers and inode table are the fields of the records by position and width |
| `Ext2Spec.FirstStopIs` | kernel/fs/ext2.c:172-173 | the first missing or indirect block at or after a position |
| `Ext2Spec.ReadLengthIs` | kernel/fs/ext2.c:161-177 | a read gets the bytes up to the first that is past the size, in a hole, or past the 12 direct blocks, at most n |
| `Ext2.Volume.ReadBlock` | kernel/fs/ext2.c:63-70 | the buffer holds the block of the flat disk |
| `Ext2.Volume.ReadInode` | kernel/fs/ext2.c:72-101 | fetched through two sectors, the inode is the slice of the flat disk |
| `Ext2.Volume.Read` | kernel/fs/ext2.c:155-183 | exactly the file's bytes from the position, clipped to size, first hole and 12 direct blocks |
| `Ext2.Volume.Write` | kernel/fs/ext2.c:216-255 | within allocated distinct blocks: the bytes are in the file and no other byte of the disk changes |
| `Ext2.Volume.WriteThenRead` | kernel/fs/ext2.c:155-255 | what was written reads back up to the size on disk: in full iff it ends there |
| `Ext2.PlacesDiffer` | kernel/fs/ext2.c:227-228 | different bytes of a file lie at different places |
| `Ext2.WriteLengthIs` | kernel/fs/ext2.c:226-231 | a write goes as far as the 12 direct blocks |
| `Ext2.StoredMore` | kernel/fs/ext2.c:239-249 | one more chunk keeps what was written before and everything outside |
| `VfsSpec.LastComponent` | kernel/fs/vfs.c:136-152 | the part after the last '/' is the last component |
| `VfsSpec.SlashSplits` | kernel/fs/vfs.c:71-79 | components never cross a '/' |
| `VfsSpec.OnePath` | kernel/fs/ramfs.c:88-101 | a node has at most one path |
| `VfsSpec.CreateResolves` | kernel/fs/vfs.c:154-164 | a path that led nowhere leads to its new node, and every other path, that of a second entry included, leads where it led |
| `VfsSpec.RemovedChild` | kernel/fs/ramfs.c:103-114 | after an unlink the name is found iff another entry has it; any other name leads elsewhere iff the last entry has it and the first of that name stands between the two, and then to the last entry |
| `VfsSpec.UnlinkResolves` | kernel/fs/vfs.c:167-176 | what does not pass through the directory, or passes by a name that leads where it led, resolves as before |
| `VfsSpec.UnlinkExact` | kernel/fs/vfs.c:167-176 | exactly the path and what lies below cease to resolve, all other paths unchanged, iff no other entry has the name and the last entry overtakes none |
| `VfsSpec.DistinctClean` | kernel/fs/ramfs.c:103-114 | with distinct names that is so |
| `Vfs.FindMount` | kernel/fs/vfs.c:43-57 | the first of the longest mount paths the path starts with |
| `Vfs.CoversIff` | kernel/fs/vfs.c:51 | a start of a path has components that start the path's iff it ends at such a boundary |
| `Vfs.CanonicalCovers` | kernel/fs/vfs.c:51 | between paths without superfluous '/' covering is a matter of components alone |
| `Vfs.MountsByPrefix` | kernel/fs/vfs.c:43-57 | for every mount table and path, the mount found is the one whole components would find iff none is found, or its path ends in '/', is the path, or is followed by '/' in it |
| `Vfs.FallsIntoMount` | kernel/fs/vfs.c:43-57 | a longer name beside a mount point falls into the mount; by components it would fall to "/" |
| `Vfs.FileTree.FindChild` | kernel/fs/ramfs.c:77-86 | the first child with the name |
| `Vfs.FileTree.NextComponent` | kernel/fs/vfs.c:76-79 | the next component and the rest |
| `Vfs.FileTree.Walk` | kernel/fs/vfs.c:71-84 | the walk ends where the components lead |
| `Vfs.FileTree.Lookup` | kernel/fs/vfs.c:59-85 | a path resolves to the node its components lead to, whatever extra slashes it has |
| `Vfs.FileTree.SplitPath` | kernel/fs/vfs.c:135-152 | cut at the last '/'; a path without one loses its first character |
| `Vfs.FileTree.AddChild` | kernel/fs/ramfs.c:88-101 | one new node, as the last entry, iff there is room for it |
| `Vfs.FileTree.Create` | kernel/fs/vfs.c:154-164 | the status is exactly as the path, its parent and the room left decide; on success one new node in the parent, a path that led nowhere then leads to it and every other path is unchanged; on failure nothing changes |
| `Vfs.FileTree.Unlink` | kernel/fs/vfs.c:167-176 | succeeds iff the path resolves; then one entry is gone, whatever the names in the directory; the path still resolves iff another entry has its name, another name leads elsewhere iff the last entry has it and overtakes the first, and only the path and what lies below are gone iff neither happens; on failure nothing changes |
| `VfsTree.PutThere` | kernel/fs/ramfs.c:77-86 | in the inductive tree, what is put at a path is found there and below |
| `VfsTree.PutElsewhere` | kernel/fs/ramfs.c:77-86 | and every path that neither leads there nor passes through it is unchanged |
| `VfsTree.DistinctPut` | kernel/fs/ramfs.c:88-101 | a tree of distinct names stays one iff what is put there has distinct names |
| `VfsTree.ResolveAbs` | kernel/fs/vfs.c:59-85 | the tree at a path is the one below the node the path resolves to |
| `VfsTree.OneBranch` | kernel/fs/ramfs.c:88-101 | no node lies below two entries of a directory |
| `VfsTree.AbsPut` | kernel/fs/ramfs.c:88-114 | changing one directory's children changes the whole tree at that directory's path only |
| `VfsTree.AddedAbs` | kernel/fs/ramfs.c:88-101 | a new node is a new last entry of the tree at its parent's path |
| `VfsTree.RemovedAbs` | kernel/fs/ramfs.c:103-114 | an unlink removes the first entry of the name there and moves the last into its place |
| `VfsRun.CreateRefines` | kernel/fs/vfs.c:154-164 | status and effect of a create are those of the inductive tree |
| `VfsRun.UnlinkRefines` | kernel/fs/vfs.c:167-176 | status and effect of an unlink are those of the inductive tree |
| `VfsRun.OpenFile` | kernel/fs/vfs.c:88-96 | open with O_CREAT, for every path and tree: whether a file is found, which node, and the step of the inductive tree are exact |
| `VfsRun.Do` | kernel/fs/vfs.c:88-176 | one open, create or unlink is one step of the inductive tree, with its status |
| `VfsRun.Run` | kernel/fs/vfs.c:88-176 | after any run of opens that create, creates and unlinks, from any tree, every status was the one the inductive tree gives and the nodes are that tree |
| `VfsRun.StaysDistinct` | kernel/fs/ramfs.c:88-101 | from distinct names, a call leads to distinct names iff it does not make an entry of a name that is there |
| `VfsRun.OpenDoubles` | kernel/fs/vfs.c:88-152 | an open does that iff the name is there and is given without any '/' |
| `VfsBoot.OpenTwice` | kernel/fs/vfs.c:88-152 | in any tree with room, a name without '/' opened twice: both opens fail, both leave an entry, and after unlinking it the path still leads somewhere |
| `VfsBoot.RemoveLeaves` | kernel/fs/ramfs.c:103-114 | in the inductive tree, an unlinked path at the top still leads somewhere iff another entry has the name |
| `VfsBoot.Mount` | kernel/fs/ramfs.c:153-190 | the mounted tree is the root with seven directories and /etc/hostname |
| `VfsBoot.TopCreatesAfter` | kernel/core/main.c:336-342 | creating directories at the top appends them, whatever is there, each with success |
| `VfsBoot.Boot` | kernel/core/main.c:312-342 | every create of the boot succeeds, and the tree is exactly the mounted one with those directories appended, disk or not |
| `VfsBoot.BootDoubles` | kernel/core/main.c:336-342 | names at the top are then not distinct; unlinking "/etc" takes the host name's file away and leaves "/etc" leading to an empty directory |
| `Ramfs.OverwriteAt` | kernel/fs/ramfs.c:68-73 | what overwriting, extending and leaving a gap mean, byte by byte |
| `Ramfs.ClippedAt` | kernel/fs/ramfs.c:42-46 | what a read returns: as many bytes as there are from the position, at most n, each the file's |
| `Ramfs.RamFile.Read` | kernel/fs/ramfs.c:39-49 | the contents from the position, clipped |
| `Ramfs.RamFile.Grow` | kernel/fs/ramfs.c:56-66 | a larger buffer with the same contents |
| `Ramfs.RamFile.Write` | kernel/fs/ramfs.c:51-75 | fails, changing nothing, iff the buffer would have to grow and there is no memory; otherwise the bytes are written and all others kept; what was known of contents and capacity is known as the value model says |
| `Ramfs.NoGaps` | kernel/fs/ramfs.c:51-75 | if every write that succeeds starts at or before the end, all contents are known |
| `Ramfs.RamFile.RunThenRead` | kernel/fs/ramfs.c:39-75 | after any run of writes, inside the file or past its end, memory short or not, size and capacity are those of the value model and so is every byte outside the gaps; a read gives these bytes, clipped |

## Left out

- Boot code, port I/O, drivers, interrupt and descriptor tables: hardware effects. `invlpg`, CR3 writes and `arch_switch` change nothing in the model; the disk is an array of sectors.
- Weak memory: lock steps are sequentially consistent; the deciding accesses are lock-prefixed and the others are fenced.
- `acquire_time` of the spinlock, and lock names.
- Walking the Multiboot2 tag list: `pmm_init` starts from the list of memory map entries (section 3.6.8 of the Multiboot2 specification), whose ends are taken not to wrap at 2^64.
- Huge pages, and clones of address spaces with NX leaves in the user half: the tree is the 4-level one with 4096-byte pages.
- What happens after `vmm_map` dereferences a missing table: the model stops there with a result of its own.
- SlabHeap.SlabAllocator.Kmalloc: requests of at most 2048 bytes; above that the source takes pages one by one and counts on their being consecutive, which the page allocator does not promise.
- SlabHeap.SlabAllocator.Kfree: pointers into slab pages, and NULL; any other goes to `pmm_free`, which is modelled, but the magic number test before it reads memory the model does not have.
- Custom slab caches and object alignment: the source keeps no clean contract for them.
- Elf.Load: takes a valid file's headers and segment contents to lie inside it and its segments below the kernel half; the source does not look, and reads past the buffer or maps into the kernel's tables otherwise.
- Exec.Load: the same; the copied arguments, the file's buffer and the user stack's pages are not followed.
- Exec.LoadThenExit: the same, and from one `execve` only: `usermode_exec` does not return, so the call that would give back the pages of the former address space (kernel/syscall/syscall.c:299) is never reached and they stay in use.
- Descriptors.Run: assumes fewer than 2^31 - 2 forks, because the count is a C `int` and exits never bring it down again.
- Pipe.Fifo: a byte moves in one step together with the test before it; the source tests, stores and counts in several, which two writers or two processors could interleave.
- The uid, mode and time fields of inodes; `ext2_lookup`, `ext2_readdir` and block allocation in `ext2_write`, which takes block numbers from pages of memory.
- Block and inode numbers of ext2 are unbounded here; the source computes them in 32 bits, so a damaged superblock could make them wrap.
- Ext2.Volume.Write: only writes whose direct blocks are all allocated, for the reason just given.
- Ext2.Volume.WriteThenRead: the same.
- Pages of the kernel stack and the spare PML4 in `proc_create` and `sys_fork`; the register frame of a forked child; signals other than waking and stopping.
- Ramfs.RamFile.RunThenRead: nothing is said of a byte in a gap that a write past the end left, which holds whatever the buffer held.
- Ramfs.RamFile.Grow: whether there is memory is a parameter; the buffer is larger than 2048 bytes, a request `Kmalloc` does not cover. `O_TRUNC` does not reset the node's size and is not modelled.
- `vfs_open` flags other than O_CREAT, memory for the file it returns, device nodes, `procfs`, a second `ramfs_mount`, and mounts other than the one at "/".
- VfsRun.Run: paths shorter than 255 characters that no other mount's path starts, which the copying in `split_path` and the choice of mount ask for.
- VfsRun.OpenFile: the same.
- VfsRun.Do: the same.
- kernel/scheduler/sched.c, kernel/core/auth.c and kernel/core/persist.c: not compiled into the kernel.
- `sha256_make_hash`, `sha256_to_hex` and `sha256_verify`: calls of the modelled functions and text.
- Shell, terminal, framebuffer, keyboard, `printk`, user C library and installer.
