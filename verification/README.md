# LaqieOS kernel and user heap: a verified model

This project models the parts of LaqieOS that keep its data and its memory in order, and
proves what they promise:

- the FAT12 driver (`kernel/fs/fat12.c`): packed table, chains, root directory, whole-file
  read, write and delete on a drive whose sector transfers may fail;
- the physical page allocator (`kernel/page/bitmap.c`) with its packed words and next-fit search;
- two-level paging with tables copied on first write (`kernel/page/paging.c`);
- tasks, their tracked heap and the round-robin scheduler (`kernel/sched/sched.c`);
- the relocating loader (`kernel/sched/exec.c`);
- the user-space free-list `malloc` (`user/stdlib.c`).

Each part has the same shape. Methods follow the C code, loop by loop, on arrays and mutable
fields, and are proved against a specification on values. Laws about that specification are
separate lemmas, up to statements about whole runs.

| part | methods | specification and laws |
|---|---|---|
| FAT12 | `FatOps`, `Directory`, `Names`, `Disk`, `Fat12` | `FatTable`, `Chains`, `Volume`, `VolumeLaws`, `WriteLaws`, `DiskView`, `OnDisk` |
| pages | `PageAllocator` | `PageRuns` |
| paging | `Paging` | `PageTables`, `Addresses` |
| tasks | `TaskHeap`, `Scheduler` | `HeapModel`, `RunQueue`, `QueueLaws`, `Estates` |
| loader | `Loader` | `ExecImage` |
| whole runs | `KernelRun`, `DriveRun` | `RunQueue`, `Estates`, `WriteLaws` |
| user heap | `UserHeap` | `UserHeap` |

`Words` holds machine integers. Words of 32 bits wrap where the source's do; masks and shifts
by constants are written as division and remainder by the power of two.

How the pieces join: `Paging.Memory` owns a `PageBitmap` and keeps three ghost views of its
tables: the flat page map, the live runs that belong to no space, and the frames each space
holds. `Sched.Scheduler` owns a `Memory`; every task has an estate of runs and at most one
space. `Base` and `BaseHeld` are what is left when all estates are taken away, and every call
keeps both. `KernelRun.Run` plays any sequence of calls and concludes that nothing leaks;
`KernelRun.Play` says what each call does to the queue, and `CallsAreRun` that these steps are
a run of `RunQueue`: what `RunQueue` proves of every run holds of the kernel's calls, as
`NobodyStarves` shows. `DriveRun.RunOnDrive` does the same for the calls on one drive.

What a specification's own words mean is stated once more without them: `OnDisk` and
`ImageByBytes` by the bytes of drive and file, `Addresses`, `WalksLikeProcessor` and
`UserRights` by what the processor's walk finds, `QueueLaws` by the jobs in the list,
`OpenedByAddress`, `PlacementIs` and `MallocNeeds` by addresses, words and numbers of pages.

Success is promised as well as failure: the bitmap counts in a ghost field, `refusals`, how
often `KAlloc` has found no run, and each operation above it fails exactly if its arguments are
bad or that count rose. Where the state before the call decides it, as for mappings, tables and
the task heap, the condition is on the number of free pages instead. The user heap counts the
kernel's refusals in the same way.

## What the proofs found

- A file whose normalised name begins with byte 0xE5 is written but can never be found again,
  and its clusters leak (`WriteTheorem`, `WriteOrphans`: both directions; `HiddenExample`).
- Deleting a name that has two entries brings the second one to light (`DeletedIsGone`,
  `DeleteDone`, `StepTheorem`: exactly then; `TwoEntriesExample`). The driver itself never makes
  a second entry (`UniqueStaysUnique`).
- `KAlloc` of more than 65536 pages cuts the child count and breaks the run structure for good
  (`AllocKeepsStructure`, `TooLongExample`). `SchedTaskMalloc` refuses such a request but has
  already done the damage when a run that long was free (`TooLongLeaks`, `SchedTaskMalloc`).
- User `malloc` is right up to 0xFFFFFFE8 bytes; above, the sum with the header wraps and the
  block handed out is too small. Between 0xFFFFFFD9 and 0xFFFFFFE8 each retry takes an arena
  from the kernel that can never satisfy it (`NeedCovers`, `GrowSuffices`, `Malloc`,
  `TooSmallExample`).
- A path that begins with FD or HD but is no drive prefix, such as `FDISK.EXE`, is refused
  (`Fat12NormalizeName`, `RefusedLikeDrive`, `FdiskIsRefused`).
- A failed `PagingMapUserRange` unmaps the pages it had reached, and a `SchedTaskMalloc` that
  fails after mapping unmaps the whole range, even where the kernel's identity entries stood
  before. When this happens is decided by the free pages before the call, and the map left behind
  is stated exactly; it is the old one if and only if no page with a nonzero leaf had been mapped
  over (`BlankedSurvives`, `Undoes`, `SurvivesFailure`). `FailureExample` and
  `FailedMallocExample` run into it.
- The comment at `user/stdlib.c:201` calls a block's size its payload; the code is right only
  when it is read as the span from the header, which is what the model does.
- `docs/memory_map.txt` puts the reserved metadata pages at indices 256 to 767; the code at
  `kernel/page/bitmap.c:124-128` reserves 256 to 511, and the code is followed.

## Assumptions

- Each entry point of the scheduler is one atomic step: `CreateTask` links a task before its
  caller marks it running, so a timer step in between is outside the model.
- In `KernelRun` nobody kills PID 0 and the root does not wait: `TaskKill` and `SchedWaitPid`
  are modelled for these too, but the scheduler counts on a root that can always run. Nobody
  asks for more than 65536 pages at once, in a malloc or for a name, on a machine that has so
  many: see above.
- `kalloc` panics when memory is short. Here it shows as 0, so the callers' error paths, which
  the kernel never reaches, are part of the model and proved to give everything back.
- A well-formed volume is an explicit predicate (`Disk.Info.Mountable`, `Fat12.GoodDrive`),
  because `Fat12LoadInfo` does not check all of it: at most 4084 data clusters (section "FAT
  Type Determination" of Microsoft's "FAT: General Overview of On-Disk Format", version 1.03),
  a table large enough for them, equal table copies, end markers up to the end of the root
  directory (section "FAT Directory Structure" of the same document), disjoint chains that
  cover their files. Names may occur twice.
- Frames are physical memory indexed by address, whatever directory is loaded. Paging follows
  32-bit paging, section 4.3 of the Intel 64 and IA-32 Architectures Software Developer's
  Manual, Volume 3A.

## Model

| member | source | states |
|---|---|---|
| FatTable.PutThenRead | kernel/fs/fat12.c:314-335 | the packed table is an array of 12-bit values: reading a written cluster gives the value modulo 4096, and every other cluster, the one sharing a byte included, keeps its value |
| FatTable.EntriesAfterPut | kernel/fs/fat12.c:324-335 | writing one entry of the bytes updates one cell of the decoded table |
| FatTable.Fat12WriteEntry | kernel/fs/fat12.c:324-335 | the in-place byte update is the 12-bit store at every cluster the table covers |
| Chains.ChainUnique | kernel/fs/fat12.c:366-398 | two cluster chains from the same start are the same chain |
| Chains.ChainDistinct | kernel/fs/fat12.c:377-395 | a chain that ends in an end mark never repeats a cluster, so the cutoff at the cluster count rejects no proper chain |
| Chains.ChainFrame | kernel/fs/fat12.c:366-398 | a chain depends on its own cells only |
| Chains.ChainInUse | kernel/fs/fat12.c:366-398 | no cell of a proper chain is free |
| Chains.ClosedIsReachable | kernel/fs/fat12.c:341-354 | the cells a walk visits before it closes, loops included, are exactly those reachable from its start |
| Chains.ChainReaches | kernel/fs/fat12.c:341-398 | what FreeChain reaches from the start of a proper chain is that chain |
| Chains.FreeListIs | kernel/fs/fat12.c:405-411 | the free list holds exactly the free data clusters, ascending |
| Chains.LowestIsLowest | kernel/fs/fat12.c:400-429 | the clusters an allocation takes are the lowest free ones |
| Chains.AllocateIs | kernel/fs/fat12.c:400-429 | allocating k free clusters makes them a proper chain in ascending order, ended by the end mark, and changes no other cell |
| FatOps.Fat12CollectChain | kernel/fs/fat12.c:366-398 | succeeds exactly when the start is 0 or following entries through data clusters reaches an end mark, and returns that path |
| FatOps.Fat12FreeChain | kernel/fs/fat12.c:341-354 | on any table, cyclic or merging chains included, terminates with exactly the reachable data clusters zeroed and every other entry unchanged |
| FatOps.Fat12AllocateChain | kernel/fs/fat12.c:400-429 | succeeds exactly when enough clusters are free, then returns the lowest ones linked into a chain; otherwise the bytes are untouched |
| Directory.FileSlotFields | kernel/fs/fat12.c:577-588 | a written slot shows its name, first cluster and size again, and is a regular file unless its name begins with an end or deleted mark |
| Directory.LookupUnique | kernel/fs/fat12.c:286-303 | the slot a lookup stands for is unique |
| Directory.Fat12FindEntry | kernel/fs/fat12.c:286-303 | finds the first visible regular slot with the name, or none |
| Directory.Fat12FindFreeEntry | kernel/fs/fat12.c:305-312 | finds the first end or deleted slot, or none |
| Directory.StoreSlot | kernel/fs/fat12.c:577-588 | overwrites one 32-byte slot of the directory buffer and no other |
| Names.Fat12NormalizeName | kernel/fs/fat12.c:223-265 | the scan accepts exactly the paths whose part behind a well-formed prefix is an 8.3 name, and returns its padded upper-case form; a path beginning FD or HD without a full prefix is refused |
| Names.NameByBytes | kernel/fs/fat12.c:210-265 | a path stands for a name exactly if, behind nothing, a slash, or FD or HD with a digit, colon and slash, it has one to eight bytes and then perhaps a dot and up to three, none of them a dot or slash, and the name has these with a to z raised, padded with spaces |
| Names.DenotesOne | kernel/fs/fat12.c:223-265 | a path stands for at most one directory name |
| Names.DenotesNonzero | kernel/fs/fat12.c:223-265 | a normalised name never begins with the end mark |
| Names.RefusedLikeDrive | kernel/fs/fat12.c:223-265 | a path that is an 8.3 name by itself stands for no name if and only if it begins with FD or HD |
| Names.FdiskIsRefused | kernel/fs/fat12.c:223-265 | FDISK.EXE splits into an 8.3 name and yet stands for none, because it begins like a drive prefix |
| VolumeLaws.OtherNamesKept | kernel/fs/fat12.c:452-621 | a change that spares the other files' slots, cells and clusters leaves every other name reading as before |
| VolumeLaws.StaysWellFormed | kernel/fs/fat12.c:528-674 | such a change keeps the volume well formed if the target's new chain is sound and apart from the others |
| VolumeLaws.ReleasedCells | kernel/fs/fat12.c:341-354 | freeing a file's old version zeroes exactly its own chain |
| VolumeLaws.DeleteTheorem | kernel/fs/fat12.c:623-674 | a delete keeps the volume well formed and every other file readable, and neither leaks nor seizes a cluster |
| VolumeLaws.OrphansKept | kernel/fs/fat12.c:528-674 | the clusters in use by no visible file stay the same set when the target's chain accounts for the difference |
| WriteLaws.TakenApart | kernel/fs/fat12.c:541-551 | the clusters a write takes belong to no other file |
| WriteLaws.WriteTarget | kernel/fs/fat12.c:557-588 | the written slot's chain is the new chain, covers the size and holds exactly the data |
| WriteLaws.WriteTheorem | kernel/fs/fat12.c:528-621 | after a write the volume is well formed, every other name reads as before, and the name reads back as the data if and only if its first byte is not the deleted mark 0xE5 |
| WriteLaws.WriteOrphans | kernel/fs/fat12.c:528-621 | a write leaks and seizes no cluster if and only if the name can be found again or the data is empty |
| WriteLaws.WriteCells | kernel/fs/fat12.c:541-551 | taken clusters were free or the file's own, and every other cell keeps its value but for the freed old version |
| WriteLaws.DeletedIsGone | kernel/fs/fat12.c:641-655 | after a delete the name reads as nothing if and only if it had a single visible entry; a second one shows through |
| Fat12.TwoEntriesExample | kernel/fs/fat12.c:641-655 | on a volume with two empty files of one name, deleting the name brings the second file to light |
| Fat12.TwinShowsThrough | kernel/fs/fat12.c:641-655 | whatever the two slots of an empty file of one name hold otherwise, after deleting the name it still reads as a file |
| WriteLaws.StepTheorem | kernel/fs/fat12.c:528-674 | one call, accepted or refused, keeps a well-formed volume well formed and its lost clusters the same; the files change as the same call on a plain map from names to contents if and only if the call does not delete a name that has a second entry |
| WriteLaws.RunTheorem | kernel/fs/fat12.c:528-674 | any run of writes and deletes keeps a well-formed volume well formed and the set of clusters no file owns unchanged; it refines the run on a plain map as long as no delete meets a second entry |
| WriteLaws.UniqueStaysUnique | kernel/fs/fat12.c:528-674 | from a volume without duplicate names no run makes one, so every such run refines the plain map |
| Disk.ParseInfo | kernel/fs/fat12.c:94-140 | the checks accept a boot sector exactly if its sectors have 512 bytes and its fields describe a volume with room for at least one cluster; OnDisk.BootSectorTaken says which bytes these are |
| Disk.ClusterPlace | kernel/fs/fat12.c:146-148 | every data cluster lies behind tables and root directory and inside the volume |
| Disk.ClustersApart | kernel/fs/fat12.c:146-148 | two clusters never share a sector |
| Disk.FatPlace | kernel/fs/fat12.c:168-183 | the table copies lie between the reserved sectors and the root directory |
| Disk.Floppy.FloppyWriteSector | kernel/fs/fat12.c:82-92 | a sector write succeeds, or fails and may leave that one sector arbitrary; no other sector changes |
| Disk.Floppy.Fat12ReadSectors | kernel/fs/fat12.c:70-80 | reads the sectors in order or reports a fault |
| Disk.Floppy.Fat12WriteSectors | kernel/fs/fat12.c:82-92 | writes the sectors in order; whatever happens, only the addressed range may change |
| DiskView.ClusterWritten | kernel/fs/fat12.c:361-364 | a write inside one cluster's sectors changes no table copy, no root byte and no other cluster |
| DiskView.FatCopyWritten | kernel/fs/fat12.c:168-183 | writing one table copy changes neither the other copies nor root and clusters |
| Fat12.Fat12LoadInfo | kernel/fs/fat12.c:94-140 | returns the layout of the boot sector, which OnDisk.BootSectorTaken gives byte by byte, or nothing when it is refused or a transfer failed |
| Fat12.Fat12LoadFat | kernel/fs/fat12.c:150-166 | loads the first table copy byte for byte, or reports a fault |
| Fat12.Fat12FlushFat | kernel/fs/fat12.c:168-183 | on success every copy holds the buffer; nothing outside the table area changes |
| Fat12.Fat12FlushRootDirectory | kernel/fs/fat12.c:203-206 | on success the root area holds the buffer; nothing outside it changes |
| Fat12.Commit | kernel/fs/fat12.c:592-611 | metadata ends as the new buffers, or a flush failed and the rollback put the backups back as far as the drive allowed; data clusters are untouched |
| Fat12.Fat12ReadFile | kernel/fs/fat12.c:452-526 | on success the buffer is the file's contents and a zero byte; without a drive fault it fails only when there is nothing to read |
| Fat12.StoreClusters | kernel/fs/fat12.c:557-575 | stores the data cluster by cluster, zero padded; a failed transfer can only have touched clusters of the new chain |
| Fat12.Prepare | kernel/fs/fat12.c:536-555 | the in-memory half of a write succeeds exactly when a slot and enough clusters exist once the old version is freed |
| Fat12.Fat12WriteFile | kernel/fs/fat12.c:528-621 | the sectors before and after are related as the outcome says, the length is returned exactly on success, and without a drive fault it is refused only for a bad path, a bad volume or lack of room |
| Fat12.Fat12DeleteFile | kernel/fs/fat12.c:623-674 | the same for deletion |
| Fat12.WriteDone | kernel/fs/fat12.c:452-621 | after a successful write on a good drive, reading the path gives the data if and only if the name does not begin with 0xE5; every path with another name reads as before; the drive is good again |
| Fat12.HiddenExample | kernel/fs/fat12.c:528-621 | the path of the single byte 0xE5, written to an empty volume with one slot and one cluster, cannot be read back and loses that cluster |
| Fat12.WriteFailed | kernel/fs/fat12.c:551-611 | a refused write changes no sector; after a failed data transfer or a full rollback, root directory and every table copy are byte for byte the old ones, every other path reads as before, and a path that read as nothing still does |
| Fat12.FailedWriteKeeps | kernel/fs/fat12.c:551-575 | rewriting only the clusters of the would-be chain leaves every other file alone |
| Fat12.DeleteDone | kernel/fs/fat12.c:623-674 | after a successful delete every other path reads as before, and the path reads as nothing if and only if its name had a single visible entry |
| Fat12.DeleteFailed | kernel/fs/fat12.c:655-674 | a refused or fully rolled back delete changes nothing that can be read |
| DriveRun.RunOnDrive | kernel/fs/fat12.c:452-674 | over any run of writes and deletes on one drive, refused ones and those undone after a failed transfer included, the drive stays good, no second entry of a name is made, no cluster is lost or seized but under a name that begins with 0xE5, and every path reads as calls and results tell |
| DriveRun.LastWriteStays | kernel/fs/fat12.c:452-674 | after any such run a path reads as the data last written under its name, if that write went through and every later call on the name was refused, unless the name begins with 0xE5 |
| DriveRun.DeletedStaysAway | kernel/fs/fat12.c:452-674 | and as nothing, if that last call was a delete and no name occurred twice at the start |
| DriveRun.UntouchedStays | kernel/fs/fat12.c:452-674 | and as before the run, if no call on its name went through |
| DriveRun.NothingIsLost | kernel/fs/fat12.c:452-674 | and no cluster is lost or seized by a run on names that do not begin with 0xE5 |
| DriveRun.Serve | kernel/fs/fat12.c:528-674 | performs such a run on a drive whose transfers may fail, up to the first failed rollback; without a drive fault every call goes through or is refused |
| OnDisk.BootSectorTaken | kernel/fs/fat12.c:94-140 | a boot sector is accepted exactly if, by the bytes at their offsets, its sectors have 512 bytes, a cluster a power of two of them, no field is empty, and a cluster has room behind tables and root directory; the layout has these bytes |
| OnDisk.StandardFloppy | kernel/fs/fat12.c:94-140 | the boot sector of a 1.44 MB floppy gives one sector a cluster, one reserved, two tables of nine, 224 root entries, 2880 sectors |
| OnDisk.MountableNumbers | kernel/fs/fat12.c:94-140 | what the theorems about a volume ask of it beyond the driver's own checks: at most 4084 clusters, and the last cell inside the table |
| OnDisk.FatOnDrive | kernel/fs/fat12.c:168-183 | byte by byte, the table copies lie behind the reserved sectors, one after the other |
| OnDisk.RootOnDrive | kernel/fs/fat12.c:185-206 | byte by byte, the root directory lies behind the tables |
| OnDisk.ClusterOnDrive | kernel/fs/fat12.c:146-148 | byte by byte, the clusters lie behind the root directory, from number 2 on |
| OnDisk.CellsInBytes | kernel/fs/fat12.c:314-335 | two cells of the table share three bytes: low byte and low half of the middle one, high half of it and high byte |
| OnDisk.ChainByCells | kernel/fs/fat12.c:366-398 | a chain goes from cell to cell, inside the volume, up to a cell of at least 0xFF8 |
| OnDisk.NewChainCells | kernel/fs/fat12.c:400-429 | a new chain takes cells that were 0 and ends with 0xFFF |
| OnDisk.SlotFields | kernel/fs/fat12.c:36-49 | name, first cluster, size and marks of a slot by their offsets |
| OnDisk.RegularByAttribute | kernel/fs/fat12.c:276-284 | deleted slots, directories, volume labels and long-name entries are no files; all other slots are |
| OnDisk.WrittenSlot | kernel/fs/fat12.c:577-588 | a written slot, offset by offset: the name, attribute 0x20, zeros, first cluster, size |
| OnDisk.ErasedSlot | kernel/fs/fat12.c:651-652 | a deleted slot is 0xE5 and 31 zeros |
| OnDisk.FoundByBytes | kernel/fs/fat12.c:286-303 | a name is found in slot i exactly if this is the first one before the end mark that is a file and has the eleven bytes |
| OnDisk.FreeByBytes | kernel/fs/fat12.c:305-312 | a new name goes to slot i exactly if it is the first to begin with 0 or 0xE5 |
| OnDisk.FileOnDrive | kernel/fs/fat12.c:452-526 | each byte of a file is, on the drive, the byte at its place in the cluster of the chain that holds it |
| OnDisk.WrittenClusters | kernel/fs/fat12.c:557-575 | after a write each cluster of the new chain holds its piece of the data, and zeros behind it |
| OnDisk.EmptyFloppy | kernel/fs/fat12.c:94-206 | a formatted floppy with equal tables and an empty root directory is a good drive, on which no path reads as anything |
| PageRuns.WordFields | kernel/page/bitmap.c:34-61 | the packed page word gives back its three flags and its child count |
| PageRuns.WordValues | kernel/page/bitmap.c:34-61 | the values of the words: 0 reserved, 1 free, 7 child, 8 n - 5 the parent of n pages, for up to 65536 |
| PageRuns.RunsPartition | kernel/page/bitmap.c:178-199 | in a structured bitmap a page is taken exactly if it lies in a run, and in one only |
| PageRuns.MarkAddsRun | kernel/page/bitmap.c:178-186 | marking a free run of at most 65536 pages adds exactly that run |
| PageRuns.MarkTooLong | kernel/page/bitmap.c:178-186 | a longer run always breaks the structure: its count is cut to 16 bits |
| PageRuns.TooLongLeaks | kernel/page/bitmap.c:178-246 | freeing such a run leaves its tail taken by children without a parent |
| PageRuns.MarkRemovesRun | kernel/page/bitmap.c:188-199 | freeing a run's own length removes exactly that run |
| PageRuns.RunsFixFreePages | kernel/page/bitmap.c:249-261 | equal runs leave the same pages free |
| PageRuns.MarkTakesPages | kernel/page/bitmap.c:178-186 | an allocation lowers the number of free pages by exactly its length |
| PageRuns.FreeGivesPages | kernel/page/bitmap.c:188-199 | a free raises it by exactly the length of the run |
| PageAllocator.AllocKeepsStructure | kernel/page/bitmap.c:201-215 | an allocation keeps the structure if and only if it is of at most 65536 pages, and takes only free pages that InitBitmap opened |
| PageAllocator.InitialStructured | kernel/page/bitmap.c:110-131 | the words InitBitmap leaves are structured, and the free pages are exactly those behind the kernel and the user window, metadata pages excepted (PageAllocator.OpenedByAddress gives the addresses) |
| PageAllocator.OpenedByAddress | kernel/page/bitmap.c:100-131 | a page is opened exactly if it lies whole behind the kernel image and the user window at 0x120000 and outside 0x200000 to 0x300000 |
| PageAllocator.CountCovers | kernel/page/bitmap.c:201-215 | a request gets enough pages and not one too many; above 0xFFFFF000 bytes the sum wraps and it gets none |
| PageAllocator.PlacementIs | kernel/page/bitmap.c:141-175 | the search finds nothing exactly if no gap of open, untaken words is long enough, else the first gap from the hint on, or the first of all when there is none behind it |
| PageAllocator.TooLongExample | kernel/page/bitmap.c:110-215 | on a fresh machine with 1 GiB a request for 65537 pages finds a run, and whichever run it marks, the words no longer describe runs |
| PageAllocator.ReachableStructured | kernel/page/bitmap.c:178-246 | every bitmap reached by such allocations and by frees of any address is structured, and only opened pages are ever taken |
| PageAllocator.LiveApart | kernel/page/bitmap.c:178-246 | live runs never overlap in memory |
| PageAllocator.LiveBounded | kernel/page/bitmap.c:178-246 | live runs lie inside the described memory |
| PageAllocator.LiveFixesFreePages | kernel/page/bitmap.c:249-261 | equal live runs leave the same pages free |
| PageAllocator.AllocAddsLive | kernel/page/bitmap.c:201-215 | an allocation adds exactly one live run |
| PageAllocator.FreeRemovesLive | kernel/page/bitmap.c:217-246 | a free removes exactly the run it was given |
| PageAllocator.PageBitmap.constructor | kernel/page/bitmap.c:110-131 | exactly the pages behind the kernel and the user window, metadata pages excepted, are open and free, at most 262144 in all; no run is live |
| PageAllocator.PageBitmap.FindFreeRun | kernel/page/bitmap.c:141-175 | returns -1 exactly when no such run of free pages exists anywhere, otherwise the lowest start at or after the hint, or else the lowest of all |
| PageAllocator.PageBitmap.MarkRunAllocated | kernel/page/bitmap.c:178-186 | the loop writes the parent word and the child words and nothing else |
| PageAllocator.PageBitmap.MarkRunFree | kernel/page/bitmap.c:188-199 | the loop frees exactly the run and lowers the hint to it |
| PageAllocator.PageBitmap.KAlloc | kernel/page/bitmap.c:141-215 | returns 0 exactly when the size rounds to no page or no run fits; otherwise a new live run of exactly that many pages, where the search from the hint finds it first, and the hint moves behind it |
| PageAllocator.PageBitmap.KFree | kernel/page/bitmap.c:217-246 | succeeds exactly on the address of a live run and frees exactly that run; any other address changes nothing |
| PageAllocator.PageBitmap.LiveSpares | kernel/page/bitmap.c:110-246 | no live run meets the kernel image, the user window or the page words, or leaves the installed memory |
| PageAllocator.PageBitmap.CountAvailablePage | kernel/page/bitmap.c:249-261 | counts the free pages |
| PageTables.PrivatizeLeaf | kernel/page/paging.c:51-71 | taking a private copy of a table changes no translation of any space |
| PageTables.PrivatizeOk | kernel/page/paging.c:51-71 | and keeps all owned tables, directories and pages on different frames |
| PageTables.LeafWritten | kernel/page/paging.c:73-83 | writing a leaf through an owned table changes that page of that space only |
| PageTables.LeafOk | kernel/page/paging.c:73-83 | and keeps ownership sound if the new frame is nobody else's |
| PageTables.AddLeaf | kernel/page/paging.c:146-161 | a new space shows the kernel's map; the others keep theirs |
| PageTables.AddOk | kernel/page/paging.c:146-161 | and shares no owned frame with anyone |
| PageTables.RemoveSpace | kernel/page/paging.c:163-178 | forgetting a space leaves every other map and claim as it was |
| PageTables.LeafDecides | kernel/page/paging.c:51-71 | in any space but the kernel's, user mode reads and writes a page of an owned table exactly as its leaf allows, because the directory entry is open; in the kernel's space it reads nothing |
| PageTables.WindowAddresses | kernel/page/paging.c:85-102 | the pages that destroying a space frees are those at 0x100000 to 0x110000 and 0x11E000 to 0x120000 |
| PageTables.EntryValue | kernel/page/paging.c:73-83 | an entry is the frame with present, writable and, for user pages, user bit: frame + 7 or frame + 3 |
| Paging.LiveFromParts | kernel/page/paging.c:146-178 | what the spaces hold and what nobody's space holds determine the live runs |
| Paging.SamePartsSameCount | kernel/page/bitmap.c:249-261 | equal holdings leave the same pages free |
| Paging.Memory.EnsurePrivatePageTable | kernel/page/paging.c:51-71 | gives a space its own table at a slot, with a directory entry open to user mode and to writes (Valid says so of every table a user space owns), which fails if and only if it has none yet and no page is free; the flat page map and everything other spaces hold stay as they are |
| Paging.Memory.MapPage | kernel/page/paging.c:73-83 | changes exactly one page of exactly one space; fails if and only if a table is needed and no page is free |
| Paging.Memory.FreeUserRange | kernel/page/paging.c:85-102 | returns exactly the space's own pages of the range and clears their leaves |
| Paging.Memory.PagingMapUserRange | kernel/page/paging.c:180-203 | backs every page of a window range with a zeroed frame of its own that user mode can read and write, if and only if the free pages suffice; otherwise exactly as many pages as they sufficed for were mapped, are freed again and read as unmapped, and every other page is as before; frames in use keep their contents |
| Paging.BlankedSurvives | kernel/page/paging.c:180-203 | the map a failed mapping leaves is the old one if and only if every page it had reached had an empty leaf |
| Paging.FailureExample | kernel/page/paging.c:104-203 | on a machine with six pages, a new space gets one page of its image window before memory runs out; the failure leaves that page unmapped where the kernel's identity entry was |
| Paging.Memory.PagingMapUserPhysicalRange | kernel/page/paging.c:208-235 | maps a range page by page to the physical range, all of it for user mode to read and write, or none of it for user mode to read, as asked; with good arguments it succeeds if and only if the free pages suffice for the tables the range misses, and otherwise stops exactly before the first table there is no page for; within one table it maps all of it or nothing |
| Paging.Memory.PagingUnmapUserRange | kernel/page/paging.c:242-259 | clears exactly the leaves of the range that lie in owned tables; the frames stay live |
| Paging.Memory.PagingVirtualToKernel | kernel/page/paging.c:292-305 | the walk gives what the flat page map says |
| Paging.Memory.PagingCreateUserAddressSpace | kernel/page/paging.c:146-161 | a new space that shows the kernel's map, or, if and only if fewer than two pages are free, no change at all |
| Paging.Memory.PagingDestroyAddressSpace | kernel/page/paging.c:163-178 | returns exactly what the space held; no other space's map or holding changes |
| Paging.Memory.PagingInit | kernel/page/paging.c:104-142 | the kernel's space maps the covered pages to themselves for supervisor use and nothing else; it takes one page and one for each table, and fails if and only if they are not there |
| Paging.Memory.PrivateApart | kernel/page/paging.c:73-102 | two user pages of windows, in one space or two, never share a frame |
| Paging.RangePages | kernel/page/paging.c:85-102 | the pages of a range are exactly those that meet it |
| Paging.Memory.UserRights | kernel/page/paging.c:51-83 | user mode reads and writes a page exactly if its leaf allows it: both levels of the walk are counted |
| Paging.Memory.WalksLikeProcessor | kernel/page/paging.c:292-305 | the flat page map and the user rights are what the processor's two-level walk finds in directory and table, bit by bit |
| Addresses.MappedAddress | kernel/page/paging.c:208-235 | a range mapped to physical memory leads there offset by offset, and nothing else moves |
| Addresses.UnmappedAddress | kernel/page/paging.c:242-259 | an unmapped range leads nowhere where the space owns the table, and nothing else moves |
| Addresses.BlankedAddress | kernel/page/paging.c:180-203 | the range a failed mapping had reached leads nowhere |
| Addresses.RevokedAddress | kernel/page/paging.c:85-102 | freeing a range unmaps its user pages in the two windows and no others |
| Addresses.IdentityAddress | kernel/page/paging.c:104-142 | the kernel's first map leads each covered address to itself, in supervisor pages, and no other address anywhere |
| Addresses.CreatedAddress | kernel/page/paging.c:146-161 | a new space leads wherever the kernel's does, and no other space changes |
| Addresses.DestroyedAddress | kernel/page/paging.c:163-178 | a destroyed space leads nowhere, and no other space changes |
| Addresses.OutsideAddress | kernel/page/paging.c:180-203 | outside the range of a call every address leads where it did |
| Addresses.ZeroedAddress | kernel/page/paging.c:180-203 | every address of a range that PagingMapUserRange has mapped leads to a live frame and reads as zero |
| Addresses.RangeArguments | kernel/page/paging.c:208-216 | PagingMapUserPhysicalRange takes nonempty ranges of user spaces whose physical memory lies at the same offset of its page, and refuses all else |
| Paging.Memory.kalloc | kernel/page/kalloc.c:4-16 | a run for block and header that nobody held; none if and only if no such run is free |
| Paging.Memory.kfree | kernel/page/kalloc.c:18-24 | returns exactly the run of the block |
| Paging.BlockCovers | kernel/page/kalloc.c:4-16 | a block's run covers its size and the 8 bytes of its header, with less than a page to spare |
| HeapModel.ListsFill | kernel/sched/sched.c:114-121 | filling a free entry lists exactly one allocation more |
| HeapModel.ListsGrow | kernel/sched/sched.c:123-150 | arrays grown by a zero entry list the same allocations |
| HeapModel.ListsRemove | kernel/sched/sched.c:160-173 | clearing an entry lists exactly one allocation less |
| HeapModel.HeapGrows | kernel/sched/sched.c:667-700 | bumping the heap by a mapped run keeps allocations aligned, disjoint, inside the window and translated page by page |
| HeapModel.HeapShrinks | kernel/sched/sched.c:705-729 | revoking one allocation keeps the others and leaves its pages translating to nothing |
| HeapModel.OnePageOneAllocation | kernel/sched/sched.c:667-729 | no page lies in two allocations |
| HeapModel.AllocationsApart | kernel/sched/sched.c:667-729 | two allocations never share a byte of physical memory |
| TaskHeap.NewTracking | kernel/sched/sched.c:87-101 | allocates the descriptor and its three arrays if and only if KAlloc refuses none, for arrays of a page if and only if four pages are free; otherwise gives back whatever it got |
| TaskHeap.AppendTaskMallocAllocationData | kernel/sched/sched.c:85-157 | records the allocation in a free entry or in arrays one longer, freeing the old ones; it succeeds if and only if an entry or four pages are free, and otherwise nothing has changed |
| TaskHeap.SchedTaskMalloc | kernel/sched/sched.c:667-700 | a fresh allocation of whole pages at the old end of the heap, which moves behind it, if and only if a run is free, the window has room, and an entry and the table are there or pages for them; otherwise the heap is as before, and so is the page map, unless only the pages for the arrays are missing: then the range behind the heap is left unmapped; the page words stay sound if and only if the request is of at most 65536 pages or no run that long is free |
| TaskHeap.MallocNeeds | kernel/sched/sched.c:667-700 | what it takes, in numbers: room in 0x400000 to 0x800000, a gap of the pages the size fills, one more page if the window has no table yet, and four if no entry is free |
| TaskHeap.UnmappedIsBlanked | kernel/sched/sched.c:685-696 | taking back a mapping leaves empty leaves, whatever was there before |
| TaskHeap.SurvivesFailure | kernel/sched/sched.c:667-700 | a failed malloc leaves the old page map if and only if it fails before it maps its run, which the state before the call decides, or no page of the range had a leaf |
| TaskHeap.FailedMallocExample | kernel/sched/sched.c:667-700 | with two pages left and the kernel's first 1025 pages mapped to themselves, a task's first malloc fails and unmaps the page at the bottom of its heap window |
| TaskHeap.SchedTaskFree | kernel/sched/sched.c:705-729 | succeeds exactly on the address of a live allocation, returns exactly its run and unmaps exactly its pages; a task without a heap is refused |
| TaskHeap.RemoveTaskMallocAllocation | kernel/sched/sched.c:160-173 | forgets exactly the allocation at the address |
| TaskHeap.FreeTaskMallocAllocations | kernel/sched/sched.c:211-228 | returns every run of the heap and the arrays, each once, and nothing else |
| TaskHeap.HeapAddress | kernel/page/paging.c:292-305 | the byte at any offset of a live allocation is the byte at that offset of its run, and user mode can write it |
| TaskHeap.FreedAddress | kernel/sched/sched.c:705-729 | an address of the used window outside every live allocation translates to nothing |
| RunQueue.NextChooses | kernel/sched/sched.c:802-829 | SchedNext picks the first running, unblocked task in circular order behind the active one, drops its wait and moves no frame |
| RunQueue.LookedSame | kernel/sched/sched.c:645-660 | dropping stale waits blocks and unblocks nobody |
| RunQueue.ReapedExactly | kernel/sched/sched.c:327-345 | exactly the running tasks, the root and the active task survive reaping |
| RunQueue.ReapKeeps | kernel/sched/sched.c:327-345 | reaping keeps the order of the list and the active task active |
| RunQueue.ReapBlocks | kernel/sched/sched.c:327-345 | reaping neither blocks nor unblocks anybody |
| RunQueue.ScheduleStep | kernel/sched/sched.c:836-862 | one call resumes an eligible task; frames move nowhere; whoever is eligible and not resumed has come nearer |
| RunQueue.SkippedPid | kernel/sched/sched.c:378-482 | a PID that a failed append uses up changes no listed task |
| RunQueue.NeverWhileBlocked | kernel/sched/sched.c:645-660 | over any run of appends, skipped PIDs, kills, waits and ticks, Schedule never makes a task active while the task it waits for is listed and running; QueueLaws.WaitsOut says it of the jobs alone |
| RunQueue.ResumesLastFrame | kernel/sched/sched.c:836-862 | over any run, Schedule resumes a task with exactly the frame saved when it was last interrupted |
| RunQueue.StartsAtEntry | kernel/sched/sched.c:410-455 | a task that was never interrupted still has the frame of its entry point |
| RunQueue.ComesNearer | kernel/sched/sched.c:802-862 | over any run without new tasks, ticks and remaining distance of an unpicked eligible task never exceed its first distance |
| RunQueue.PickedInTime | kernel/sched/sched.c:802-862 | a task eligible at every tick is picked within as many ticks as tasks were listed, while dead tasks are reaped |
| QueueLaws.KillStops | kernel/sched/sched.c:566-588 | a kill stops the task with the PID, and no job but its changes |
| QueueLaws.WaitWaits | kernel/sched/sched.c:618-633 | a wait makes the active task wait for a listed, running task other than itself, and no other job changes |
| QueueLaws.AppendAppends | kernel/sched/sched.c:378-482 | an append puts a task with a new PID, ready to run, behind all others |
| QueueLaws.TickKeeps | kernel/sched/sched.c:327-345 | a tick drops exactly the tasks that do not run, but for the root and the active one; it saves the frame in the task it has interrupted, and of the others it changes at most a wait whose target is gone |
| QueueLaws.TickOrder | kernel/sched/sched.c:327-345 | those it keeps stay in their order |
| QueueLaws.TickPicks | kernel/sched/sched.c:802-829 | it resumes a running task that does not wait for a running one, the first of these behind the active task, going round |
| QueueLaws.WaiterIsPassed | kernel/sched/sched.c:645-660 | a task that waits for a listed, running one is not resumed |
| QueueLaws.WaitsOut | kernel/sched/sched.c:618-660 | over any run, from its wait on a task is not resumed while its target runs, unless it waits anew |
| QueueLaws.KilledForGood | kernel/sched/sched.c:327-588 | over any run a killed task is never resumed again, and is listed no more after the first tick that finds another task active |
| QueueLaws.NobodyIsForgotten | kernel/sched/sched.c:802-862 | over any run without new tasks, a task that can run at every tick is resumed by one of as many ticks as tasks were listed |
| Estates.SettledChange | kernel/sched/sched.c:667-729 | when the memory moves for one task only, every other task's estate stays sound |
| Estates.SettledAdd | kernel/sched/sched.c:378-403 | a new task with runs and space of its own unsettles nobody |
| Estates.SettledRemove | kernel/sched/sched.c:251-276 | ending a task returns its runs and space, which nobody else had |
| Sched.DestroyTask | kernel/sched/sched.c:251-276 | frees each run of heap, arrays, stack, tables, directory, pages, name and structure once, and nothing else |
| Sched.EndTask | kernel/sched/sched.c:251-276 | ending one task leaves what belongs to no task as it was and every other task housed |
| Sched.TasksApart | kernel/sched/sched.c:667-729 | no byte of physical memory is user memory twice: two addresses in the windows or live heap allocations of two tasks, or two of one task, never translate to the same byte |
| Sched.SetupRing3Frame | kernel/sched/sched.c:429-455 | the first frame starts at the task's entry on its user stack; a kernel-space task gets a stack of its own first, and there is no frame if and only if KAlloc refused it |
| Sched.HousedMalloc | kernel/sched/sched.c:667-700 | malloc by one task among others: it succeeds and fails exactly as SchedTaskMalloc does, the others do not notice and no run changes owner |
| Sched.HousedFree | kernel/sched/sched.c:705-729 | the same for free |
| Sched.Scheduler.constructor | kernel/sched/sched.c:361-371 | the root alone is listed, active and running, in the kernel's space |
| Sched.Scheduler.CreateTask | kernel/sched/sched.c:378-403 | links a new task with the next PID at the end of the list, or, if and only if name or entry is missing or KAlloc refused, changes nothing |
| Sched.Scheduler.AppendTask | kernel/sched/sched.c:461-482 | a user task in the kernel's space joins the queue behind all others, ready at its entry on a stack of its own, if and only if it has a name and an entry and KAlloc refuses nothing; otherwise everything taken is returned and at most a PID is used up |
| Sched.Scheduler.AppendTaskWithAddressSpace | kernel/sched/sched.c:484-508 | under the same condition a task with the given space joins the queue ready at its entry on the fixed stack, and owns the space; otherwise nothing changes |
| Sched.Scheduler.AppendTaskRing0 | kernel/sched/sched.c:514-522 | under the same condition a kernel task, a new one, joins the queue ready at its entry; otherwise nothing changes |
| Sched.Scheduler.IsTaskWaitBlocked | kernel/sched/sched.c:645-660 | true exactly if the task waits and a listed task with the PID it waits for is running; otherwise it waits no longer |
| Sched.Scheduler.SchedNext | kernel/sched/sched.c:802-829 | ends within one trip round the list with the task the queue specification names, its directory loaded |
| Sched.Scheduler.ActiveSpaceDiffers | kernel/sched/sched.c:327-345 | a task other than the active one has another user space than the active task, and its directory is not the loaded one: what reaping destroys is never in use |
| Sched.Scheduler.ReapOne | kernel/sched/sched.c:333-340 | unlinks one dead, inactive task and ends it; list, housing, loaded directory and accounts stay in order |
| Sched.Scheduler.SchedReapDeadTasks | kernel/sched/sched.c:327-345 | splices exactly the dead, inactive tasks out of the list and ends them; no page leaks |
| Sched.Scheduler.Schedule | kernel/sched/sched.c:836-862 | the frame is saved in the task interrupted, exactly the tasks that do not run leave the list, but for the root and this one, and the frame returned is the one saved in the new active task, which runs, waits for nobody and has its directory loaded; all as the queue specification says |
| Sched.Scheduler.SchedWaitPid | kernel/sched/sched.c:618-633 | the active task, the root too, waits exactly for a listed, running task other than itself; the scheduler stays in order unless it is the root that now waits |
| Sched.Scheduler.TaskKill | kernel/sched/sched.c:566-588 | after it a listed task runs exactly if it did and has another PID, and nothing else changes; the scheduler stays in order unless the PID is 0 |
| Sched.Scheduler.SchedMarkDead | kernel/sched/sched.c:535-539 | the active task stops running, unless it is the root |
| Sched.Scheduler.IsTaskActive | kernel/sched/sched.c:746-752 | true exactly if a running task with the PID is listed |
| Sched.Scheduler.TaskMalloc | kernel/sched/sched.c:667-700 | malloc by the active task, which succeeds and fails exactly as SchedTaskMalloc does and for the root never, keeps the whole system in order whenever the page words stay sound |
| Sched.Scheduler.TaskFree | kernel/sched/sched.c:705-729 | free by the active task frees exactly a live allocation of it, for the root none, and always keeps the system in order |
| Sched.Scheduler.NothingLeaks | kernel/sched/sched.c:251-276 | between two states with the root alone listed and the same pages held by no task, exactly the pages that were free are free |
| ExecImage.ValidateRelocations | kernel/sched/exec.c:49-68 | accepts exactly the tables that lie in the file and name only words inside the image, the 32-bit product included |
| ExecImage.ValidateExecutableImage | kernel/sched/exec.c:70-105 | accepts exactly the signed flat and relocatable images, and returns the header fields at their offsets in the file |
| ExecImage.ImageByBytes | kernel/sched/exec.c:10-105 | an accepted image by the bytes of its file: jump, mark LQE32, version 1 or 2, and for the latter load size at 8, preferred base at 12, entry at 16, table at 20, count at 24, all little-endian, and each listed word inside the loaded part |
| ExecImage.PutThenWord | kernel/sched/exec.c:128-155 | a stored word reads back, and words apart from it are untouched |
| ExecImage.RelocatedWord | kernel/sched/exec.c:157-179 | with words apart, delta is added modulo 2^32 exactly once to exactly the listed words |
| ExecImage.RelocatedByte | kernel/sched/exec.c:157-179 | bytes outside the listed words stay the image's |
| ExecImage.RelocationMeansMoving | kernel/sched/exec.c:162-163 | a word that held an image address as linked holds that address as loaded |
| Loader.WriteChunk | kernel/sched/exec.c:107-126 | a copy into one page succeeds exactly where the page is mapped and changes exactly those bytes; no frame outside the space's image window changes, and no other space sees it |
| Loader.CopyToAddressSpace | kernel/sched/exec.c:107-126 | copies everything exactly when every touched page is mapped |
| Loader.ReadAddressSpaceU32 | kernel/sched/exec.c:128-144 | reads the word, across a page boundary too, exactly when all four bytes are mapped |
| Loader.WriteAddressSpaceU32 | kernel/sched/exec.c:146-155 | writes the word, across a page boundary too, exactly when all four bytes are mapped |
| Loader.RelocateExecutableImage | kernel/sched/exec.c:157-179 | in a mapped window never fails and applies the relocations in order; no frame outside the window changes, and no other space sees it |
| Loader.LoadImage | kernel/sched/exec.c:205-220 | copying and relocating an accepted image into a fresh window never fails, and the space then sees exactly the image, zero behind it |
| Loader.PrepareSpace | kernel/sched/exec.c:198-210 | a new space with both windows mapped, zero and writable in user mode; or, if and only if KAlloc refused a page, everything is given back |
| Loader.Execute | kernel/sched/exec.c:181-240 | a program starts if and only if its file is an accepted image and KAlloc refuses nothing; it is queued under the next PID at its entry and sees exactly its image and a zeroed stack window, both of which user mode can read and write; one that does not start leaves queue and accounts as they were; no frame that was in use is written, and every other space sees the same image |
| Loader.ProgramByte | kernel/sched/exec.c:107-220 | what a started program sees, by the bytes of its file: outside relocated words the file's byte, zero behind the loaded part |
| Loader.ProgramWord | kernel/sched/exec.c:157-179 | and in each relocated word the file's word plus 0x100000 less the preferred base, modulo 2^32 |
| Loader.SeenByte | kernel/sched/exec.c:107-126 | the bytes a program sees are those in the frames its addresses lead to |
| Loader.OthersByte | kernel/sched/exec.c:107-220 | where the others see the same, a program of another space sees at each address the byte it saw |
| Loader.ProgramWindows | kernel/sched/exec.c:198-220 | a started program can read and write every page of its image and stack windows, and its stack at 0x11E000 to 0x120000 is zero |
| Loader.StartsAtHeader | kernel/sched/exec.c:222-236 | a started program is queued at 0x100000 plus the entry in its header, on the stack top 0x120000 |
| KernelRun.Do | kernel/sched/sched.c:378-862 | every call makes the step of the run queue that is its own, an append exactly if it is complete and KAlloc refuses nothing, with the frame of its entry; malloc and free do what they promise to the active task; the scheduler stays in order and the pages that no task holds stay the same |
| KernelRun.CallStarts | kernel/sched/sched.c:378-522 | a call that makes a task puts one behind all others, ready to run, exactly if it is complete and nothing was refused; the task starts where the call, or the header of its file, says |
| KernelRun.Play | kernel/sched/sched.c:378-862 | any sequence of appends, program starts, mallocs, frees, kills, exits, waits and timer ticks does so, call by call; the steps of the calls, one after the other, are a run of the run queue |
| KernelRun.CallsAreRun | kernel/sched/sched.c:378-862 | the steps of any sequence of calls form a run of the run queue, so the laws about runs hold of it |
| KernelRun.NobodyStarves | kernel/sched/sched.c:802-862 | over any calls that make no task, a task that could run at every tick is resumed by one of as many ticks as tasks were listed |
| KernelRun.Run | kernel/sched/sched.c:251-862 | no page leaks over any such sequence: once the root alone is listed again, the free pages are the ones free at the start, and CountAvailablePage gives the same number |
| UserHeap.NeedCovers | user/stdlib.c:232-232 | the searched span covers header and payload if and only if the size is at most 0xFFFFFFE8 |
| UserHeap.GrowSuffices | user/stdlib.c:210-214 | the block heap_grow makes satisfies the retry if and only if the size is not among the last values before the sum wraps |
| UserHeap.FirstFitIs | user/stdlib.c:232-236 | the block taken is the first in the list whose span suffices |
| UserHeap.TookIs | user/stdlib.c:238-252 | what becomes of it: a rest of 24 bytes or more stays in its place in the list with the remaining span, a smaller one goes with it and the block leaves the list |
| UserHeap.TiledSplit | user/stdlib.c:239-247 | splitting a block leaves two blocks that tile its span |
| UserHeap.TiledGrow | user/stdlib.c:210-226 | a new arena's block meets no other block |
| UserHeap.ChainedRemove | user/stdlib.c:249-252 | unlinking through the pointer to the link leaves the other free blocks chained in order |
| UserHeap.FreeListHeap.HeapGrow | user/stdlib.c:210-226 | one free block more at the front of the list, spanning the arena but for a header, or, if and only if the kernel refuses, no change |
| UserHeap.FreeListHeap.Split | user/stdlib.c:239-247 | the tail becomes a free block of its own behind the first part, and both keep the old span between them |
| UserHeap.FreeListHeap.Take | user/stdlib.c:238-252 | the block is live with the span asked for, or less than 24 bytes more; a remainder of use takes its place in the list, and otherwise it just leaves the list; nothing else changes |
| UserHeap.FreeListHeap.Malloc | user/stdlib.c:228-259 | up to 0xFFFFFFE8 bytes: an aligned live block with room for them and less than 48 bytes more, cut from the first free block that fits, or from a new arena, and nothing if and only if the kernel refuses; the last sixteen of these sizes never succeed and use up one page of the window with each retry; above, the block is too small |
| UserHeap.FreeListHeap.Free | user/stdlib.c:261-268 | the block is at the front of the free list, whole, and nothing else changes |
| UserHeap.PayloadsApart | user/stdlib.c:228-268 | live payloads are aligned, inside their arenas, and meet no other live block and no free span |
| UserHeap.BytesConserved | user/stdlib.c:201-268 | each byte of the block an arena began as lies in exactly one block, free or live, whatever was split and recycled |
| UserHeap.Play | user/stdlib.c:228-268 | over any run of malloc and free, by a program that frees only what it holds, exactly what is held is live, with room for what was asked |
| UserHeap.NothingHeld | user/stdlib.c:201-268 | when all is given up again, every byte obtained from the kernel is free |
| UserHeap.TooSmallExample | user/stdlib.c:228-259 | after one growth of the heap, malloc of 0xFFFFFFFF bytes hands out a block that is too small |

## Left out

- Fat12.Fat12WriteFile: negative byte counts, which the source refuses first, are not modelled.
- Fat12FileSize, which is the lookup of Fat12ReadFile without the transfer.
- Paging.Memory.PagingMapUserRange: stated for ranges inside the image and stack windows, the only ranges the kernel passes and the only ones PagingDestroyAddressSpace frees, and only for pages of them the space has not mapped yet; over a page it has, the source overwrites the leaf and the old frame is lost, but the kernel maps each window once, in a new space.
- Paging.Memory.PagingMapUserPhysicalRange: stated for ranges outside those windows, where the task heap lies; mapping foreign frames into a window would make destruction free them.
- Paging.Memory.PagingUnmapUserRange: likewise.
- PagingMapKernelRange, which device code calls, because it would change tables that spaces already share.
- Paging.Memory.kalloc: the block header's contents are not modelled, only its place.
- PageAllocator.PageBitmap.constructor: the lazy initialisation on first use is a constructor.
- Loader.CopyToAddressSpace: stated for the image window, where the loader uses it; likewise the word accesses.
- Loader.Execute: FileSize and ReadFile are one optional value, and the file buffer's own block is not part of the accounting.
- Sched.Scheduler.TaskKill: TaskKillName, which looks a task up by its name, and the halt after killing the active task, which is no step of the scheduler.
- UserHeap.FreeListHeap.Malloc: after a size above 0xFFFFFFE8 nothing is claimed about the heap's later state, because headers then overlap in memory and the model keeps them apart.
- SchedUserMMap, SchedREQFB, SchedREQMouse and the mouse service: they map frames a caller or a device chooses.
- TaskSetOwnedAllocation, which nothing in the repository calls.
- Interrupts inside one kernel call, `cli`, `sti`, `hlt`, the task state segment and the register contents of a frame other than entry and stack.
- Copies between kernel and user memory (CopyFromCurrentTaskUser and its string variant), argument checks, task listing, message passing stubs.
- Floppy controller, DMA, PS/2, PCI, RTC, APM, graphics, serial and timer code: port input and output.
- Boot code, interrupt stubs, descriptor tables; vfs.c, ramfs.c, shells, formatted output, the window manager, string helpers: peripheral, unfinished or easy.
- FAT12 subdirectories, long names and time stamps: the driver does not support them.
