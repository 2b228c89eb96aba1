# A verified model of the kernel's file system, process tables and number code

The repository is a small teaching kernel. Its file system keeps 512 FAT cells, directory tables of
64 rows and file data in a 4 MiB image; its process manager keeps 256 process slots, 32 page frames and
32 page directories; a round-robin scheduler runs the first 16 slots.

## How the model is built

**File system.** `Layout` reads a cluster as 64 rows or as 512 cells. `FileSystem` gives each operation
(`Write`, `Read`, `Delete`, `Format`, `Mount`) as a function from a state (disk clusters and cached FAT) to
the next state, the return code and the bytes read, with the error tests in the driver's order.
`Ownership` says what a consistent disk is: a record with the live directories, the chain of every live
row and the owner of every claimed cluster explains the disk, and there is at most one such record.
`Soundness` and `SafeWrites` prove which calls keep a disk consistent. `Vfs` is the abstract file system,
a map from (directory, name, extension) to contents, with the folders that hold a stray flag;
`Abstraction`, `WriteRefinement`, `DeleteRefinement` and `Runs` prove that every call and every run is a step
or a run of it. `Guarantees` holds what users rely on, `EmptyFolders` says which empty folders can be
deleted, and `Counterexamples` holds calls that break the disk or leave the map, next to two that are safe.
`BlockDevice` and `Driver` are the imperative driver: classes with the image, the cached FAT and the
directory buffer as arrays, each loop of the source with its invariants, each method proved to leave exactly
the state, code and buffer that the `FileSystem` operation describes. So what is proved of the operations
holds of the driver for every call that stays inside its arrays, and the driver reports the calls that do
not; `Restart` spells one such result out on the bytes of the image.

**Processes.** `Paging`, `ProcessTable`, `Scheduler`, `Processes` and `ProcessManager` model the tables the
same way: functions for what a call leaves, classes over arrays that are proved against them, and an
invariant kept by every run from boot. `NewProcess` says what a creation and a destruction leave of one
process, down to each page entry; `Running` says which runs keep at most one process running, the
premise of the fairness result.

**Numbers.** `Decimal` proves two differently built printers against one canonical decimal; `Timestamp`
proves the closed forms for days and seconds against a calendar counted one day and a clock counted one
second at a time.

## What a caller has to provide

- *Writes.* The buffer holds whole clusters and the parent number lies on the disk. A successful write keeps
  the disk consistent if and only if the name is not eight NULs, the parent is a live directory, a row among
  1 to 62 is not flagged, and, for a folder, the first free cluster decodes to rows without names
  (`SafeWrites.WriteKeepsSoundIff`). Each condition has a disk and a call on which the shipped code
  succeeds and leaves the disk inconsistent (`Counterexamples`).
- *Reads and deletes.* On a consistent disk the walk of a read or delete stays inside the map if and only if
  the row it finds starts at a cell from 1 on that is in the map and not empty (or, for a read, at
  END_OF_FILE; a folder's cluster only has to be in the map to be deleted): `Soundness.ReadEndsIff`,
  `Soundness.DeleteEndsIff`. A named key in a live directory always meets this. A name of eight NULs does
  not: it can find an empty row, which starts at cell 0 (`Counterexamples.NulReadExample`,
  `Counterexamples.NulDeleteExample`); and a parent that only looks like a directory can hold any row.
  Of the calls that stay inside the map, exactly those with a live or rejected parent and a name, or a key
  no row has, behave like the abstract file system (`Runs.ReadRefinesIff`, `DeleteRefinement.DeleteRefinesIff`).
  A successful delete that erases a row nobody owns breaks the disk unless that row is a folder's on a cell
  that is free already (`SafeWrites.DeleteKeepsSoundIff`).
- *Read buffers.* A read copies whole clusters, so the buffer holds whole clusters too: the bytes copied fit
  the size named if and only if that size, for a file, is at least the file's size rounded up to clusters
  (`Runs.ReadFitsIff`, `Counterexamples.OneByteReadExample`).
- *Staying inside the arrays.* Line 233 of `src/fat32.c` flags the row whose index is the parent's cluster
  number. For parents from 64 to 127 that row lies in the unused cluster buffer behind the table; from 128
  on it lies outside the driver's memory. The scans for free clusters stop at 0x800 while the map has 512
  cells. The walks of reads and deletes leave the map as said above, and a read can outrun its buffer. What
  the source reads or writes out there is not modelled: the driver's methods stop and report it in the
  out-parameter `left`, for writes exactly when `FileSystem.LeavesMemory` holds, for reads exactly when
  `FileSystem.ReadFits` does not, for deletes exactly when `FileSystem.DeleteEnds` does not (on a map whose
  cell 0 has its reserved value). The scan bound is a parameter; with 512 every shortage is covered, undo
  loop included.
- *Formatting.* Only cells 0 to 2 of the cached FAT are set, so the result is consistent if and only if
  the others were empty, as they are in zeroed memory at boot (`SafeWrites.FormatSoundIff`).
- *Process creation.* The 32-bit sum behind the frame count wraps to 0 for sizes in
  (2^32 - 2^23, 2^32 - 2^22]. A creation passes its tests without room in the tables exactly if no frame is
  left and its size wraps (`Processes.UnderflowIff`, `Processes.UnderflowExample`); runs are over all other
  calls. `left` reports this case too.
- *Running processes.* A creation makes slot 0 run before it switches, so it leaves one process running if
  and only if no slot but 0 was running (`Running.CreationRunsIff`); the third creation after boot leaves two
  (`Running.ThirdCreationExample`). At most one slot runs throughout a run exactly if its creations succeed
  only while no slot but 0 is running (`Running.BootRunsIff`).

## Where code and comments disagree

The model follows the code.

- The comment on `read` promises code 1 for a directory (`src/fat32.c:149`). The test compares the attribute
  with 1 instead of the subdirectory value, so reading a directory returns 0 and its table.
- The same comment says that the buffer size limits the bytes read (`src/fat32.c:148`). A read of a one-byte
  file with size 1 copies 2048 bytes.
- The comment on `write` promises code 1 for an existing file. The test also rejects the directory's own
  name in row 0, and takes any two extensions that begin with NUL as equal (`src/fat32.c:216-224`).
- `delete` promises to delete an empty directory (`src/fat32.c:353`). The flag set at line 233 can leave a
  nameless flagged row, after which the directory counts as not empty for ever (`EmptyFolders.StainedForEver`).
  An empty folder that was made on a cluster without flagged rows is refused exactly if a write in it has
  succeeded and its cluster is below 64 and not 62 (`EmptyFolders.FolderStuckIff`).
- After a failed image read, the frame is meant to be freed when the process was destroyed
  (`src/process.c:53-57`). `process_destroy` returns 0 for success, so the frame is never freed
  (`Processes.FailedReadLosesFrame`).
- `paging_allocate_user_page_frame` promises to map a free physical frame (`src/paging.c:60-61`). The address it
  passes on is the free frame count, which is below 4 MiB, so every user page is on frame 0
  (`NewProcess.AllocationMaps`).
- `kernel_setup` starts the scheduler after creating process 0 (`src/kernel.c:44-47`). A creation that succeeds
  switches to the process and does not return, so this happens only after one that failed, on an empty slot
  (`Processes.StartAfterFailure`).

## Model

| member | source | states |
|---|---|---|
| Layout.TableRoundTrip | src/header/filesystem/fat32.h:84-105 | Storing a directory table in a cluster and loading it gives the same 64 rows: names, attributes, both halves of the cluster number, size. |
| Layout.ClusterRoundTrip | src/header/filesystem/fat32.h:84-105 | Loading a cluster as a table and storing it again changes no byte, so a directory update touches only its row. |
| Layout.FatRoundTrip | src/header/filesystem/fat32.h:60-62 | The FAT stored in cluster 1 and loaded again is the same map. |
| Layout.FatClusterRoundTrip | src/header/filesystem/fat32.h:60-62 | Every cluster is the image of exactly one map: loading and storing changes no byte. |
| Layout.RowOffsets | src/header/filesystem/fat32.h:84-100 | Every field of row i lies in the stored cluster at its offset in the packed structure, the numbers low byte first. |
| Layout.CellOffsets | src/header/filesystem/fat32.h:60-62 | Cell i lies in bytes 4 i to 4 i + 3 of the stored cluster, low byte first. |
| FileSystem.ClustersCover | src/fat32.c:275-279 | The cluster count of a size is the smallest whose clusters hold it. |
| Chains.ChainUnique | src/fat32.c:181-185 | From a start cluster there is at most one walk that ends. |
| Chains.ChainDistinct | src/fat32.c:181-185 | A walk that reaches END_OF_FILE never visits a cluster twice, so chains are acyclic. |
| Chains.FreeCellsComplete | src/fat32.c:284-293 | Every empty cell is among the candidates of the scan. |
| Chains.FirstFit | src/fat32.c:281-305 | The k clusters chosen are free, distinct, increasing, and below every free cluster not chosen. |
| Chains.LinkIsChain | src/fat32.c:295-320 | Linking the chosen clusters makes them, in this order, the chain from the first. |
| Chains.LinkPointwise | src/fat32.c:295-320 | A map in which the chosen clusters form a chain and every other cell is unchanged is the linked map: the allocation has one possible result. |
| Chains.LinkUses | src/fat32.c:295-320 | Allocating k free clusters lowers the number of free cells by exactly k. |
| Chains.LinkLeavesRest | src/fat32.c:281-320 | After allocating the first k free clusters exactly the others are free, in the same order: the next allocation goes on where this one stopped. |
| Chains.ClearLink | src/fat32.c:307-317 | Clearing the clusters of a fresh chain gives every cell of the map before back. |
| Chains.ClearReturns | src/fat32.c:403-412 | Freeing a chain raises the number of free cells by exactly its length. |
| Chains.ScatterFrame | src/fat32.c:336-343 | Spilling a buffer into a chain changes no cluster outside the chain. |
| Chains.GatherScatter | src/fat32.c:176-187 | Collecting a chain after spilling a buffer into it gives exactly the buffer. |
| Chains.ScatterAt | src/fat32.c:336-343 | After spilling, cluster j of the chain holds bytes 2048 j to 2048 j + 2047 of the buffer. |
| Ownership.ChainsDisjoint | src/fat32.c:237-334 | Two live rows, in any directories, never share a cluster. |
| Ownership.FileAvoidsDirs | src/fat32.c:322-343 | No file owns a directory's cluster or one of the clusters 0 to 2. |
| Ownership.ReachesRoot | src/fat32.c:252-271 | Following row 0 upwards from any live directory reaches cluster 2, in as many steps as the directory is deep. |
| Ownership.RecordUnique | src/fat32.c:237-334 | A disk has at most one assignment of directories, chains and owners. |
| Ownership.AddFile | src/fat32.c:318-334 | Adding a row with a chain of free clusters keeps the ownership invariant, with the new row as owner. |
| Ownership.AddFolder | src/fat32.c:248-271 | Adding a directory adds a leaf one level below its parent and keeps the invariant. |
| Ownership.RemoveEntry | src/fat32.c:391-456 | Erasing a row and its chain, or an empty directory with its cluster, keeps the invariant and removes that row alone. |
| Soundness.ReservedNotDirectory | src/fat32.c:54-57 | Neither the boot cluster nor the FAT's cluster passes the test for a parent directory, so no call writes a table there. |
| Soundness.FreeRowIsLast | src/fat32.c:213-227 | The row picked for an entry is the last below 63 that is not flagged, or 0 if all are. |
| Soundness.WriteKeepsConsistent | src/fat32.c:202-349 | A successful write that meets the caller's conditions leaves a consistent disk, the cached FAT equal to the stored one, and the claimed clusters owned by the new row. |
| Chains.ChainInUse | src/fat32.c:181-185 | With its reserved value in cell 0, a walk that ends passes only cells from 1 on that are not empty. |
| Soundness.HasChainIff | src/fat32.c:181-185 | On a consistent disk the walk from a cell ends if and only if the cell is from 1 on, in the map and not empty. |
| Soundness.ReadEndsIff | src/fat32.c:164-187 | On every consistent disk, for every parent on the disk and every name: a read stays inside the map if and only if the row it copies starts at such a cell or at END_OF_FILE. |
| Soundness.DeleteEndsIff | src/fat32.c:375-454 | The same for a delete, where a folder's cluster has to be on the disk, and in the map when it is freed. |
| Soundness.DeleteKeepsConsistent | src/fat32.c:358-459 | A successful delete leaves a consistent disk whose record lacks exactly the row, its chain, and a deleted directory. |
| SafeWrites.ParentIsLive | src/fat32.c:208-211 | If the disk is consistent after a successful write, the parent was a live directory. |
| SafeWrites.ParentHasFreeRow | src/fat32.c:213-227 | If the disk is consistent after a successful write, one of the rows 1 to 62 was not flagged. |
| SafeWrites.FolderWasNameless | src/fat32.c:265-271 | If the disk is consistent after a folder was made, its cluster held no row with a name before. |
| SafeWrites.NameIsLive | src/fat32.c:253-262 | If the disk is consistent after a successful write, the name was not eight NULs: such a row owns nothing. |
| SafeWrites.WriteKeepsSoundIff | src/fat32.c:202-349 | A write keeps the disk consistent if and only if it returns an error, or the name is not all NUL, the parent is live with a free row and, for a folder, the cluster picked decodes to nameless rows. |
| SafeWrites.ClearedCellBreaks | src/fat32.c:404-411 | Emptying a claimed cell while all owned rows stay leaves no consistent reading of the disk. |
| SafeWrites.DeleteKeepsSoundIff | src/fat32.c:358-459 | A delete that starts at a cell in use ends, and keeps the disk consistent if and only if it returns an error, or erases a named row of a live directory, or the row erased is a folder's whose cell is free already. |
| SafeWrites.FormatSoundIff | src/fat32.c:49-73 | Formatting gives a consistent disk if and only if the cached FAT was empty from cell 3 on. |
| SafeWrites.MountRestores | src/fat32.c:76-84 | Mounting a consistent disk gives back the state it was left in, whatever the cache held. |
| Vfs.StepTracks | src/fat32.c:151-459 | One abstract step keeps the tree in line with the history of successful writes and deletes. |
| WriteRefinement.TakenIffClash | src/fat32.c:215-228 | The duplicate scan over rows 0 to 62 rejects a name exactly when the directory itself or one of its live entries has it. |
| WriteRefinement.WriteKeepsOthers | src/fat32.c:322-343 | A successful write leaves row, chain and bytes of every other key, in any directory, as they were. |
| WriteRefinement.WriteRefines | src/fat32.c:202-349 | Every write is an abstract write with the same code: 2, 1, -1 in that order for a bad parent, a taken name, too few clusters; else the map changes at one key, the free count drops by the clusters used, and a stray flag can appear in the parent only. |
| DeleteRefinement.FolderRefusedIff | src/fat32.c:415-429 | A folder is refused with 2 if and only if it holds an entry or a row that is flagged and has no name; otherwise it is deleted. |
| DeleteRefinement.DeleteKeepsOthers | src/fat32.c:391-456 | A successful delete leaves row, chain and bytes of every other key as they were. |
| DeleteRefinement.DeleteRefines | src/fat32.c:358-459 | Every delete of a named key, in a live directory or through a rejected parent, terminates and is the one abstract delete: -1 for a bad parent, 1 for no entry, 2 for a folder with entries or a stray flag; else the key is removed and its clusters are free again. |
| DeleteRefinement.DeleteRefinesIff | src/fat32.c:358-459 | For every parent and name, of the deletes that stay inside the map exactly those of a named key, or of one no row has, in a live directory, and those with a rejected parent, are abstract deletes on a disk that stays consistent. |
| Runs.ReadRefines | src/fat32.c:151-193 | Every read of a named key, in a live directory or with an unflagged parent, returns what the abstract map holds: 3 for no entry, 2 for a buffer smaller than the file, else its bytes, or a directory's raw table; it changes nothing. |
| Runs.ReadRefinesIff | src/fat32.c:151-193 | For every parent and name, of the reads that stay inside the map exactly those of a named key, or of one no row has, in a live directory, and those with an unflagged parent, are abstract reads. |
| Runs.ReadFitsIff | src/fat32.c:172-185 | The bytes a successful read copies fit the size named if and only if that size is at least the file's size rounded up to clusters, or one cluster for a directory. |
| Runs.RunIsSound | src/fat32.c:151-459 | Every state of every run is consistent. |
| Runs.RunRefines | src/fat32.c:151-459 | Every call of every run is a step of the abstract file system with the same return code. |
| Runs.RunTracks | src/fat32.c:151-459 | In a run from an empty disk, an entry exists exactly where the last successful write was not undone, and holds what was written. |
| Runs.FormatIsEmpty | src/fat32.c:49-73 | A freshly formatted disk is consistent, has the root as its only directory, and no entries. |
| Runs.RootHeading | src/fat32.c:60-71 | The root of a formatted disk is named "root", padded with NULs; 509 clusters are free. |
| Runs.MountFormats | src/fat32.c:40-84 | A mounted disk always has the signature and a cache equal to its FAT. One that had it keeps every byte; one that had not gets the root table and the three reserved cells, and keeps the rest of cluster 0 and all clusters from 3 on. |
| Runs.FirstMount | src/fat32.c:40-84 | Mounting any disk without the signature, with a zeroed cache, gives a consistent disk with the root as its only directory, no entries and 509 free clusters. |
| Runs.ReadReturnsLastWrite | src/fat32.c:151-459 | After any run from a formatted disk, reading a key gives 3 if no undeleted write of it succeeded, 2 if the buffer is too small, and otherwise 0 with exactly the bytes last written. |
| Runs.ReadAfterFirstMount | src/fat32.c:76-459 | The same after any run that starts with the first mount of any disk without the signature. |
| Guarantees.WriteThenRead | src/fat32.c:176-187 | After a successful write of a file, a read of its key gives 0 and exactly the bytes when the buffer is large enough, else 2. |
| Guarantees.WriteLeavesOthers | src/fat32.c:202-349 | No write, successful or not, changes presence, row, chain or bytes of another key. |
| Guarantees.DeleteLeavesOthers | src/fat32.c:358-459 | No delete, successful or not, changes presence, row, chain or bytes of another key. |
| Guarantees.ErrorsChangeNothing | src/fat32.c:209-317 | A call with a non-zero code leaves every byte of the disk and every cell of the cache as it was. |
| Guarantees.WriteTouches | src/fat32.c:231-343 | A successful write changes the FAT's cluster, the parent's and the claimed ones, and no other byte of the disk. |
| Guarantees.DeleteTouches | src/fat32.c:391-455 | A successful delete changes the FAT's cluster, the parent's and a folder's own, and no other byte of the disk. |
| Guarantees.WrittenRow | src/fat32.c:213-334 | A successful write puts name, extension, attribute 0 or 0x10, flag 0xAA, the first free cluster and the size into the last unflagged row below 63; no other row of the table changes, but for the flag of row `parent`. |
| Guarantees.BytesOnDisk | src/fat32.c:281-343 | On any disk, cluster j of the data is in the j-th free cluster. |
| Guarantees.NewFolderTable | src/fat32.c:265-271 | A new folder's row 0 has its name and leads to the parent; its other rows are what the cluster held. |
| Guarantees.DuplicateIff | src/fat32.c:215-228 | A name is refused with 1 if and only if the directory itself or a live row has it, with the same extension or both starting with NUL. |
| Guarantees.ComparedRows | src/fat32.c:215-228 | On any disk a name is refused if and only if one of the rows 0 to 62, live or not, has it. |
| Guarantees.AttributeOne | src/fat32.c:169-171 | On any disk a row whose attribute byte is 1 is refused with 1 and nothing is copied. |
| Guarantees.FlagOffset | src/fat32.c:233-233 | With the scan bound at 512 a write leaves the arrays if and only if it passes the checks and byte 32 parent + 12 lies behind the 4096 bytes of table and cluster buffer. |
| Guarantees.DeletedRow | src/fat32.c:392-401 | A deleted row has no name, extension, attribute or flag, keeps its start and size, and no other row of the table changes. |
| Guarantees.DeletedHead | src/fat32.c:442-451 | A deleted folder's own row 0 has no name, flag or attribute; its other rows are as they were. |
| Guarantees.DeletedFolderIsNoParent | src/fat32.c:442-451 | After a folder has been deleted every write with its cluster as parent returns 2, every read and delete -1, whatever the name, and nothing changes. |
| Guarantees.FatRestored | src/fat32.c:403-455 | A successful write followed by a successful delete of the key restores every cell of the FAT, in memory and on disk. |
| Guarantees.DeleteUndoesFile | src/fat32.c:391-412 | Deleting a file just written succeeds, restores the FAT in memory and on disk, and makes the key absent (3). |
| Guarantees.DeleteUndoesFolder | src/fat32.c:415-456 | A folder just made can be deleted if and only if its cluster held no flagged row; then the FAT is restored and the key is absent (3). |
| Guarantees.ClustersConserved | src/fat32.c:237-334 | Free cells and the lengths of all chains always add up to 509: no cluster is lost or counted twice. |
| Guarantees.KeysAreUnique | src/fat32.c:165-168 | The first-match scans of read and delete find the one live row of its key, and that row is never row 63. |
| Guarantees.RemountAfterRun | src/fat32.c:76-84 | After any run the cached FAT is the stored one, and mounting with any cache gives the same state. |
| EmptyFolders.EmptyFolderRefusedIff | src/fat32.c:419-429 | An empty folder is refused if and only if a row of its table is flagged and has no name. |
| EmptyFolders.WriteStainsIff | src/fat32.c:213-233 | After a successful write in directory p there is such a row if and only if there was one, or p is below 64, row p is not live and the new entry does not take it. |
| EmptyFolders.StainedForEver | src/fat32.c:151-459 | Once a live directory has such a row, it has one, and is live, in every later state of the run. |
| EmptyFolders.FolderStuckIff | src/fat32.c:233-429 | A folder made in the run on a cluster without flagged rows, still there and empty, is refused if and only if its cluster is below 64 and not 62 and a write in it has succeeded since. |
| EmptyFolders.FolderAfterUse | src/fat32.c:233-429 | For every folder just made: write a file in it, delete the file, delete the folder; the last call returns 2 or 0 by the folder's cluster alone. |
| Counterexamples.NulNameExample | src/fat32.c:253-262 | On a fresh disk a file named eight NULs with extension x returns 0 and its cluster belongs to no row. |
| Counterexamples.ForgedDeleteExample | src/fat32.c:363-365 | Through a free cluster whose old bytes look like a directory with a file at cluster 2, a delete returns 0 and frees the root. |
| Counterexamples.NulReadExample | src/fat32.c:164-185 | On a fresh disk a read of the empty key in the root finds the empty row 1, starts at cell 0 and leaves the map. |
| Counterexamples.NulDeleteExample | src/fat32.c:375-410 | After one safe write in the root of a fresh disk, a delete of the empty key finds the row that write flagged and leaves the map. |
| Counterexamples.NulDeleteOnFresh | src/fat32.c:375-389 | On a fresh disk, where no row is flagged, the same delete returns 1. |
| Counterexamples.OneByteReadExample | src/fat32.c:172-185 | A one-byte file read with size 1 returns 0 and copies 2048 bytes. |
| Counterexamples.StuckFolderExample | src/fat32.c:233-429 | On a fresh disk: make a folder (cluster 3), write a file in it, delete it; the folder is empty and its delete returns 2. |
| Counterexamples.TooLargeExample | src/fat32.c:284-305 | On a fresh disk a file of 510 clusters passes all checks and drives the shipped scan out of the map; with the bound at 512 it does not. |
| Counterexamples.FullDirectoryExample | src/fat32.c:213-227 | In a root whose rows 1 to 62 are flagged, a write returns 0 and overwrites row 0: the disk is inconsistent. |
| Counterexamples.LeftoverExample | src/fat32.c:265-271 | On a cluster with one left-over byte in a name field, making a folder returns 0 and leaves a row nobody owns. |
| Counterexamples.ForgedParentExample | src/fat32.c:208-211 | A free cluster whose old bytes look like a table is accepted as parent; the write returns 0 and its cluster belongs to no row. |
| Counterexamples.SafeExample | src/fat32.c:202-349 | On a freshly formatted disk the first file and the first folder return 0 and meet every condition of a safe write. |
| BlockDevice.MemCopy | src/stdmem.c:5-12 | The target holds the source's bytes from the given position on, and its own everywhere else. |
| BlockDevice.MemCompare | src/stdmem.c:24-35 | 0 exactly for equal bytes; otherwise the sign is the order at the first difference. |
| BlockDevice.Image.ReadBlocks | src/external-inserter.c:13-21 | The buffer gets exactly the bytes of the blocks asked for and keeps the others. |
| BlockDevice.Image.WriteBlocks | src/external-inserter.c:23-31 | The image holds the buffer at the blocks named and is unchanged elsewhere. |
| BlockDevice.StoreCluster | src/fat32.c:18-20 | Blocks of different clusters do not overlap: storing a cluster's four blocks changes that cluster only. |
| BlockDevice.Image.ReadCluster | src/fat32.c:90-92 | Reading cluster c through its blocks gives the 2048 bytes of cluster c. |
| BlockDevice.Image.WriteCluster | src/fat32.c:86-88 | Writing cluster c through its blocks replaces cluster c and no other. |
| Driver.Fat32.ScanForWrite | src/fat32.c:213-228 | Reports a clash exactly when one of the rows 0 to 62 collides; otherwise gives the last unflagged row of these, or 0. |
| Driver.Fat32.ScanForKey | src/fat32.c:165-168 | Gives the first row from 1 to 63 with the key, or 64. |
| Driver.Fat32.FindEmpty | src/fat32.c:237-246 | Gives the smallest free cluster, or the scan bound when none is free; leaves the map if and only if none is free and the bound lies beyond. |
| Driver.Fat32.ClaimChain | src/fat32.c:281-320 | Leaves the map if and only if fewer than k cells are free and the bound lies beyond it. Otherwise succeeds if and only if k cells are free, then linking exactly the k smallest; on failure every cell of the map is as before. |
| Driver.Fat32.ScanRest | src/fat32.c:295-305 | The second scan links each free cluster it meets to the one before, all but the last being linked, until there are k or the map ends, and says whether it went beyond. |
| Driver.Fat32.Undo | src/fat32.c:308-317 | The undo loop stops at the last claimed cell, which is still empty, and restores every cell exactly. |
| Driver.Fat32.Spill | src/fat32.c:336-343 | The write loop puts successive clusters of the buffer into the clusters of the chain, in order. |
| Driver.Fat32.Collect | src/fat32.c:176-185 | The read loop copies the clusters of the chain, in order, to the front of the buffer and leaves the rest of it alone; it reports exactly the walks that do not end or do not fit. |
| Driver.Fat32.FreeChain | src/fat32.c:403-411 | From any start, the loop that destroys the links it follows empties exactly the cells of the chain if there is one, and is reported if there is none and cell 0 has its reserved value. |
| Driver.Fat32.Read | src/fat32.c:151-193 | For every parent on the disk, name and buffer: reports exactly the reads that leave the map or the buffer; otherwise state, code and buffer are those of the read operation. |
| Driver.Fat32.Write | src/fat32.c:202-349 | Leaves the arrays exactly for the writes LeavesMemory describes, with the disk untouched; otherwise image, cached FAT and code are those of the write operation, on every path. |
| Driver.Fat32.WriteFolder | src/fat32.c:235-272 | Makes a folder on the first free cluster, or returns -1 with nothing stored, or reports that the scan left the map. |
| Driver.Fat32.WriteFile | src/fat32.c:273-344 | Stores a file on the first free clusters, or returns -1 with nothing stored, or reports that the scan left the map. |
| Driver.Fat32.Delete | src/fat32.c:358-459 | For every parent on the disk and name: image, cached FAT and code are those of the delete operation if the walk ends; if not, and cell 0 has its reserved value, the call is reported. |
| Driver.Fat32.DeleteFolder | src/fat32.c:414-456 | Refuses a folder with a flagged row; else erases both rows and frees the cluster; reports exactly the clusters outside the disk or the map. |
| Driver.Fat32.CreateFat32 | src/fat32.c:49-73 | Leaves the formatted disk: signature, FAT, root table, and the rest of the boot cluster as it was. |
| Driver.Fat32.Initialize | src/fat32.c:76-84 | Formats a disk without the signature and loads the FAT of one that has it. |
| Restart.AfterRestart | src/fat32.c:76-84 | After a write and a mount with any cache, a read gives 0 with the bytes written, or 2 for a small buffer. |
| Restart.WriteRestartRead | src/fat32.c:151-349 | On the driver: what was written is read back, byte for byte, by a second driver started on the same image; a failed write leaves everything as it was; writes that leave the arrays are reported exactly. |
| Restart.FirstBoot | src/fat32.c:40-84 | On the driver: a new driver over any image without the signature, initialized, holds an empty root with 509 free clusters. |
| Paging.PageManager.AllocateUserFrame | src/paging.c:58-88 | Leaves the tables the allocation describes (NewProcess.AllocationMaps says what they hold); reports exactly when there is no directory or no frame to mark. |
| NewProcess.AllocationMaps | src/paging.c:34-88 | The entry at the address over 4 MiB becomes a present, writable, user, 4 MiB page on frame 0; no other entry and no other directory changes; frame 32 minus the free count is marked and the count drops by one. |
| NewProcess.BootDirectory | src/paging.c:8-23 | After boot the kernel's directory has a user page at 0, a supervisor page at 0x300, and nothing else. |
| NewProcess.BootCounters | src/kernel.c:29-29 | After boot all slots are empty, no directory is used, frame 0 alone is marked and 31 frames are free. |
| Paging.PageManager.CreateNewDirectory | src/paging.c:122-162 | Hands out the first unused directory, cleared but for entries 0 and 0x300, the latter copied from the kernel's; none when all are used. |
| Paging.PageManager.FreeDirectoryAt | src/paging.c:164-179 | Releases and clears exactly the directory given; reports failure for any other address. |
| Processes.NoFramesNeeded | src/process.c:29-29 | The frame count wraps to 0 exactly for sizes in (2^32 - 2^23, 2^32 - 2^22]. |
| Processes.FramesExact | src/process.c:29-29 | For sizes up to 2^32 - 2^23 the frame count is image and one frame, rounded up; above, it is 0 where the sum wraps and 1 for the last sizes. |
| Processes.CreateCodeIs | src/process.c:11-61 | In budget creation returns -2 for an entry point from 0xC0000000 on, else -3 if image and one frame do not fit into the free frames (sizes from 0xFF800001 on count as less), else -4 if the image cannot be read, else 0. |
| Processes.FreePidExists | src/process.c:133-151 | Among any 257 consecutive candidates one is unused, because there are 256 slots. |
| Processes.NextPid | src/process.c:133-151 | The next pid is above all given out, unused, and the smallest such; it is at most 257 away. |
| Processes.RoomIff | src/process.c:28-50 | In budget a slot, a directory and a frame are there if and only if a frame is free. |
| Processes.UnderflowIff | src/process.c:28-50 | In budget, creation's tests pass without room in the tables if and only if no frame is left, the frame count wraps and the entry point is below the kernel. |
| Processes.UnderflowExample | src/process.c:28-57 | After 31 creations from boot whose image cannot be read, no frame is left and a creation of size 0xFF800001 passes its tests. |
| Processes.FailedReadLosesFrame | src/process.c:50-61 | A failed image read uses up one frame and one pid, lowers the process count, releases the directory, and leaves all live slots as they were. |
| NewProcess.FailedReadPages | src/process.c:44-53 | After a failed image read the directory made for it is cleared and no other directory has changed. |
| Processes.NeverFull | src/process.c:15-19 | In budget, creation never fails for a full process table. |
| Processes.CreateKeeps | src/process.c:11-82 | Creation keeps the budget whether tests fail, the image cannot be read, or the process starts. |
| NewProcess.ImageIsMapped | src/process.c:44-48 | A created process has a directory unused before, with a user page at buf over 4 MiB on frame 0, the kernel's entry at 0x300, a supervisor page at 0 unless buf lies there, and nothing else; no other directory changes. |
| NewProcess.SlotIsFilled | src/process.c:37-75 | The first empty slot gets a fresh pid, the name, priority 1, the directory, the request and the user registers; the process is counted, its pid minus 1 becomes the current index, and other slots change in state only. |
| Processes.DestroyKeeps | src/process.c:93-114 | Destroying keeps the budget. |
| Processes.DestroyRemovesOne | src/process.c:93-114 | Destroying a pid removes the one live process with it, if there is one, and leaves every other slot as it was. |
| NewProcess.ProcessIsGone | src/process.c:93-114 | Destroying a live process empties its slot, lowers the count, forgets it as current, clears and releases its directory, and changes no other directory, frame or pid counter. |
| NewProcess.UnknownPid | src/process.c:93-114 | Destroying a pid no live process has changes nothing. |
| Processes.DestroyKeepsDirectories | src/process.c:93-114 | Page directories of the processes that stay are not touched. |
| Processes.SwitchKeeps | src/scheduler.c:20-48 | A switch keeps the budget. |
| Processes.BootIsInBudget | src/kernel.c:29-29 | The tables are in budget after the kernel's own frame is mapped. |
| Processes.FirstProcessRuns | src/process.c:63-78 | After the first creation slot 0, and no other, is running. |
| Processes.StartKeepsIff | src/scheduler.c:9-13 | Starting the scheduler keeps the budget if and only if slot 0 holds a process. |
| Processes.StartAfterFailure | src/kernel.c:44-47 | When the first creation fails, the start that follows makes an empty slot run and breaks the budget. |
| Running.SwitchMakesOne | src/scheduler.c:20-48 | With at most one running slot, below 16, a switch leaves exactly one. |
| Running.CreationRunsIff | src/process.c:63-78 | A successful creation leaves exactly one running slot if and only if no slot but 0 was running before; otherwise more than one. |
| Running.SecondRuns | src/process.c:63-78 | With slot 0 alone running and slot 1 empty, a creation leaves the new process running. |
| Running.ThirdCreationExample | src/process.c:77-78 | Three creations after boot all succeed; after two of them one slot runs, after the third two do. |
| Running.DestroyKeepsRunning | src/process.c:93-114 | Destroying a process keeps at most one running slot. |
| Running.FailureKeepsRunning | src/process.c:15-61 | A creation that fails keeps at most one running slot. |
| Running.StepKeepsRunning | src/process.c:11-114 | A call keeps at most one running slot if and only if it is no successful creation, or no slot but 0 is running. |
| Running.BootRunsIff | src/process.c:11-114 | In a run from boot at most one slot, below 16, is running in every state if and only if its creations succeed only while no slot but 0 is running. |
| Processes.RunsStayInBudget | src/process.c:11-114 | In every run of creations, destructions and switches from boot, whatever the sizes as long as a frame is left: frames are a true prefix of length 32 minus the free count, pids given out plus free frames are 31, live processes have distinct pids and distinct directories that map the kernel, as many directories are used as processes live, and a creation that passes its tests finds room exactly unless no frame is left and its size wraps. |
| ProcessManager.Manager.ListInactiveIndex | src/process.c:121-131 | Gives the first slot without a process, or -1. |
| ProcessManager.Manager.GenerateNewPid | src/process.c:133-151 | The retry loop ends within 257 candidates with a non-zero pid that no live process has, the smallest above the last. |
| ProcessManager.Manager.DestroyProcess | src/process.c:93-114 | Leaves the tables the destroy operation describes; returns 0 exactly when the pid was in use. |
| ProcessManager.Manager.CreateUserProcess | src/process.c:11-82 | Leaves the tables and returns the code the create operation describes, on every path; reports exactly the calls that pass the tests without room. |
| ProcessManager.Manager.Prepare | src/process.c:36-48 | Fills the first free slot with a fresh pid and directory and maps one frame; reports exactly when one of the tables has no room. |
| Scheduler.DemoteRunning | src/scheduler.c:21-27 | Turns the first running slot to ready and gives its index, or the table size. |
| Scheduler.FindReady | src/scheduler.c:33-42 | Ends at the first ready slot met going round the 16 slots. |
| Scheduler.SwitchToNextProcess | src/scheduler.c:20-48 | Leaves the table the switch operation describes, with one ready slot below 16 as the only demand. |
| Scheduler.SwitchPicksNext | src/scheduler.c:20-48 | From one running slot below 16, a switch leaves exactly one running slot: the cyclically next ready one, or the same if there is no other. |
| Scheduler.NextIsNearest | src/scheduler.c:20-44 | From any table, the slot picked is the ready one nearest ahead of the first running slot, or of slot 0 when none runs. |
| Scheduler.SwitchKeepsProcesses | src/scheduler.c:20-48 | A switch changes nothing but states; who can run can still run, all others are untouched. |
| Scheduler.OneStaysRunning | src/scheduler.c:20-48 | With exactly one running slot below 16 a switch terminates and the same holds afterwards, so it can be repeated for ever. |
| Scheduler.RunsWithinDistance | src/scheduler.c:29-44 | Every slot below 16 that can run is running after at most as many switches as it lies ahead, so after at most 16. |
| Decimal.TextIsCanonical | src/string.c:55-77 | The printed text parses back to the number, has only digits after an optional minus, and no leading zero. |
| Decimal.TextLength | src/process.c:154-173 | At most 10 digits for unsigned 32 bits (11 bytes with the NUL), at most 11 characters for signed 32 bits. |
| Decimal.CountDigits | src/process.c:159-163 | Counts the digits of the decimal. |
| Decimal.UintToStr | src/process.c:154-173 | Leaves the decimal and a NUL in the buffer and nothing else changed. |
| Decimal.LookupDigit | src/string.c:64-64 | The character table gives the right digit for remainders of either sign. |
| Decimal.Emit | src/string.c:60-65 | The emitting loop leaves the digits of the absolute value backwards, for every value including the minimum. |
| Decimal.ReverseInPlace | src/string.c:71-76 | The swapping loop reverses the text in place. |
| Decimal.Itoa | src/string.c:55-77 | Leaves the signed decimal and a NUL in the buffer and nothing else changed, for every 32-bit number. |
| Decimal.PrintersAgree | src/process.c:154-173 | For every non-negative 32-bit number both printers leave the same bytes. |
| Timestamp.DaysCountDays | src/cmos.c:68-96 | The closed form counts the days of a calendar with a leap year every fourth year, for every day from 1970-01-01. |
| Timestamp.DaysReached | src/cmos.c:68-96 | Every valid date is the one reached by counting as many days as the closed form says. |
| Timestamp.DaysAscend | src/cmos.c:68-96 | Later dates have larger day counts. |
| Timestamp.CalendarsAgree | src/cmos.c:68-96 | Up to 2100-02-28 that calendar is the Gregorian one, day by day. |
| Timestamp.GregorianIff | src/cmos.c:68-96 | The closed form is the Gregorian day count if and only if the day is no later than 2100-02-28. |
| Timestamp.DaysSinceEpoch | src/cmos.c:68-96 | The steps compute the closed form, and nothing wraps in 32 bits. |
| Timestamp.SecondsNext | src/cmos.c:98-104 | One tick of the clock, at midnight and month's end too, adds one second. |
| Timestamp.SecondsCountSeconds | src/cmos.c:68-104 | The formula counts the seconds of a clock on the calendar with a leap year every fourth year, from 1970 on. |
| Timestamp.GregorianSeconds | src/cmos.c:68-104 | Through 2100-02-28 23:59:59 the n-th second of the Gregorian clock has value n, without wrap. |
| Timestamp.MomentReached | src/cmos.c:68-104 | Every valid moment through 2100-02-28 is the one reached by counting as many seconds as the formula says. |
| Timestamp.GetTimestamp | src/cmos.c:57-107 | The steps compute the seconds modulo 2^32; for the Gregorian moment n seconds after 1970, through 2100-02-28, they return n. |
| Timestamp.NoWrap | src/cmos.c:98-104 | Up to the end of 2100-02-28 the seconds fit in 32 bits. |
| Timestamp.TimestampsAscend | src/cmos.c:57-107 | Until then later moments have larger timestamps. |

## Left out

- `read_directory` (`src/fat32.c:118-142`): its folder test compares with 1 and its name test runs over unterminated fields, so it has no clean contract. `init_directory_table` is never called.
- Driver.Fat32.Write: what the source does after it has left its arrays (a flag stored behind the driver's memory, a scan beyond the map) is not modelled; the call stops there. The two tests of the loop at lines 240-241 are in bounds-first order here; the source reads one cell before it tests the bound.
- Driver.Fat32.Read: what the source does after its walk has left the map, or past the end of the buffer, is not modelled; the call stops there, and nothing is said of the buffer.
- Driver.Fat32.Delete: the same; the parent's table may have been stored already. On a map whose cell 0 lost its reserved value a walk without an end may come back through cell 0 and go unreported.
- Restart.WriteRestartRead: nothing is said of a write that leaves the arrays, for the same reason.
- Runs.RunIsSound: runs are of the operations on values; in a directory from cluster 128 on, the shipped driver performs the same write and also stores the flag outside its memory.
- Paging.PageManager.AllocateUserFrame: what marking a frame behind the map, or updating no directory, does is not modelled; the call stops there.
- Processes.RunsStayInBudget: a creation that passes its tests without room is not in the runs (Processes.UnderflowIff says exactly which). `scheduler_init` is not an event; Processes.StartKeepsIff says when it keeps the budget.
- ProcessManager.Manager.GenerateNewPid: pids are unbounded numbers; the signed overflow after 2^31 pids is not modelled (fewer than 32 are ever given out in the runs).
- ProcessManager.Manager.CreateUserProcess: the return code of the image read is a parameter, and the 32 bytes at the request's name are given as one field. `paging_free_user_page_frame` is never reached from here and is not modelled. A call that passes its tests without room stops where the source goes outside its tables.
- `current_running_process_index` and `active_process_count` are kept as the code keeps them, but nothing is claimed of them beyond an upper bound on the count.
- `process_get_current_running_pcb_pointer`, `get_process_metadata`, saving and loading of processor context.
- CR3 and TLB instructions, and what the hardware does with a mapping.
- Clusters moved several at a time: every call in the source moves one.
- The ATA driver, port I/O, interrupts, keyboard, framebuffer, clock display, shell commands, GDT and IDT. `read_rtc` is left out; the clock's fields are parameters of Timestamp.GetTimestamp.
