# Verified models of the operating-systems lab

The repository holds four lab programs in C: a Unix-like file system on an image file (`fs/`), a
user-level thread library with locks and condition variables (`threads/`), a threaded web server with a
request buffer and a file cache (`webserver/`), and a word counter (`warmup/`). This project models
their cores in Dafny 4.11 and proves what they keep, over all inputs and over whole runs. The code is
modelled as written. Where it does not do what it is for, the exact condition under which it does is
proved, and a run or an input of the failure is given.

`dafny verify dfyconfig.toml` checks everything.

## How the models are built

**File system.** The layers follow the source, each a class whose methods are proved against a
description of its state by plain values:

| file | models | main results |
|---|---|---|
| `Bitmap.dfy` | `fs/bitmap.c` | the byte array is a set of indices; allocation takes the least |
| `SuperBlock.dfy` | `fs/super.c`, `fs/mktestfs.c` | counters, freemaps and device agree after every call; closing and opening restores them |
| `BlockMap.dfy` | the three-level map of an inode | `Owns`: the blocks of an inode are exactly the inverse of its map; `Grown`: what mapping one block adds |
| `FileData.dfy`, `ReadWrite.dfy` | `fs/read_write.c` | exact outcome of every read, write and allocation, failures included |
| `Release.dfy` | `testfs_free_blocks` | each block freed once; `block_count` ends at 0 exactly when the file is removable |
| `FileSpec.dfy` | a file as a sequence of bytes | when exactly a write is a splice, and when the file can still be removed |
| `FileSystem.dfy` | all inodes of a file system | the blocks in use are shared out among the inodes without overlap; files do not disturb each other |
| `InodeCache.dfy` | `fs/inode.c`, `fs/list.h` | one counted copy per inode; no cache operation changes what an inode is; inodes whose numbers are free are zeroed |
| `DenseFile.dfy` | files without holes, as directories are | overwriting never fails; an append is exact, or leaves the contents alone exactly unless it breaks |
| `Directory.dfy` | the records of one directory | the log of records is a finite map of names |
| `Catalog.dfy` | `fs/dir.c` over `fs/read_write.c` | the bytes of every directory are its log, after every call, exactly unless an append breaks or strands |
| `Tree.dfy` | `fs/dir.c`, all directories | the directories stay a tree; `pwd` leads back; what `create` and `rm` do to the logs is what they do to the tree |
| `Volume.dfy` | the commands of the shell | from the blocks of the device up to the tree in one invariant, kept by create, mkdir, rm, cd and write |
| `FileExamples.dfy` | runs from a file system just made, of any size | the shortfalls below |

The device is an array of blocks; block 0 holds the super block structure, table entries are four
little-endian bytes. An inode is *tight* when every mapped block lies below the end of the file and the
last byte is in a mapped block. It is *removable* when every mapped block lies below the end and, if the
file ends past the single-indirect range, it has a double-indirect table; tight files are removable.

**Threads.** `Scheduling.dfy` says what the library does to a plain value: one running thread, a ready
queue, wait queues, the place of each valid thread, and the stacks made and freed. `Threads.dfy` has the
table of threads, the queues threaded through its `next` fields and every function of `thread.c` up to
`thread_wakeup`, each proved to do exactly that. `ThreadRuns.dfy` proves what holds over runs: bounded
waiting, the interrupt flag restored, each stack freed once; `ThreadCalls.dfy` says call by call who runs
afterwards, what is returned and what becomes of the queues. `Locks.dfy` is a machine whose steps are the
stretches of code between two changes of the interrupt flag or of the running thread, with the saved flags
of nested calls explicit and a timer interrupt possible whenever the flag is on. `CriticalSections.dfy`
proves what callers get over its runs: whoever comes back from `lock_acquire` or `cv_wait` has the lock and
the flag it came with, and nobody else gets the lock before it is given up. `ThreadExamples.dfy` has
runs from the start that show the shortfalls below.

**Web server.** `RequestBuffer.dfy` has the ring with its two critical sections, and a machine of
producers and workers around it with edge-triggered signals and spurious wakeups, in which every
descriptor is served once. `Cache.dfy` has the
open-addressed table and the recency list. **Word counter.** `WordCount.dfy` has the scanner and the
same kind of table; `Probing.dfy` holds the hash and the squaring probe that both tables use, and
`Lists.dfy` facts about lists without repetition.

## Where the code falls short

Each of these has its exact condition for all inputs, and a run or an input that shows it.

* A hole below an existing double-indirect table whose second-level table is missing is not zeroed
  (`fs/read_write.c:40-42`): the buffer is left holding the double-indirect table. A read of such *leaky
  holes* is right exactly when the table bytes under its window are zeros
  (`FileSystems.FileSystem.ReadFile`). A write stores what was fetched around its window, in its first
  block and past the window in its last. The file is right afterwards exactly when that is zeros as far as
  it lies inside the file, and the gap between the old end and the window holds zeros
  (`FileSpec.WriteShows`); bytes past the end are zeros too exactly when all of it is zeros
  (`FileSpec.WriteRefines`; what the last block gets is a function of the map, `FileData.Leaked`). Two
  one-byte writes in a new file system make a third byte nonzero (`FileExamples.LeakedTable`).
* When the double-indirect arm of `testfs_allocate_block` runs out of space half way, it frees the tables
  it took but leaves a pointer to them (`fs/read_write.c:168-173`, `187-195`). The inode is well formed
  afterwards exactly when nothing had been taken (`ReadWrite.Inode.AllocateBlock`,
  `FileExamples.Stranded`).
* `testfs_free_blocks` gives back every block, and the assert of `testfs_remove_inode` holds, exactly for
  *removable* files. Every successful write of at least one byte keeps a file removable. After a write of
  no bytes, and after one of several blocks that fails before its last, a removable file stays so exactly
  if it already reached the last block mapped. A write of several blocks that fails at its last sets
  `i_size` to the largest file size (line 262); the file is then removable exactly if it has a
  double-indirect table. If it has none, line 323 reads block 0, the super block, for it: its first field,
  which is 1, is taken for the number of a table, and an assert fails, at the latest when that block is to be
  freed itself (`ReadWrite.Inode.FreeStrays`).
  `FileSpec.WriteRemovable`, `FileSpec.EmptyWriteRemovable`, `FileSpec.ShortWriteRemovable` and
  `FileSpec.MaxSizeRemovable` say so; `FileExamples.EmptyWrite`, `FileExamples.ShortWrite` and
  `FileExamples.MaxSize` are runs from a new file system.
* A directory entry that runs into a second block for which there is no room is half written: its head
  follows the old entries, and line 262 of `fs/read_write.c` makes the directory as long as a file can be.
  Adding an entry breaks a directory exactly then, or when it strands a table
  (`Catalogs.Catalog.WriteRecord`, `Catalogs.Catalog.Create`, with the offset, the length, the map and the
  free blocks in `DenseFiles.BreaksIff`). `FileExamples.BrokenDirectory` is a run, and after it the assert
  of `fs/dir.c:31` fails (`FileExamples.BrokenScanned`).
* `testfs_add_dirent` may stop at a tombstone before it sees that the name is taken (`Directories.AddTwice`,
  `Directories.AddedAgain`).
* A failed stack allocation in `thread_create` leaves a valid thread in no queue (`ThreadRuns.LostThread`,
  `ThreadExamples.NoMemory`); killing a later thread with number 0 loses its stack (`ThreadRuns.LostStack`,
  `ThreadExamples.KillZero`); `lock_release` does not check the caller (`Locks.ForeignRelease`,
  `ThreadExamples.ReleasedByAnother`).
* The request buffer relies on there being one producer, and on room for at least one request
  (`RequestBuffers.SecondProducer`, `RequestBuffers.TwoProducers`, `RequestBuffers.NoRoomNoService`).
* `cache_lookup` squares an int (`webserver/server_thread.c:353`), which overflows exactly when it passes a
  slot above 46340 (`Caches.Cache.Lookup`, `Caches.Overflowing`).
* The squaring probe can go round for ever: in the cache exactly when an absent name meets no empty slot
  (`Caches.Cache.Lookup`, `Caches.NeverFound`), in the word counter exactly when some word meets none in
  the table that the words before it make (`WordCounts.WordCount.Scan`, `WordCounts.NeverCounted`).

## Model

| member | source | states |
|---|---|---|
| Bitmaps.Bitmap.constructor | fs/bitmap.c:20-54 | a fresh bitmap has no bit below nbits set and every padding bit set |
| Bitmaps.Bitmap.FirstClear | fs/bitmap.c:76-91 | finds the least clear bit, always below nbits, and nothing exactly when all nbits are set; so neither assert of bitmap_alloc can fire |
| Bitmaps.Bitmap.Alloc | fs/bitmap.c:70-91 | adds exactly the least index that is not in the set, and fails with the set unchanged exactly when there is none |
| Bitmaps.Bitmap.Mark | fs/bitmap.c:103-113 | adds the index to the set |
| Bitmaps.Bitmap.Unmark | fs/bitmap.c:116-126 | takes the index out of the set |
| Bitmaps.Bitmap.IsSet | fs/bitmap.c:130-137 | says whether the index is in the set |
| Bitmaps.Bitmap.NrAllocated | fs/bitmap.c:147-157 | is the number of elements of the set |
| Bitmaps.StoredBits | fs/bitmap.c:103-126 | writing one masked bit changes that element of the set of bits and no other, padding included |
| Bitmaps.LeastClear | fs/bitmap.c:76-90 | the first word that is not all ones holds the least clear bit |
| SuperBlocks.WriteThrough | fs/super.c:25-48 | after one bit changes, rewriting the one block that holds it brings the whole freemap on the device up to date |
| SuperBlocks.HoldsUnique | fs/super.c:137-173 | the device determines the freemap read back from it |
| SuperBlocks.SuperBlock.GetBlockFreemap | fs/super.c:51-63 | takes the least free data block and keeps the device in step with memory |
| SuperBlocks.SuperBlock.PutBlockFreemap | fs/super.c:66-72 | gives a data block back and keeps the device in step with memory |
| SuperBlocks.SuperBlock.AllocBlock | fs/super.c:225-239 | fails exactly when max_fs_blocks blocks are in use; otherwise adds the least free block, and counter, freemap and device stay in agreement |
| SuperBlocks.SuperBlock.FreeBlock | fs/super.c:243-255 | zeroes the block, takes it out of the used blocks, and counter, freemap and device stay in agreement |
| SuperBlocks.SuperBlock.GetInodeFreemap | fs/super.c:198-212 | takes the least free inode number, and fails exactly when every one is taken |
| SuperBlocks.SuperBlock.PutInodeFreemap | fs/super.c:214-223 | gives an inode number back, with counter and device kept in step |
| SuperBlocks.SuperBlock.UsedSize | fs/super.c:225-255 | used_block_count is the number of blocks in use |
| SuperBlocks.SuperBlock.Init | fs/super.c:136-173 | reads back the super block and both freemaps that the device holds; the file system is well formed exactly when the counters match the freemaps, which is not checked |
| SuperBlocks.SuperBlock.Close | fs/super.c:175-196 | writes all of it, which changes nothing on a device kept in step |
| SuperBlocks.CloseAndInit | fs/super.c:136-196 | closing and opening again restores both freemaps and all counters |
| SuperBlocks.Make | fs/mktestfs.c:65-72 | a new device comes up with nothing in use and room for max_fs_blocks blocks |
| BlockMap.PackUnpack | fs/read_write.c:43-49 | a 32-bit entry comes back from its four little-endian bytes |
| BlockMap.StoreEntry | fs/read_write.c:176-222 | storing one entry of a table block changes that entry and no other |
| BlockMap.RoleOfBlock | fs/read_write.c:18-51 | the arithmetic that splits a logical block number into table indices loses nothing |
| BlockMap.PointersDistinct | fs/inode.h:13-20 | two places of the map of an inode never name the same block |
| BlockMap.AttachPtr | fs/read_write.c:130-229 | hanging a new block at an empty place of the map changes that place and no other |
| BlockMap.AttachOwns | fs/read_write.c:130-229 | afterwards the blocks owned are the old ones and the new one, each in exactly one place, and block_count counts them |
| BlockMap.OwnsFrame | fs/read_write.c:10-60 | the map of an inode depends on its own blocks only |
| BlockMap.Lookup | fs/read_write.c:18-51 | the walk through the tables reaches the place of the logical block, level by level |
| BlockMap.FetchedIff | fs/read_write.c:38-42 | the buffer is the contents of the block exactly when the block is not a hole whose second-level table is missing below an existing double-indirect table; there it holds that table instead |
| BlockMap.GrowDirect | fs/read_write.c:129-137 | one block maps a direct block, and nothing else of the map changes |
| BlockMap.GrowIndirect | fs/read_write.c:204-222 | a table and a block map a block of the single-indirect range, and nothing else changes |
| BlockMap.GrowSecond | fs/read_write.c:164-200 | a second-level table and a block map a block below an existing double-indirect table, and nothing else changes |
| BlockMap.GrowDouble | fs/read_write.c:150-200 | two tables and a block map the first block of the double-indirect range, and nothing else changes |
| ReadWrite.Inode.UndoDouble | fs/read_write.c:168-171 | the new double-indirect table is free again but i_dindirect keeps its number: a pointer to a free block |
| FileData.LeakedTable | fs/read_write.c:38-42 | what is fetched for a leaky hole is the double-indirect table as it is afterwards, less the entry of the new second-level table |
| ReadWrite.Inode.Undo | fs/read_write.c:187-194 | the new tables are free again but i_dindirect or the entry keeps their number: a pointer to a free block |
| ReadWrite.Inode.ReadBlock | fs/read_write.c:10-60 | returns the block number at the place of the logical block and fetches its contents, with the leaky holes of lines 40-42 as coded; -EFBIG past the last possible block |
| ReadWrite.Inode.ReadData | fs/read_write.c:62-109 | fills the buffer with the bytes fetched for the window, clipped at i_size, across every block boundary, and touches no other byte of the buffer |
| ReadWrite.Inode.AllocBlockForInode | fs/inode.c:235-246 | a block more in use and in block_count, or -ENOSPC and nothing changed |
| ReadWrite.Inode.FreeBlockFromInode | fs/inode.c:249-257 | a block less in use and in block_count; nothing for block 0 |
| ReadWrite.Inode.AllocateDirect | fs/read_write.c:129-137 | maps the block, or leaves map and counts as they were |
| ReadWrite.Inode.AllocateIndirect | fs/read_write.c:204-228 | maps the block with its table, or leaves map and counts as they were: the rollback of lines 223-227 is complete |
| ReadWrite.Inode.AllocateDouble | fs/read_write.c:140-202 | maps the block with its tables when there is room for all of them; otherwise the blocks taken are free again, and the inode is well formed exactly when none had been taken |
| ReadWrite.Inode.AllocateBlock | fs/read_write.c:114-229 | succeeds exactly when the free blocks cover what the path of the block lacks; the inode stays well formed exactly unless the double-indirect arm runs out half way |
| ReadWrite.Inode.WriteData | fs/read_write.c:231-287 | maps blocks up to the first that cannot be mapped and writes the bytes of those; states the result, the size, the whole map and every byte in terms of where the write stops, the bytes that a leaky last block gets from the table included |
| ReadWrite.Inode.SetMaxSize | fs/read_write.c:260-265 | a write that fails at its last block sets i_size to the size of the largest possible file and nothing else |
| ReadWrite.Inode.FreeBlocks | fs/read_write.c:289-351 | no assert fails exactly unless line 323 reads block 0, and then block_count ends at 0 exactly when the file is removable; then every block has been freed once, while still allocated and intact, and the inode is empty |
| ReadWrite.Inode.FreeStrays | fs/read_write.c:319-346 | with no double-indirect table in a file past the single-indirect range, block 0 is taken for it: no assert fails and no read runs past the device only if its first field is the number of a data block, or not positive; that field is 1 |
| ReadWrite.Inode.FreeDirect | fs/read_write.c:298-305 | the direct blocks below the end of the file are given back, each once |
| ReadWrite.Inode.FreeIndirect | fs/read_write.c:307-317 | the blocks of the single-indirect table below the end, and the table, are given back, each once |
| ReadWrite.Inode.FreeDouble | fs/read_write.c:319-346 | the nested loops and their counter give back every block and table of the double-indirect range below the end, each once, exactly unless the table they need is missing |
| FileData.ProgressNeeds | fs/read_write.c:239-266 | what each further block of a write needs, and whether it is a leaky hole when reached, follows from the map before the write |
| FileData.ProgressStep | fs/read_write.c:239-266 | mapping the next block adds exactly it and the missing tables above it to what a write has added so far |
| FileData.StoreContents | fs/read_write.c:247-281 | storing a data block changes the contents of its logical block and of no other |
| FileData.GrownContents | fs/read_write.c:114-229 | mapping a block changes the contents of no other block |
| FileData.WroteStep | fs/read_write.c:246-267 | one more block of a write: the new bytes in the window, all others as expected |
| FileData.WroteFrame | fs/read_write.c:231-287 | what a write has done to a file does not depend on the blocks of others |
| Release.AtStep | fs/read_write.c:299-346 | a block that the loops come to was not given back before |
| Release.AllReleased | fs/read_write.c:289-351 | nothing is left owned exactly when every mapped block lay below the end of the file |
| Release.CoveredRest | fs/read_write.c:289-351 | the pointers that the loops leave alone are 0 when every mapped block lay below the end |
| FileSpec.HarmlessIff | fs/read_write.c:231-287 | every byte has the value it should have after a write exactly when what leaky holes bring into the file is zeros |
| FileSpec.WriteShows | fs/read_write.c:231-287 | whatever is stored past the end of a file, a successful write, of no bytes too, is the old file with the new bytes spliced in and zeros between exactly when zeros are all that leaky holes and the gap before the window bring into its visible bytes |
| FileSpec.WriteRefines | fs/read_write.c:231-287 | when the bytes past the end are zeros, a write is such a splice and leaves zeros past the end exactly when zeros are all that leaky holes bring in, visible or not |
| FileSpec.LeakTail | fs/read_write.c:38-42 | whether a leaky last block brings in zeros can be told from the map before the write, but for the table entry the window ends in |
| FileSpec.WriteTight | fs/read_write.c:231-287 | a successful write of at least one byte keeps every mapped block below the end of the file and the last byte mapped |
| FileSpec.TightRemovable | fs/inode.c:219-224 | a file whose mapped blocks lie below its end and whose last byte is mapped can be removed |
| FileSpec.WriteRemovable | fs/read_write.c:231-287 | a successful write of at least one byte keeps a file removable |
| FileSpec.EmptyWriteRemovable | fs/read_write.c:275-286 | a write of no bytes maps a block all the same; exactly when the file already reached that block can it still be removed |
| FileSpec.ShortWriteRemovable | fs/read_write.c:239-254 | a write that fails before its last block leaves i_size alone; the file can still be removed exactly when it already reached the block it stopped at |
| FileSpec.MaxSizeRemovable | fs/read_write.c:260-265 | after the size of line 262 is set the file can be removed exactly when it has a double-indirect table |
| FileSpec.LeakedByte | fs/read_write.c:38-42 | one byte written into the middle of a leaky hole makes a byte nobody wrote read as a nonzero byte of the double-indirect table |
| FileSystems.FileSystem.Mkfs | fs/mktestfs.c:65-72 | the new file system is well formed and has no inode |
| FileSystems.FileSystem.WriteFile | fs/file.c:88-119 | no other file changes, whatever happens; the blocks in use stay shared out among the inodes, and all inodes well formed exactly unless a table is stranded in this one; result, size and every byte, after success and after a failure at any block; when it is a splice and when the file can still be removed |
| FileSystems.FileSystem.ReadFile | fs/file.c:36-84 | -EINVAL outside the file, -EFBIG at the largest size; otherwise the bytes of the file exactly when the table bytes in leaky holes of the window are zeros |
| FileSystems.FileSystem.InodeNumber | fs/inode.c:202-210 | the least free inode number that has a slot on the device, or -ENOSPC with nothing taken when there is none |
| FileSystems.FileSystem.CreateInode | fs/inode.c:198-216 | an empty file under the least free number, or -ENOSPC exactly when every slot is taken; all other files as they were |
| FileSystems.FileSystem.FreeFile | fs/inode.c:219-224 | the asserts hold exactly when the file is removable, and then exactly its blocks are free again |
| FileSystems.FileSystem.RemoveInode | fs/inode.c:219-231 | succeeds exactly when the file is removable; then the inode is gone, its blocks and no others are free, all other files are as they were, inodes that were not well formed included |
| FileSystems.FileSystem.UsedBlockCount | fs/super.c:225-255 | used_block_count is the sum of the block counts of all inodes |
| FileSystems.PartitionCount | fs/super.c:225-255 | blocks shared out among owners without overlap are as many as the owners have together |
| FileSystems.ReadBack | fs/read_write.c:62-109 | what is fetched for a window is the file exactly when the table bytes in its leaky holes are zeros |
| FileExamples.Stranded | fs/read_write.c:168-171 | a file system of any size that mktestfs makes, with a root directory, filled until one block is free: the first write below the double-indirect table leaves an inode that is not well formed |
| FileExamples.EmptyWrite | fs/read_write.c:275-286 | in the same one: after a write of no bytes the file cannot be removed |
| FileExamples.ShortWrite | fs/read_write.c:239-254 | nor after a write of three blocks that fails at the second |
| FileExamples.MaxSize | fs/read_write.c:260-265 | nor after a write of two blocks that fails at the last |
| FileExamples.LeakedTable | fs/read_write.c:38-42 | in a file system of any size with ten blocks free: after two writes of one byte a third byte is not zero |
| FileExamples.BrokenDirectory | fs/dir.c:201-238 | in a full file system of any size whose root directory ends two bytes before the end of a block: create fails and the directory is broken |
| FileExamples.BrokenScanned | fs/dir.c:26-31 | there the next scan is to read a live record with number 0, and then a length of 0, for which the assert fails |
| InodeCaches.WriteSlot | fs/inode.c:78-112 | number to block and offset is one to one: writing one inode into its block changes no other inode |
| InodeCaches.AddHead | fs/list.h:276-285 | adding at the head keeps a bucket linked forward and backward |
| InodeCaches.Delete | fs/list.h:308-317 | deleting through the back pointer takes out that node and keeps the bucket linked both ways |
| InodeCaches.InodeCache.HashFind | fs/inode.c:48-61 | finds the copy of an inode exactly if there is one |
| InodeCaches.InodeCache.Get | fs/inode.c:117-144 | one copy per inode, counted once more; no inode changes |
| InodeCaches.InodeCache.Change | fs/inode.c:236-257 | changing a copy changes that inode and no other |
| InodeCaches.InodeCache.Sync | fs/inode.c:147-160 | afterwards the device holds the inode; no inode changes |
| InodeCaches.InodeCache.Put | fs/inode.c:163-171 | the copy goes exactly when its last user puts it back; no inode changes |
| InodeCaches.TypedZero | fs/inode.c:210-212 | a zeroed inode whose type is set is an empty one |
| InodeCaches.SameBytes | fs/inode.h:12-19 | two inodes are equal exactly when all their bytes are: no field overlaps another, is cut short or is left out |
| InodeCaches.MakeCache | fs/mktestfs.c:65-72 | over a device just made every inode is zeroed |
| InodeCaches.InodeCache.Create | fs/inode.c:210-212 | while the inodes whose numbers are free are zeroed, a new inode is found zeroed and becomes an empty one |
| InodeCaches.InodeCache.Remove | fs/inode.c:225-230 | keeps the inodes whose numbers are free zeroed: the removed one is zeroed on the device |
| Directories.RecordAt | fs/dir.c:16-42 | each record is at its offset in the bytes, and the walk over the records ends at the size of the file |
| Directories.Decoded | fs/dir.c:26-40 | what is read at the start of a record is that record |
| Directories.Overwrite | fs/dir.c:65-82 | writing a record over one of the same length changes that record and no other |
| Directories.AtEnd | fs/dir.c:65-82 | writing a record at the end adds it to the log |
| Directories.NumberInEntries | fs/dir.c:325-340 | the scan finds a name exactly if the directory, seen as a finite map, has it, and gives its number |
| Directories.AddEntries | fs/dir.c:86-114 | adding a name that is not there adds it to the map, whichever slot it takes |
| Directories.RemoveEntries | fs/dir.c:145-176 | a tombstone removes that name from the map and no other |
| Directories.AddTwice | fs/dir.c:86-114 | adding a name that is there makes a second entry exactly when a tombstone of the same length comes before it: why create looks the name up first |
| Directories.AddedAgain | fs/dir.c:86-114 | from an empty directory: two names added, the first removed, the second added again, and it is there twice |
| DenseFiles.DenseReads | fs/read_write.c:62-109 | in a file without holes, as directories are, what is fetched is what the file holds |
| DenseFiles.OverwriteEnds | fs/read_write.c:231-287 | a write over bytes of such a file always succeeds, takes no block, and changes those bytes only |
| DenseFiles.AppendIff | fs/read_write.c:231-287 | an append succeeds exactly when there is room for it, and then adds its bytes even where it meets a leaky hole; one that fails leaves the contents as they were exactly unless it stops at its last block after its first; then the file is as long as a file can be, with what was written of the bytes, and a hole, behind the old contents |
| DenseFiles.BreaksIff | fs/read_write.c:239-266 | an append of at most a block does that exactly when it runs into a second block and there is no room to map that one |
| Catalogs.RecordWritten | fs/dir.c:65-82 | over a record as long, a record is always written; at the end, exactly when there is room; when there is not, the directory is still its log exactly unless the append breaks |
| Catalogs.BrokenScan | fs/dir.c:26-31 | when it breaks two bytes into the record, the next scan reads the length of the record with number 0, and then a length of 0 |
| Catalogs.Catalog.NextDirent | fs/dir.c:16-42 | from the start of a record it reads that record off the device and moves to the next; at the end there is none |
| Catalogs.Catalog.NameToInodeNr | fs/dir.c:325-340 | the number of the first live record of the name, or -ENOENT |
| Catalogs.Catalog.FindDirent | fs/dir.c:47-61 | the first record of the inode, or none exactly when there is none |
| Catalogs.Catalog.WriteRecord | fs/dir.c:65-82 | replaces the record at the offset, which cannot fail, or adds one at the end; when that fails the directory is still its log exactly unless the write stops at its last block after its first or strands a table, in terms of the offset, the length, the map and the free blocks; no other file changes |
| Catalogs.Catalog.AddDirent | fs/dir.c:86-114 | takes the first tombstone of the same length, or the end; -EEXIST when it meets the name first; a write that fails as above |
| Catalogs.Catalog.RemoveAllowed | fs/dir.c:118-138 | -ENOTEMPTY exactly for a directory with a live record other than dot and dot-dot |
| Catalogs.Catalog.RemoveDirent | fs/dir.c:145-176 | -EINVAL for the dots, -ENOENT, -ENOTEMPTY, or a tombstone over the first live record of the name, which is always written |
| Catalogs.Catalog.CreateEmptyDir | fs/dir.c:181-198 | the dots of a new directory take one block: the first fails exactly when there is none, the second never |
| Catalogs.Catalog.Enter | fs/dir.c:218-237 | when an entry cannot be written the new inode is given back, and what it took |
| Catalogs.Catalog.Create | fs/dir.c:200-238 | what it does to the logs, the least free number for the inode, each error, and the exact condition for the directory to be broken by it; no other file changes |
| Catalogs.Catalog.MakeRoot | fs/dir.c:317-321 | the root directory is inode 0 and takes one block, or nothing has changed |
| Catalogs.Catalog.Remove | fs/dir.c:407-424 | what it does to the logs; it gets past its asserts exactly when what is removed is removable; no other file changes |
| Catalogs.Catalog.Write | fs/file.c:88-119 | a write to a file leaves every directory what it is; -EISDIR for a directory |
| Trees.RootWellFormed | fs/dir.c:317-321 | the root alone is a tree |
| Trees.CreateWellFormed | fs/dir.c:200-238 | create and mkdir, also when they fail without breaking the directory, keep the directories a tree with one entry per inode and dot-dot naming the parent |
| Trees.RemoveWellFormed | fs/dir.c:407-424 | rm keeps the tree |
| Trees.RemoveLaw | fs/dir.c:118-176 | rm succeeds exactly on a name other than the dots that is a file, or a directory with the two dots and nothing else; it takes away that entry and no other |
| Trees.RemoveUndoes | fs/dir.c:200-238 | rm after create or mkdir of the same name succeeds and gives back the tree there was |
| Trees.ParentEntry | fs/dir.c:248-259 | the parent of a directory is closer to the root and has one entry for it and only one: the assert of line 259 holds |
| Trees.PwdLeadsBack | fs/dir.c:241-265 | the names pwd prints lead from the root back to the directory |
| Trees.DepthBound | fs/dir.c:268-290 | no directory is deeper than there are directories, so the recursions end |
| Trees.ListsBelow | fs/dir.c:268-290 | the recursive ls comes to exactly the inodes below the directory |
| Trees.DoWellFormed | fs/dir.c:343-424 | no command breaks the tree or removes the working directory, as long as it breaks no directory |
| Trees.CdLaw | fs/dir.c:343-374 | after cd, pwd prints one name more, or after cd to dot-dot one less; any other name changes nothing |
| Trees.MakeLaw | fs/dir.c:343-424 | a new directory can be entered, where pwd prints its name last, and removed again |
| Trees.PwdAlwaysWorks | fs/dir.c:200-424 | after any run of commands of which none breaks a directory, pwd succeeds and leads back |
| Trees.CreateCommutes | fs/dir.c:200-238 | what create does to the logs of the directories is what it does to the tree, with the same result; Catalogs.Catalog.Create says when the logs say it all |
| Trees.RemoveCommutes | fs/dir.c:145-176 | so is what rm does |
| Volumes.Volume.constructor | fs/mktestfs.c:78 | a file system with its root directory, from the blocks of the device up, shows the tree of one directory |
| Volumes.Volume.Create | fs/dir.c:388-405 | create and mkdir do to the device what they do to the tree, with the same result; all is well formed afterwards exactly unless the entry breaks its directory |
| Volumes.Volume.Remove | fs/dir.c:407-424 | so does rm, which gets past its asserts exactly when there is nothing to remove or it is removable |
| Volumes.Volume.Cd | fs/dir.c:342-362 | goes to a directory that has an entry here, and stays otherwise |
| Volumes.Volume.Write | fs/file.c:88-119 | writing a file leaves the tree what it is, well formed exactly unless a table is stranded |
| Scheduling.ApplyPartition | threads/thread.c:75-479 | no event takes a thread out of its one place among running, ready queue and wait queues, or puts it in two |
| Scheduling.FreeQueuePartition | threads/thread.c:363-368 | freeing a wait queue keeps that exactly when the queue is empty |
| ThreadCalls.YieldLaw | threads/thread.c:141-252 | a ready thread asked for by number runs, the first one when any will do, the caller then being last in the queue and nobody else moved; otherwise the caller runs on and the queue is as it was |
| ThreadCalls.YieldResult | threads/thread.c:141-252 | the number returned is that of the thread that runs, or says that none is ready, or that the one asked for is not |
| ThreadCalls.CreateLaw | threads/thread.c:75-125 | the least free number is returned, and is last in the queue with a stack of its own and interrupts on; without memory the number is taken and an error returned; with no number free nothing happens |
| ThreadCalls.ExitLaw | threads/thread.c:255-282 | the head of the queue runs and its number is returned, the caller is gone and its stack the next to be freed; alone, it stays and an error is returned |
| ThreadCalls.KillLaw | threads/thread.c:284-326 | a ready thread leaves the queue and its stack is freed unless its number is 0; any other number is refused and nothing changes |
| ThreadCalls.SleepLaw | threads/thread.c:370-422 | the head of the queue runs and its number is returned, the caller is last in the wait queue; both errors change nothing |
| ThreadCalls.WakeupLaw | threads/thread.c:426-479 | the result is the number of threads by which the ready queue grew; they are the first of the wait queue in order, one or all |
| ThreadRuns.InitialState | threads/thread.c:45-66 | what the run theorems assume holds after thread_init |
| ThreadRuns.LostThread | threads/thread.c:88-103 | a valid thread in no queue comes about exactly when a number is free and the stack cannot be allocated |
| ThreadRuns.FlagRestored | threads/thread.c:141-479 | when a thread that has been there all the time runs again, the interrupt flag of the machine is what it last set it to itself, whatever the threads in between have set |
| ThreadRuns.FrontIff | threads/thread.c:160-419 | the dispatches counted below are exactly the calls, besides asking for it by number, by which the head of the ready queue comes to run |
| ThreadRuns.Advance | threads/thread.c:160-419 | no event moves a ready thread back, and each dispatch of the head moves it up |
| ThreadRuns.Progress | threads/thread.c:160-419 | over a run a ready thread either runs or moves up by one for every dispatch |
| ThreadRuns.BoundedWaiting | threads/thread.c:160-419 | a thread with k before it, unless killed, runs before k + 1 dispatches are over, whatever is interleaved |
| ThreadRuns.StacksStep | threads/thread.c:97-315 | a stack is freed at most once and belongs to no thread afterwards |
| ThreadRuns.StacksRun | threads/thread.c:97-315 | the same over every run |
| ThreadRuns.FreedOnce | threads/thread.c:147-315 | so the calls of free in thread_yield, thread_exit and thread_kill free each stack at most once, and none that a valid thread has |
| ThreadRuns.LostStack | threads/thread.c:310-315 | every stack made is freed, about to be, or owned, exactly until a later thread with number 0 is killed |
| ThreadExamples.NoMemory | threads/thread.c:88-103 | from the start: a create without memory leaves a valid thread nowhere |
| ThreadExamples.KillZero | threads/thread.c:310-315 | from the start: create, exit, create, kill of thread 0, and a stack is lost |
| Threads.LinkedAppend | threads/thread.c:177-183 | the two assignments that append a thread keep the queue linked |
| Threads.LinkedRemove | threads/thread.c:224-229 | giving the predecessor the next field takes out that thread and no other |
| Threads.LinkedJoin | threads/thread.c:446-448 | hanging one queue behind another makes one linked queue |
| Threads.CreateRep | threads/thread.c:110-120 | the write through the tail in thread_create damages no queue even when the tail is stale |
| Threads.Scheduler.constructor | threads/thread.c:45-66 | sets up the one running thread and empty queues |
| Threads.Scheduler.SetInterrupts | threads/interrupt.c:60-75 | interrupts_set by the running thread changes its own flag and no other |
| Threads.Scheduler.FirstInvalid | threads/thread.c:80-87 | the least number no valid thread has |
| Threads.Scheduler.ThreadCreate | threads/thread.c:75-125 | the table and queues after it are the abstract create, also when there is no number or no memory |
| Threads.Scheduler.ThreadYield | threads/thread.c:141-252 | the abstract yield, for any thread, itself, a given one, and every error |
| Threads.Scheduler.ThreadExit | threads/thread.c:255-282 | the abstract exit, with the stack left for the next thread to free |
| Threads.Scheduler.ThreadKill | threads/thread.c:284-326 | the abstract kill of a ready thread; every other number is refused |
| Threads.Scheduler.WaitQueueCreate | threads/thread.c:347-361 | a new empty wait queue |
| Threads.Scheduler.WaitQueueDestroy | threads/thread.c:363-368 | the queue is gone and its sleepers with it, so the scheduler stays well formed exactly when nobody slept there |
| Threads.Scheduler.ThreadSleep | threads/thread.c:370-422 | the abstract sleep: last in the wait queue, and the head of the ready queue runs |
| Threads.Scheduler.ThreadWakeup | threads/thread.c:426-479 | the abstract wakeup of one or all, in the order they went to sleep, with the right count |
| Threads.Scheduler.WakeAll | threads/thread.c:438-462 | all sleepers join the ready queue in order and are counted |
| Threads.Scheduler.WakeOne | threads/thread.c:463-477 | the first sleeper joins the ready queue |
| Locks.StartInv | threads/thread.c:45-66 | the lock invariant holds after thread_init |
| Locks.NextInv | threads/thread.c:481-614 | every step of lock and condition calls, preemption included, keeps the lock invariant |
| Locks.UnlockInv | threads/thread.c:528-540 | a release by the holder frees the lock and wakes everyone asleep on it |
| Locks.TestInv | threads/thread.c:515-526 | the loop test takes a free lock, or puts the thread to sleep on one that is held |
| Locks.DestroyLockInv | threads/thread.c:501-513 | lock_destroy never discards a sleeper |
| Locks.LockSafety | threads/thread.c:501-540 | over every run at most one thread holds a lock, and nobody sleeps on a free one; that whoever returns from lock_acquire holds it is CriticalSections.AcquireReturns |
| Locks.Atomic | threads/thread.c:577-589 | inside a call the flag is off, so nothing comes between the release and the sleep of cv_wait |
| Locks.ForeignRelease | threads/thread.c:528-540 | a release breaks exclusion exactly when somebody else holds the lock, which line 533 does not check |
| ThreadExamples.ReleasedByAnother | threads/thread.c:528-540 | from the start: a run in which a thread may release a lock that another holds |
| Locks.WaitReleases | threads/thread.c:583-584 | cv_wait frees the lock and wakes its waiters with the flag still off |
| Locks.WaitSleeps | threads/thread.c:585-586 | then the caller is last in the queue of the condition, unless no thread is ready; either way it takes the lock again before it returns (CriticalSections.AcquireReturns) |
| Locks.CvStep | threads/thread.c:577-614 | a signal under a held lock readies the first thread of the queue of a condition, a broadcast all of them in order; nothing else takes a thread from it |
| Locks.SignalsInOrder | threads/thread.c:577-614 | over every run the thread with k before it is made ready exactly if there are more than k signals or a broadcast, and until then waits, one place nearer for each signal: no wakeup is lost or out of turn |
| CriticalSections.AcquireReturns | threads/thread.c:515-589 | over every run a thread that called lock_acquire, or cv_wait under a held lock, is next outside of the call only as the one holder of the lock, the lock taken and the flag what it was at the call |
| CriticalSections.CallReturns | threads/thread.c:141-614 | over every run a thread comes back from any call with the interrupt flag it had before, or set by the call if that was interrupts_set |
| CriticalSections.StartsOn | threads/thread.c:130-139 | a new thread begins with interrupts on |
| CriticalSections.NobodyElse | threads/thread.c:515-589 | as long as the holder does not release the lock, wait with it, exit or get killed it keeps it, and no other thread comes back from lock_acquire or cv_wait with it |
| CriticalSections.ComesBack | threads/thread.c:515-589 | a thread that comes to run inside such a call while the lock is free comes back before any other thread runs |
| CriticalSections.StepEvents | threads/thread.c:481-614 | what a lock or condition call does to the threads is at most one call of the library underneath, named for each step |
| CriticalSections.RunEvents | threads/thread.c:481-614 | so every run of the locks is, on the threads, a run of the library, and what holds over its runs holds here |
| RequestBuffers.Count | webserver/server_thread.c:294-319 | the modulus of the code counts the descriptors between out and in |
| RequestBuffers.RequestBuffer.Put | webserver/server_thread.c:317-330 | full exactly at max_requests; otherwise the descriptor comes last, none is overwritten, and the signal is sent exactly when the buffer was empty |
| RequestBuffers.RequestBuffer.Take | webserver/server_thread.c:286-300 | empty exactly when nothing is stored; otherwise the oldest descriptor is taken, and the signal is sent exactly when the buffer was full |
| RequestBuffers.StepInv | webserver/server_thread.c:281-332 | every step keeps first-in first-out and, over a non-empty buffer, some worker awake |
| RequestBuffers.StepRoom | webserver/server_thread.c:317-330 | with one producer, a producer that is blocked and not signalled has no room |
| RequestBuffers.RunInv | webserver/server_thread.c:281-332 | both over every run, in which what is accepted and taken only grows |
| RequestBuffers.FirstInFirstOut | webserver/server_thread.c:281-332 | the i-th descriptor taken is the i-th accepted, and no more than max_requests are waiting |
| RequestBuffers.HandsOver | webserver/server_thread.c:292-322 | a step that takes a descriptor takes the head of the queue and leaves its worker serving it; one that accepts a descriptor stores what its producer came with |
| RequestBuffers.ServedOnce | webserver/server_thread.c:281-332 | over every run each descriptor a producer came with is, as often as it came, either still offered, waiting, being served or finished; what is taken is exactly what is served or finished |
| RequestBuffers.NoDeadlock | webserver/server_thread.c:281-332 | with one producer, a worker and room for a request, the threads are never all asleep |
| RequestBuffers.NoRoomNoService | webserver/server_thread.c:319-321 | with max_requests 0 no request is ever accepted |
| RequestBuffers.SecondProducer | webserver/server_thread.c:294-296 | leaving full loses a producer exactly when a second one waits |
| RequestBuffers.TwoProducers | webserver/server_thread.c:281-332 | two producers can end with one asleep for ever over an empty buffer |
| Probing.Hash | webserver/server_thread.c:232-242 | the loop computes the hash of the whole string, modulo 2 to the 64 |
| Probing.Covered | webserver/server_thread.c:344-354 | the squaring probe repeats itself: all slots it ever tries are among the first table_size |
| Caches.Unlinked | webserver/server_thread.c:447-457 | the pointer updates take out that entry and keep the list linked both ways |
| Caches.Appended | webserver/server_thread.c:459-462 | the pointer updates put the entry last and keep the list linked both ways |
| Caches.UseOrder | webserver/server_thread.c:422-466 | moving an entry to the end when it is used keeps the list in order of last use |
| Caches.TableInsert | webserver/server_thread.c:368-385 | an entry in the first empty slot of its path is found there, and the others still are |
| Caches.Cache.UpgradeLru | webserver/server_thread.c:422-466 | the entry becomes the last of the list, for the empty list, the one-entry list, head, tail and middle |
| Caches.Cache.Lookup | webserver/server_thread.c:337-356 | overflows exactly when a slot it passes is above 46340; otherwise it finds the entry of a name exactly if there is one, and an absent name is missed, or sought for ever exactly when no slot of its path is empty |
| Caches.Cache.Insert | webserver/server_thread.c:358-396 | refuses more than half the cache; otherwise the new entry is in the table and last in the list, and remaining_cache_size falls by its size |
| Caches.Cache.CheckInsert | webserver/server_thread.c:138-153 | names stay unique, what was inserted is found ever after unless the lookup overflows, nothing leaves |
| Caches.NeverFound | webserver/server_thread.c:344-354 | two empty files in a cache of size 1 whose names hash to slot 0: the second is sought for ever |
| Caches.Overflowing | webserver/server_thread.c:353 | two empty files in a cache of size 9091 whose names have the same hash: looking the second up squares slot 61251 |
| WordCounts.Absent | warmup/wc.c:78-88 | where the probe meets an empty slot the word is not in the table |
| WordCounts.Stuck | warmup/wc.c:78-88 | when table_size tries meet other words the probe never ends, and the word is not in the table |
| WordCounts.WordCount.constructor | warmup/wc.c:149-162 | the empty table holds no words |
| WordCounts.FitsIff | warmup/wc.c:78-88 | a word finds a slot exactly when it is in the table or its path has an empty slot |
| WordCounts.WordCount.Add | warmup/wc.c:60-96 | counts the word exactly when it is in the table or its path has an empty slot; otherwise the loop never ends |
| WordCounts.WordsAre | warmup/wc.c:47-58 | the words of every text, and after them the pending one, are its maximal stretches without the characters 9 to 13 and 32, in order, none but the pending one empty |
| WordCounts.WordCount.Scan | warmup/wc.c:29-103 | ends exactly when every word finds a slot in the table that the words before it make, a function of text and table size; then the table holds each white-space-terminated word of the text (WordCounts.WordsAre says which they are) once with its number of occurrences |
| WordCounts.NeverCounted | warmup/wc.c:29-103 | the text of 4 characters a, space, b, space is never counted |

## Left out

- ReadWrite.Inode.FreeBlocks: asks for a well-formed inode; freeing one that a failed write has left with a dangling table is not followed. Which blocks are freed before the assert fails when block 0 is read for a table is not followed either.
- ReadWrite.Inode.ReadData: the window starts inside the file, which only `cmd_read` checks, and its size fits an int, as `leftover_size` needs.
- ReadWrite.Inode.WriteData: the number of bytes fits an int; logical block numbers are not cut to 32 bits, which matters for offsets of 16 TB and more.
- FileSpec.LeakTail: says before the write whether a leaky last block brings in zeros, but for the bytes of the one table entry that the window ends in; those depend on the number of the block allocated.
- FileSystems.FileSystem.WriteFile: works on the in-memory inode. That the cache keeps it in step with its slot on the device, and finds the slot of a new inode zeroed, is proved in `InodeCache.dfy`; the two classes are not one.
- Catalogs.Catalog.WriteRecord: the offset is not cut to an int (`fs/dir.c:67`), which matters for directories of 2 GB and more; `malloc` does not fail. After a directory is broken, or a table stranded in its inode, commands on it are not followed.
- Trees.CreateWellFormed: a create that breaks its directory is not among the commands of a run; when one does is the condition of Catalogs.Catalog.Create and Volumes.Volume.Create. A name with a zero in it is not modelled.
- Threads.Scheduler.ThreadYield: excludes the thread number 1024, for which `threads/thread.c:198` reads past the table.
- Locks.NextInv: only holders release or wait, a lock is destroyed only when nobody is in a call that still uses it, and user code keeps its hands off the queues of locks and conditions. A thread that exits or is killed holds nothing afterwards, though its lock stays taken.
- RequestBuffers.StepInv: a critical section is one step, and a wait may end by itself at any time, as the mutex and the conditions allow.
- Caches.Cache.Lookup: the number of slots is an int, as `server_init` computes it; the probe counts its tries so that a loop that never ends becomes a result, and an int that overflows is a result too.
- Caches.Cache.Insert: `cache_evict` has no effect where it is called, since its loop guard is false there, so the cache is not bounded by its size; eviction, and freeing the cache, are left out.
- WordCounts.WordCount.Scan: texts of at least 3 characters without zeros, words shorter than the buffer of 500, and tables whose squared slot numbers fit 64 bits.
- `thread_id`, which returns before it restores the flag (`threads/thread.c:71`), the field `hasLock`, which is written and never read, and `cv_destroy`.
- Register contents, stack alignment and signals in `threads/`: a context switch is a change of the running thread together with the flag its suspended call will restore.
- Reading and writing the image file, command and option parsing, and printing in `fs/`.
- `cmd_ls` on something that is not a directory, which returns without putting the inode back (`fs/dir.c:311`).
- Sockets, HTTP and file reading in `webserver/`; `request_readfile` becomes the size of the file. Workers that serve a request are between two critical sections.
- `warmup/sorted_points.c`, `warmup/point.c` and the other warm-up programs: floating point, or too small to say anything about.
- The doubly linked `list_head` half of `fs/list.h`, which nothing modelled here uses, and the quality of `hash_int`.
