# A verified model of the V6-style file system of MyDiskInit

`MyDiskInit` builds the disk image of a Unix V6-like system: a superblock, a table of 64-byte
inodes, and a data area whose free blocks hold the chain of the free list in themselves. Files are
trees of blocks that grow when they are first touched, directories are files of 32-byte entries.
This project models that code in Dafny and proves what it does, on every disk geometry that fits a
C# `int` and on every input, not just on the constants of `MachinePara`.

The model keeps the form of the code. `Disk` is an array of bytes with a cursor (a ghost field
shows the same bytes as little-endian words), `Superblock`, `DataBlock`, `InodeBlock`, `Directory`
and `File` are classes that update fields, arrays and the disk in place, with loops where the
source has loops. Each method is proved equal to a function on values (`Alloc`, `BMap`, `Fetch`,
`Free`, `Walk`, ...), and the properties are lemmas about those functions over all states and all
runs.

| file | what it holds |
|---|---|
| `Words.dfy`, `Disk.dfy` | little-endian integers, the disk and its cursor |
| `Superblock.dfy` | the superblock, its image and its mirror on disk |
| `FreeList.dfy`, `DataBlock.dfy` | the grouped free list: what it denotes, and the class that runs it |
| `BlockMap.dfy`, `BlockMapLaws.dfy`, `Runs.dfy` | the block map as a forest, get-or-insert, whole runs |
| `Inodes.dfy`, `InodeBlock.dfy` | inode codec, the cache of free numbers, whole runs |
| `Paths.dfy`, `PathLaws.dfy` | path walk, and what splitting a path means |
| `DirViews.dfy`, `Directory.dfy` | directories as readers see them, `BMap` and `NameI` in place |
| `Creation.dfy`, `FileBytes.dfy` | what a new entry means for lookups, files as bytes |
| `Storing.dfy`, `Files.dfy` | what a creation stores and leaves, and `CreateFile` |
| `Trees.dfy`, `Growth.dfy` | sequences of creations: the tree they leave, and the invariant under which each is in order |
| `BuiltDisk.dfy`, `Setup.dfy` | a disk as built, building it, and the program's own run |

The main results:

* **Free list.** The in-core array and the records inside the free blocks denote one list
  (`DenotesUnique`); a request takes its head and fails exactly on the empty list
  (`AllocTakesHead`); after `InitDataBlock` request k gets block start + k, for all k, until the
  area is used up (`AllocRun`), and every word of array and chain is known (`InitDataBlock`,
  `RecordWords`).
* **Block map.** Over all runs of `BMap` calls and client writes on any number of files, no block
  has two places, no pointer dangles, no block is lost (`OwnershipForest`), and every file reads as
  the abstract sparse file (`RunRefinesFiles`). One call is get-or-insert and maps the block exactly
  if there are enough free blocks (`GetOrInsert`). Logical blocks follow the order of the addresses and
  slots (`LeavesInOrder`), which the results show in words of the disk (`DoubleInWords`).
* **Inodes.** Codec and slots round-trip, a fetch fails exactly if no inode is free, and no number
  is issued twice in any run of disciplined clients (`NeverReissued`). Which number each of any
  sequence of fetches returns is known in closed form (`CachedRun`, `FetchRun`).
* **Paths.** `NameI`, with both its loops, its in-place reads and its block allocations, ends in the
  outcome of splitting the path and walking from directory to directory. It loses a block exactly if
  it leaves a directory behind in which it filled an address, or if it filled one in the directory
  where it ends and that in-core inode is dropped (`NameI`, `DroppedIff`). Splitting finds the runs of
  characters between slashes, however many slashes there are (`SplitIsWords`, `SlashRuns`).
* **Creation.** `CreateFile`, from the lookup to the two stored inodes, writes the record into its slot
  and changes no other byte of any file and no inode but the new one and its parent, all fields of
  which are known, the mode of a directory bit by bit (`DirectoryBits`). The path then
  leads to the new inode, and everything that was found before is still found (`CreatedResolves`). No
  other path begins to resolve exactly if no name surfaces behind the old end of the directory
  (`OnlyCreatedIff`).
* **Sequences.** On a freshly built disk every sequence of directory creations for which blocks and
  inodes suffice runs without loss. How many of them succeed depends on the paths alone: they do as
  long as every name fits, no path repeats an earlier one, and each parent is the root or an earlier
  path (`NextIff`, `Construct`). In the end a path leads to an inode exactly if it is one of those that
  were made (`FoundIffMade`, `TreeIsExact`). The program's own run makes `/dev`, `/home`, `/usr`, `/etc`
  and `/home/test.txt`, and nothing else (`ConstructDirectoryStruct`).

Where the code does not do what its comments or its callers expect, the model follows the code and
a lemma says exactly when the expectation is met. For all but the last item a second lemma shows an
input that fails it:

* The comments of `NameI` promise the first free entry of a directory. The code cannot tell "entry
  0 is free" from "none seen yet", so it misses the promise exactly if entry 0 and a later entry
  are free (`FirstSlotIff`; `SecondOfTwo`).
* `CreateFile` grows the parent by one entry even if it used a free one, so that the 32 bytes behind
  the old end become an entry. A name there becomes resolvable: exactly if a free entry was used and
  the entry behind the end carries a proper name that the directory lacked (`OnlyCreatedIff`;
  `SurfacingWitness`).
* A lookup maps missing blocks of the directories that it reads, in core. Reloading the in-core inode
  forgets the addresses, and the blocks are lost: exactly if an address of the blocks that were read
  was 0 in a directory that the lookup left behind, or, when nothing is created and the in-core inode
  is dropped, in the directory where it ended (`ReloadComplete`, `NameI`, `CreateFile`, `DroppedIff`;
  `ForgottenBlock`, a lookup of `/a/b`).
* `returnFreeSize` is right exactly as long as no request has failed, because a failing request
  decrements `_s_nfree` before it throws; afterwards the result is negative (`ReturnFreeSize`;
  `FailedRequests`).
* The initial inode cache is free of duplicates exactly if there are at least 100 inodes
  (`InitInodeManager`, `InitialCache`; `SmallTable`).
* Releasing a number keeps the cache free of duplicates exactly if the cache did not list it or is
  full (`FreeKeepsCache`; `ReleasedTwice`).
* `File.SetCommonFileInode` leaves `i_mode` alone, so an inode that was stored for a plain `File` is
  still free on disk (`MarkedIffDirectory`, `ListedIffUnmarked`; `PlainFileIsScanned`).
* If no inode is free, `NameI` swallows the exception and the creation goes on with the number its
  caller passed in, which is 0 (`AssignedIffFree`; `NoneLeft`). The inode of the root directory then
  survives exactly if the root is the parent (`RootSurvivesIff`).
* The static error code is never reset, so after one failed lookup nothing can be created any more
  (`CreateFile`, `CreateDirectories`; `CodeSticks`, where `/a` is refused after `/x/y`).
* When blocks run out, `BMap` reads and writes at positions computed from block 0 or from a word of
  the boot block. The model has these accesses, including 32-bit wrap-around, failed seeks and short
  reads, and the invariants hold through them.

## Model

| member | source | states |
|---|---|---|
| `Words.BytesRoundTrip` | buildproj/MyDiskInit/Helper/Helper.cs:18-40 | a 32-bit integer survives being turned into 4 bytes and back |
| `Words.WordRoundTrip` | buildproj/MyDiskInit/Helper/Helper.cs:18-40 | 4 bytes survive being turned into an integer and back |
| `Words.HalvesRoundTrip` | buildproj/MyDiskInit/Helper/Helper.cs:18-40 | two signed 16-bit integers stored side by side are read back |
| `Words.PackRoundTrip` | buildproj/MyDiskInit/Helper/Helper.cs:18-40 | the word is decided by its two halves |
| `Words.LittleEndian` | buildproj/MyDiskInit/Helper/Helper.cs:18-40 | four bytes are the digits of a 32-bit integer, the least significant first, the last one with the sign; two bytes those of a 16-bit one; the halves of a word are its first and its last two bytes |
| `Words.DigitsOf` | buildproj/MyDiskInit/Helper/Helper.cs:18-40 | the bytes of an integer are its digits in that order |
| `Words.WrapIsExact` | buildproj/MyDiskInit/FileSystem/Directory.cs:266-291 | 32-bit arithmetic differs from exact arithmetic by a multiple of 2^32 |
| `DiskImage.Disk.constructor` | buildproj/MyDiskInit/RWFile/Disk.cs:21-27 | a cleared disk: every word is 0 |
| `DiskImage.Disk.SeekTo` | buildproj/MyDiskInit/RWFile/RWFile.cs:120-130 | a seek to a negative position fails and leaves the cursor of the just opened file at 0 |
| `DiskImage.Disk.ReadOver` | buildproj/MyDiskInit/RWFile/RWFile.cs:103-113 | a read past the end of the file leaves the buffer as it was |
| `DiskImage.Disk.WriteInt` | buildproj/MyDiskInit/RWFile/RWFile.cs:83-94 | writing 4 bytes changes exactly the word under the cursor |
| `DiskImage.Disk.ReadInt` | buildproj/MyDiskInit/RWFile/RWFile.cs:103-113 | reading 4 bytes gives the word under the cursor |
| `DiskImage.Disk.WriteShort` | buildproj/MyDiskInit/RWFile/RWFile.cs:83-94 | writing 2 bytes changes one half of one word |
| `DiskImage.Disk.ReadShort` | buildproj/MyDiskInit/RWFile/RWFile.cs:103-113 | reading 2 bytes gives one half of a word |
| `DiskImage.Disk.ReadBytes` | buildproj/MyDiskInit/RWFile/RWFile.cs:103-113 | reading n bytes fills the front of the buffer with the bytes under the cursor and leaves the rest |
| `DiskImage.Disk.WriteByte` | buildproj/MyDiskInit/RWFile/RWFile.cs:83-94 | writing a byte changes no other byte |
| `DiskImage.Disk.WriteBytes` | buildproj/MyDiskInit/RWFile/RWFile.cs:83-94 | writing n bytes replaces those bytes of the disk and no others |
| `SuperBlocks.Superblock.constructor` | buildproj/MyDiskInit/FileSystem/SuperBlock.cs:80-126 | all fields: sizes, full arrays of zeros, and the layout of the disk in the padding, which is still to be written |
| `SuperBlocks.NewSuperFields` | buildproj/MyDiskInit/FileSystem/SuperBlock.cs:80-126 | each field and each word of the padding in numbers |
| `SuperBlocks.Superblock.UpdateSuperBlockToDisk` | buildproj/MyDiskInit/FileSystem/SuperBlock.cs:131-201 | the image of all fields replaces the superblock on disk, with the padding the first time only; nothing outside the two blocks changes |
| `SuperBlocks.Superblock.ReadSuperBlock` | buildproj/MyDiskInit/FileSystem/SuperBlock.cs:206-276 | loads every field but the padding from the disk, which does not change |
| `SuperBlocks.StoredWords` | buildproj/MyDiskInit/FileSystem/SuperBlock.cs:131-201 | which word of the disk holds which field after an update: isize, fsize, the free-block list, the inode cache, flags and time, and the padding if it had been changed |
| `SuperBlocks.LoadedWords` | buildproj/MyDiskInit/FileSystem/SuperBlock.cs:206-276 | from which word each field is loaded; the padding is not |
| `SuperBlocks.PaddingOnce` | buildproj/MyDiskInit/FileSystem/SuperBlock.cs:131-201 | the padding goes out with the first update only; later ones leave it on disk |
| `SuperBlocks.StoredIsMirrored` | buildproj/MyDiskInit/FileSystem/SuperBlock.cs:131-276 | write-through: reading the superblock back after an update would change nothing |
| `SuperBlocks.MirrorFrame` | buildproj/MyDiskInit/FileSystem/SuperBlock.cs:206-276 | only the first 209 words of the superblock matter to that |
| `FreeList.DenotesFrame` | buildproj/MyDiskInit/FileSystem/DataBlock.cs:101-113 | the list is read off the blocks it lists: any change elsewhere keeps it |
| `FreeList.DenotesUnique` | buildproj/MyDiskInit/FileSystem/DataBlock.cs:101-113 | array and chain denote at most one list |
| `FreeList.AllocFrame` | buildproj/MyDiskInit/FileSystem/DataBlock.cs:87-120 | a request changes the superblock and the granted block, which ends up cleared, and nothing else |
| `FreeList.AllocFields` | buildproj/MyDiskInit/FileSystem/DataBlock.cs:87-120 | the array stays and the count drops by one; with the last entry both become the words of its record |
| `FreeList.TopEntry` | buildproj/MyDiskInit/FileSystem/DataBlock.cs:91-98 | the test for exhaustion recognises exactly the empty list |
| `FreeList.PoppedDenotes` | buildproj/MyDiskInit/FileSystem/DataBlock.cs:100-114 | taking the top entry, or following the record of the last one, leaves the tail of the list |
| `FreeList.AllocTakesHead` | buildproj/MyDiskInit/FileSystem/DataBlock.cs:87-120 | a request takes the head of the list and fails exactly if the list is empty; the record of a group is loaded before its block is cleared |
| `FreeList.AllocMirrored` | buildproj/MyDiskInit/FileSystem/DataBlock.cs:117-119 | after a granted request the superblock on disk is the one in core |
| `FreeList.PushedDenotes` | buildproj/MyDiskInit/FileSystem/DataBlock.cs:54-77 | the step of the initialisation puts a block in front of the list |
| `FreeList.AllocRun` | buildproj/MyDiskInit/FileSystem/DataBlock.cs:43-120 | closed form of whole runs: request k gets block start + k until the area is used up, and fails from then on |
| `FreeList.FailedRequests` | buildproj/MyDiskInit/FileSystem/DataBlock.cs:87-120 | over every run that exhausts the area: after k requests on n blocks the count is 1 - (k - n) |
| `DataBlocks.DataBlock.InitDataBlock` | buildproj/MyDiskInit/FileSystem/DataBlock.cs:43-81 | array and chain denote the whole data area in ascending order, a hundred blocks to a record, with every entry of the array known; boot block and inodes do not change |
| `FreeList.RecordWords` | buildproj/MyDiskInit/FileSystem/DataBlock.cs:54-77 | every hundredth block from the end holds a record: the count 100, the number of the block with the next record or 0, and the 99 blocks behind it from the highest one down |
| `DataBlocks.DataBlock.BuildChain` | buildproj/MyDiskInit/FileSystem/DataBlock.cs:54-77 | the loop of the initialisation, for any number of blocks |
| `DataBlocks.DataBlock.Push` | buildproj/MyDiskInit/FileSystem/DataBlock.cs:56-76 | one round of that loop |
| `DataBlocks.DataBlock.SaveGroup` | buildproj/MyDiskInit/FileSystem/DataBlock.cs:58-71 | a full array goes into the block as count and entries |
| `DataBlocks.DataBlock.GetFreeBlock` | buildproj/MyDiskInit/FileSystem/DataBlock.cs:87-120 | the whole new state is that of `Alloc`, including the decrement before a failure |
| `DataBlocks.DataBlock.TakeEntry` | buildproj/MyDiskInit/FileSystem/DataBlock.cs:91-114 | fails exactly on the empty list; otherwise returns its head and brings in the next group if needed |
| `DataBlocks.DataBlock.LoadGroup` | buildproj/MyDiskInit/FileSystem/DataBlock.cs:103-113 | array and count become the record of the block |
| `DataBlocks.DataBlock.CleanBlock` | buildproj/MyDiskInit/FileSystem/DataBlock.cs:126-140 | clears exactly that block |
| `DataBlocks.DataBlock.ReturnFreeSize` | buildproj/MyDiskInit/FileSystem/DataBlock.cs:146-183 | terminates, changes nothing, and counts the list correctly if and only if no request has failed; after that it returns `_s_nfree` - 1, which is negative |
| `BlockMap.LeafBijection` | buildproj/MyDiskInit/FileSystem/Directory.cs:220-311 | index arithmetic is a bijection between 0..33029 and the direct, single and double indirect places, with all indices in bounds |
| `BlockMap.LeavesInOrder` | buildproj/MyDiskInit/FileSystem/Directory.cs:220-311 | a lower logical block has an earlier place in the order of address, first-level slot and second-level slot |
| `BlockMap.GrownForest` | buildproj/MyDiskInit/FileSystem/Directory.cs:225-337 | giving the head of the free list to a place that had no block keeps ownership and conservation |
| `BlockMap.SlotGrown` | buildproj/MyDiskInit/FileSystem/Directory.cs:257-335 | linking a fresh block into a zero slot changes that one place of all files and no data |
| `BlockMap.TopGrown` | buildproj/MyDiskInit/FileSystem/Directory.cs:228-256 | storing a fresh block in a zero address does the same |
| `BlockMap.TopStepped` | buildproj/MyDiskInit/FileSystem/Directory.cs:228-263 | looking up an address keeps the volume sound and allocates only if the address is 0 |
| `BlockMap.SlotStepped` | buildproj/MyDiskInit/FileSystem/Directory.cs:266-335 | looking up a slot keeps the volume sound and allocates only if the slot is 0 |
| `BlockMap.DrySlot` | buildproj/MyDiskInit/FileSystem/Directory.cs:266-335 | after exhaustion a lookup below a missing block changes no word |
| `BlockMap.BMapWalks` | buildproj/MyDiskInit/FileSystem/Directory.cs:215-338 | one call fills the missing places on the path, root first, from the head of the free list, and nothing else |
| `BlockMapLaws.MissingAtEnd` | buildproj/MyDiskInit/FileSystem/Directory.cs:215-338 | missing places are the last ones of a path: at most 1, 2 or 3 blocks are allocated |
| `BlockMapLaws.GetOrInsert` | buildproj/MyDiskInit/FileSystem/Directory.cs:215-338 | `BMap` is get-or-insert: old block or the last of the fresh ones, no other mapping and no data changes, and the block is mapped if and only if enough blocks are free |
| `BlockMapLaws.MappedIsStable` | buildproj/MyDiskInit/FileSystem/Directory.cs:215-338 | a call for a mapped block returns it and changes neither disk nor superblock nor addresses |
| `BlockMapLaws.DirectInWords` | buildproj/MyDiskInit/FileSystem/Directory.cs:220-232 | a call for block n < 6 returns address n |
| `BlockMapLaws.SingleInWords` | buildproj/MyDiskInit/FileSystem/Directory.cs:233-291 | a call for block 6 + 128 q + k returns word k of the block of address 6 + q, and changes nothing |
| `BlockMapLaws.DoubleInWords` | buildproj/MyDiskInit/FileSystem/Directory.cs:233-335 | a call for block 262 + 16384 q + 128 k + j returns word j of the block in word k of the block of address 8 + q, and changes nothing |
| `BlockMapLaws.BlockInWords` | buildproj/MyDiskInit/FileSystem/Directory.cs:215-338 | the same for the mapping, where a 0 on the way means that there is no block |
| `BlockMapLaws.SecondCallRepeats` | buildproj/MyDiskInit/FileSystem/Directory.cs:215-338 | a second call returns the same block and changes nothing |
| `BlockMapLaws.LeafWrite` | buildproj/MyDiskInit/FileSystem/FileType/File.cs:155-164 | a client write into a mapped block keeps all mappings, the free list and all other data |
| `Runs.FreshIsSound` | buildproj/MyDiskInit/FileSystem/DataBlock.cs:43-81 | after formatting all places are empty and every data block is free |
| `Runs.RunFollows` | buildproj/MyDiskInit/FileSystem/Directory.cs:215-338 | over every run of calls and client writes the volume stays sound and complete and the free list only loses its front |
| `Runs.OwnershipForest` | buildproj/MyDiskInit/FileSystem/Directory.cs:215-338 | over every run: all blocks of all files differ, are data blocks, are not free, none is lost, owned and free blocks add up to the area, and the free list is its ascending rest |
| `Runs.Accounting` | buildproj/MyDiskInit/FileSystem/DataBlock.cs:87-140 | owned plus free blocks are the data area |
| `Runs.RunRefinesFiles` | buildproj/MyDiskInit/FileSystem/Directory.cs:215-338 | over every run without a failed request a block is mapped exactly if it was asked for, and each word reads as the last value put there, or 0 |
| `Inodes.CodecRoundTrip` | buildproj/MyDiskInit/FileSystem/InodeBlock.cs:200-299 | the 64-byte form loses nothing in either direction |
| `Inodes.DecodedFields` | buildproj/MyDiskInit/FileSystem/InodeBlock.cs:200-254 | inode n begins at word 128 (boot + 2) + 16 n of the disk; which of its words holds which field |
| `Inodes.InodeRoundTrip` | buildproj/MyDiskInit/FileSystem/InodeBlock.cs:200-299 | a stored inode is read back; no other inode and no word outside the table changes |
| `Inodes.FreeMeansModeZero` | buildproj/MyDiskInit/FileSystem/InodeBlock.cs:169-181 | free on disk means that the stored inode has mode 0 |
| `Inodes.FreeBelowHasAll` | buildproj/MyDiskInit/FileSystem/InodeBlock.cs:151-158 | the scan meets every free inode |
| `Inodes.RefillLoadsScan` | buildproj/MyDiskInit/FileSystem/InodeBlock.cs:149-161 | a refill loads the min(100, n) highest free numbers; it stays empty only if no inode is free |
| `Inodes.FetchTakesFree` | buildproj/MyDiskInit/FileSystem/InodeBlock.cs:142-166 | a fetch fails exactly if no inode on disk is free; else it returns a free number, drops it from the cache and changes no inode |
| `Inodes.FetchListing` | buildproj/MyDiskInit/FileSystem/InodeBlock.cs:142-166 | a fetch returns the last cached number, after a refill if the cache was empty, and leaves the others in their order |
| `Inodes.FreeListing` | buildproj/MyDiskInit/FileSystem/InodeBlock.cs:184-193 | a release puts the number behind the cached ones if there is room |
| `Inodes.FetchFrame` | buildproj/MyDiskInit/FileSystem/InodeBlock.cs:142-166 | which number is fetched depends on the inode table and the cache only |
| `Inodes.FetchMirrored` | buildproj/MyDiskInit/FileSystem/InodeBlock.cs:162-163 | after a fetch the superblock on disk is the one in core |
| `Inodes.FreeMirrored` | buildproj/MyDiskInit/FileSystem/InodeBlock.cs:184-193 | after a release the superblock on disk is the one in core |
| `Inodes.StoreKeepsCache` | buildproj/MyDiskInit/FileSystem/InodeBlock.cs:261-299 | storing an inode that the cache does not list keeps the cache sound and changes the state of that number only |
| `Inodes.FreeReleases` | buildproj/MyDiskInit/FileSystem/InodeBlock.cs:184-193 | a release frees exactly that inode on disk, whether or not the cache has room |
| `Inodes.FreeKeepsCache` | buildproj/MyDiskInit/FileSystem/InodeBlock.cs:184-193 | the cache stays free of duplicates if and only if it did not list the number or is full |
| `Inodes.ReleasedTwice` | buildproj/MyDiskInit/FileSystem/InodeBlock.cs:184-193 | releasing the only cached number hands it out twice in a row |
| `Inodes.ListedIffUnmarked` | buildproj/MyDiskInit/FileSystem/FileType/File.cs:169-177 | an inode that a client stored shows up in a scan if and only if its mode was left 0 |
| `Inodes.ClearedFreesAll` | buildproj/MyDiskInit/FileSystem/InodeBlock.cs:81-102 | initialisation frees every inode, keeps its other fields and everything outside the table |
| `Inodes.InitialCache` | buildproj/MyDiskInit/FileSystem/InodeBlock.cs:105-122 | the initial cache is sound if and only if there are 100 inodes or more; the first fetch returns 0 |
| `Inodes.SmallTable` | buildproj/MyDiskInit/FileSystem/InodeBlock.cs:105-122 | with one block of inodes the cache is not sound, and the second fetch returns -91 |
| `Inodes.InodeStep` | buildproj/MyDiskInit/FileSystem/InodeBlock.cs:142-193 | a creation takes a number that was free, a removal frees its number, no other number changes sides, and the cache stays sound |
| `Inodes.StaysInUse` | buildproj/MyDiskInit/FileSystem/InodeBlock.cs:142-193 | over every run a number in use stays in use until it is removed |
| `Inodes.NeverReissued` | buildproj/MyDiskInit/FileSystem/InodeBlock.cs:142-193 | over every run of clients that mark what they fetch, no number is issued again before it is removed |
| `Inodes.CachedRun` | buildproj/MyDiskInit/FileSystem/InodeBlock.cs:142-166 | over every run of clients that mark what they fetch: cached numbers are handed out from the last one to the first |
| `Inodes.FetchRun` | buildproj/MyDiskInit/FileSystem/InodeBlock.cs:142-166 | closed form of every such run from an empty cache: the free numbers come a hundred at a time from the highest ones down, each hundred in ascending order, and after the last one every fetch fails |
| `InodeBlocks.InodeStr.constructor` | buildproj/MyDiskInit/FileSystem/InodeBlock.cs:20-33 | a new inode is empty |
| `InodeBlocks.InodeBlock.CreatInode` | buildproj/MyDiskInit/FileSystem/InodeBlock.cs:81-102 | both loops clear the mode words of all inodes |
| `InodeBlocks.InodeBlock.CreatMngArray` | buildproj/MyDiskInit/FileSystem/InodeBlock.cs:105-122 | cache: the 99 last numbers, negative ones if there are fewer, and 0 on top; written through |
| `InodeBlocks.InodeBlock.InitInodeManager` | buildproj/MyDiskInit/FileSystem/InodeBlock.cs:72-78 | all inodes free, other fields kept, next number 0; the cache is sound if and only if there are 100 inodes or more |
| `InodeBlocks.InodeBlock.IsInodeFree` | buildproj/MyDiskInit/FileSystem/InodeBlock.cs:169-181 | 1 exactly for a free inode |
| `InodeBlocks.InodeBlock.Refill` | buildproj/MyDiskInit/FileSystem/InodeBlock.cs:149-158 | the scan loop fills the cache as `Refilled` says |
| `InodeBlocks.InodeBlock.FetchFreeInode` | buildproj/MyDiskInit/FileSystem/InodeBlock.cs:142-166 | the whole new state and the result are those of `Fetch` |
| `InodeBlocks.InodeBlock.FreeInode` | buildproj/MyDiskInit/FileSystem/InodeBlock.cs:184-193 | the whole new state is that of `Free` |
| `InodeBlocks.InodeBlock.GetInodeFromDisk` | buildproj/MyDiskInit/FileSystem/InodeBlock.cs:200-254 | all fields become those on disk |
| `InodeBlocks.InodeBlock.UpdateInodeToDisk` | buildproj/MyDiskInit/FileSystem/InodeBlock.cs:261-299 | exactly the slot of that number is replaced |
| `Paths.SkipSlashes` | buildproj/MyDiskInit/FileSystem/Directory.cs:65-69 | the first position that holds no slash |
| `Paths.NameEnd` | buildproj/MyDiskInit/FileSystem/Directory.cs:76-81 | the first position that holds a slash |
| `Paths.SplitJoin` | buildproj/MyDiskInit/FileSystem/Directory.cs:65-91 | splitting undoes joining, for all lists of names |
| `PathLaws.SplitIsWords` | buildproj/MyDiskInit/FileSystem/Directory.cs:65-91 | a path is split into its maximal runs of characters other than slashes; one without any counts as one empty name |
| `PathLaws.SlashRuns` | buildproj/MyDiskInit/FileSystem/Directory.cs:65-91 | for all strings: a doubled slash separates like a single one, and slashes at the beginning and at the end do not matter |
| `PathLaws.PlainSplit` | buildproj/MyDiskInit/FileSystem/Directory.cs:65-91 | a string without a slash is one name, the empty one too |
| `Paths.EntryCount` | buildproj/MyDiskInit/FileSystem/Directory.cs:98-99 | the size divided by 32, truncated towards zero |
| `Paths.Padded` | buildproj/MyDiskInit/FileSystem/Directory.cs:75-84 | the name, then zeros up to 28 characters |
| `Paths.Match` | buildproj/MyDiskInit/FileSystem/Directory.cs:98-175 | the lowest entry with the name |
| `Paths.FirstSlotIff` | buildproj/MyDiskInit/FileSystem/Directory.cs:92-125 | the slot is the first free entry, as the comments promise, if and only if it is not the case that entry 0 and a later one are free |
| `Paths.SecondOfTwo` | buildproj/MyDiskInit/FileSystem/Directory.cs:92-125 | of two free entries the second is chosen |
| `Paths.SlotCases` | buildproj/MyDiskInit/FileSystem/Directory.cs:92-125 | the slot in all cases: the lowest free entry behind entry 0, else entry 0 if it is free, else the end |
| `Paths.SlotIsFree` | buildproj/MyDiskInit/FileSystem/Directory.cs:92-125 | the slot is a free entry, or the end if no entry is free |
| `DirViews.LookupLater` | buildproj/MyDiskInit/FileSystem/Directory.cs:138-144 | filling a hole of a directory while reading it costs at most 3 blocks, none if mapped, and changes no file |
| `DirViews.Reload` | buildproj/MyDiskInit/FileSystem/Directory.cs:203-204 | reloading an inode keeps the volume sound and all files as they are; it drops at most addresses that the lookup itself added in core |
| `DirViews.ReloadComplete` | buildproj/MyDiskInit/FileSystem/Directory.cs:141-204 | leaving a directory keeps every block accounted for if and only if no address of the blocks that were read was 0 |
| `DirViews.CompleteIffNothingLost` | buildproj/MyDiskInit/FileSystem/Directory.cs:141-204 | accounted for means: every data block is free or held by some place |
| `DirViews.DroppedIff` | buildproj/MyDiskInit/FileSystem/Directory.cs:56-205 | once the in-core inode of a lookup is dropped every block is accounted for if and only if it was before and no address of the blocks read was 0, in the directories left behind and in the one where the lookup ended |
| `DirViews.StopInEntries` | buildproj/MyDiskInit/FileSystem/Directory.cs:72-203 | where a lookup ends it has read blocks of the entries only |
| `DirViews.ForgottenBlock` | buildproj/MyDiskInit/FileSystem/Directory.cs:56-205 | with a root of one entry and no block a lookup of /a/b is refused, and it loses the block that it took for reading the root: it is neither free nor held |
| `DirViews.EntryFacts` | buildproj/MyDiskInit/FileSystem/Directory.cs:146-184 | what the buffer tells about an entry is what the directory holds |
| `DirViews.SearchedStep` | buildproj/MyDiskInit/FileSystem/Directory.cs:147-175 | one more entry: either the lowest match, or the remembered free entry stays right |
| `DirViews.SearchedAll` | buildproj/MyDiskInit/FileSystem/Directory.cs:101-126 | at the end of a directory the remembered entry is where a new one goes |
| `DirViews.WalkStep` | buildproj/MyDiskInit/FileSystem/Directory.cs:72-203 | one round of the outer loop is one step of the walk |
| `DirViews.TablesUpdate` | buildproj/MyDiskInit/FileSystem/InodeBlock.cs:261-299 | a change outside the data area keeps the volume sound and all files as they are |
| `DirViews.FetchLater` | buildproj/MyDiskInit/FileSystem/Directory.cs:109-116 | a fetch at the end of a lookup returns what it would have returned at the start, and keeps the volume sound |
| `DirViews.AssignedIffFree` | buildproj/MyDiskInit/FileSystem/Directory.cs:107-120 | the number of a new file is free if and only if some inode is free; otherwise the caller keeps the number it passed in |
| `DirViews.NoneLeft` | buildproj/MyDiskInit/FileSystem/Directory.cs:107-120 | with all modes set a new file gets the number that was passed in |
| `Directories.Directory.BMap` | buildproj/MyDiskInit/FileSystem/Directory.cs:215-338 | in place: state, addresses and result are those of the function `BMap`, and the ghost books stay right |
| `Directories.Directory.TopBlock` | buildproj/MyDiskInit/FileSystem/Directory.cs:228-263 | the direct part, and the root of an index tree |
| `Directories.Directory.EnsureInPlace` | buildproj/MyDiskInit/FileSystem/Directory.cs:267-291 | one slot: seek with 32-bit positions, short read, request, write |
| `Directories.Directory.SlotBlock` | buildproj/MyDiskInit/FileSystem/Directory.cs:266-335 | one slot on a path, with the books |
| `Directories.Directory.Indirect` | buildproj/MyDiskInit/FileSystem/Directory.cs:233-336 | single and double indirect blocks |
| `Directories.Directory.LoadBlock` | buildproj/MyDiskInit/FileSystem/Directory.cs:137-144 | the buffer holds the logical block of the directory |
| `Directories.Directory.Matches` | buildproj/MyDiskInit/FileSystem/Directory.cs:146-154 | true exactly if all 28 characters agree |
| `Directories.Directory.ScanEntries` | buildproj/MyDiskInit/FileSystem/Directory.cs:98-175 | the inner loop: stops at the lowest match, remembers a free entry, terminates |
| `Directories.Directory.Scan` | buildproj/MyDiskInit/FileSystem/Directory.cs:86-175 | found exactly if some entry has the name, with the lowest offset; else the slot for a new entry |
| `Directories.Directory.TakeName` | buildproj/MyDiskInit/FileSystem/Directory.cs:75-91 | the next component padded with zeros, and the position of the one after it; fails exactly for more than 28 characters |
| `Directories.Directory.AssignInode` | buildproj/MyDiskInit/FileSystem/Directory.cs:107-120 | fetches a number or keeps the old one, and loads the inode under it |
| `Directories.Directory.Round` | buildproj/MyDiskInit/FileSystem/Directory.cs:72-203 | one round of the outer loop either ends as the walk does or goes on with fewer characters |
| `Directories.Directory.NameI` | buildproj/MyDiskInit/FileSystem/Directory.cs:56-205 | on every path of single-byte characters that meets directories only: terminates with the outcome of the recursive walk, the padded last name, and the inode for a creation; every file reads as before; no block is lost if and only if no directory that was left behind had an address 0 among those of the blocks read; if the in-core inode is dropped, if and only if the same holds in the directory where the lookup ended, too |
| `Creation.MatchKept` | buildproj/MyDiskInit/FileSystem/FileType/File.cs:130-148 | a name that a directory had is where it was |
| `Creation.MatchNew` | buildproj/MyDiskInit/FileSystem/FileType/File.cs:130-148 | the new name is found in its slot |
| `Creation.FoundIsKept` | buildproj/MyDiskInit/FileSystem/FileType/File.cs:99-116 | every path that led to an inode still leads to it after a creation |
| `Creation.CreatedIsFound` | buildproj/MyDiskInit/FileSystem/FileType/File.cs:99-116 | after a creation the path is refused for creation and leads to the stored number for deletion |
| `Creation.CreateMeansAbsent` | buildproj/MyDiskInit/FileSystem/Directory.cs:98-126 | a lookup reports a creation only where the name is missing |
| `Creation.CreationResolves` | buildproj/MyDiskInit/FileSystem/FileType/File.cs:99-116 | both, for whole paths; whether any other path begins to resolve is said by `OnlyCreatedIff` |
| `Creation.OnlyCreatedIff` | buildproj/MyDiskInit/FileSystem/FileType/File.cs:99-187 | over all paths of proper names: only the created path becomes resolvable if and only if no name surfaces, which requires that a free entry was used and a proper name lay behind the end; in particular if no entry was free, or what lay there is unused |
| `Creation.NothingElse` | buildproj/MyDiskInit/FileSystem/FileType/File.cs:99-187 | without a name that surfaces every path that resolves did so before or leads to the new entry |
| `Creation.SurfacingWitness` | buildproj/MyDiskInit/FileSystem/FileType/File.cs:99-187 | in a directory with one entry, free, and a name behind its end, creating /a makes /b resolvable |
| `Creation.FoundForever` | buildproj/MyDiskInit/Run.cs:48-69 | after any number of creations every path still leads to the inode that it led to |
| `Creation.OnlyLogged` | buildproj/MyDiskInit/Run.cs:48-69 | after any number of creations without surfacing names every path that resolves did so before or leads to one of the created entries |
| `FileBytes.BytesWritten` | buildproj/MyDiskInit/FileSystem/FileType/File.cs:155-164 | overwriting bytes of a mapped block changes those bytes of that file and no byte of any file else |
| `FileBytes.EntryBytes` | buildproj/MyDiskInit/FileSystem/FileType/File.cs:130-148 | which bytes of a directory spell entry e: the number in bytes 32 e to 32 e + 3, the name in the 28 after it |
| `FileBytes.Limits` | buildproj/MyDiskInit/FileSystem/Directory.cs:220-311 | the largest file has 6 + 2 * 128 + 2 * 128 * 128 blocks |
| `FileBytes.RecordIsEntry` | buildproj/MyDiskInit/FileSystem/FileType/File.cs:130-148 | the 32 bytes written are read back as the entry |
| `FileBytes.OtherEntries` | buildproj/MyDiskInit/FileSystem/FileType/File.cs:130-148 | no other entry of any directory changes |
| `FileBytes.RecordIsAdded` | buildproj/MyDiskInit/FileSystem/FileType/File.cs:99-116 | the listings of all directories gain the one entry, and with a reused slot also the entry read from the 32 bytes behind the old end, and nothing else |
| `Files.File.constructor` | buildproj/MyDiskInit/FileSystem/FileType/File.cs:84-94 | a file object with number 0 and empty in-core inodes |
| `Files.Errors.Note` | buildproj/MyDiskInit/Helper/Error.cs:8-32 | failures overwrite the shared code with 4 or 5, success leaves it |
| `Files.File.WriteStream` | buildproj/MyDiskInit/FileSystem/FileType/File.cs:155-164 | the bytes of that file at that position are the ones written, no other byte of any file changes, and missing blocks are mapped |
| `Files.File.WriteDirItem` | buildproj/MyDiskInit/FileSystem/FileType/File.cs:130-148 | the record of number and name is written at the slot |
| `Files.File.SetCommonFileInode` | buildproj/MyDiskInit/FileSystem/FileType/File.cs:169-177 | sets all fields but addresses; the mode only for a directory, to 0x8000 + 0x4000 + 0x1FF |
| `Files.File.UpdateFatherDirInode` | buildproj/MyDiskInit/FileSystem/FileType/File.cs:182-187 | the parent grows by 32 bytes in any case |
| `Files.File.StoreInodes` | buildproj/MyDiskInit/FileSystem/FileType/File.cs:109-115 | both inodes are stored, in this order, and nothing else is written |
| `Files.File.SearchFatherDir` | buildproj/MyDiskInit/FileSystem/FileType/File.cs:122-125 | the lookup, its results and its error code |
| `Files.File.CreateFile` | buildproj/MyDiskInit/FileSystem/FileType/File.cs:99-116 | creates if and only if the lookup allows it and no earlier lookup failed. Then the record is in its slot and no other byte of any file differs, the listings gained it (and what lay behind the end, if a slot was reused), only the two inodes changed, in fields that are known including the times, no block was lost unless the lookup lost one, and at most 3 blocks were used besides those of the lookup; otherwise every file reads as before, and a block is lost exactly if the lookup met an address 0, since its in-core inode is dropped. A name that is too long throws |
| `Storing.CreatedResolves` | buildproj/MyDiskInit/FileSystem/FileType/File.cs:99-187 | after it the path leads to the new inode, a second creation is refused, all paths lead where they led, and no other path begins to resolve if and only if no name surfaces |
| `Storing.MarkedIffDirectory` | buildproj/MyDiskInit/FileSystem/FileType/File.cs:169-177 | the number of a new file is in use on disk if and only if it is a directory |
| `Storing.DirectoryBits` | buildproj/MyDiskInit/FileSystem/FileType/DirFile.cs:28-32 | the mode of a new directory: allocated, directory by its format bits, read, write and execute permission for everybody |
| `Storing.TwoInodes` | buildproj/MyDiskInit/FileSystem/FileType/File.cs:109-115 | exactly the inodes of the file and of its parent change |
| `Storing.RootSurvivesIff` | buildproj/MyDiskInit/FileSystem/FileType/File.cs:109-115 | with number 0 for the new file the root inode keeps its entries if and only if the root is the parent, because the parent is stored last |
| `Files.File.CreateRoot` | buildproj/MyDiskInit/FileSystem/FileType/DirFile.cs:42-53 | fails if and only if no inode is free; otherwise the root inode is stored under the first number, without blocks and with all other fields known, and no block is lost if and only if the inode had none |
| `BuiltDisks.InitialisedIsReady` | buildproj/MyDiskInit/Run.cs:35-42 | a formatted disk is in order, all its inodes are empty, and number 0 comes first, whatever its boot block holds |
| `Setup.Run.constructor` | buildproj/MyDiskInit/Run.cs:24-32 | the components share one disk and one superblock |
| `Setup.Run.Format` | buildproj/MyDiskInit/Run.cs:39-40 | both initialisations after each other |
| `Setup.Run.Begin` | buildproj/MyDiskInit/Run.cs:35-50 | after building, the root directory exists, all other inodes and all data blocks are free, and every invariant holds, whatever the boot block holds |
| `BuiltDisks.FirstFile` | buildproj/MyDiskInit/Run.cs:48-67 | every proper name can then be created in the root directory |
| `BuiltDisks.PlainFileIsScanned` | buildproj/MyDiskInit/Run.cs:64-65 | a plain file /a: the path leads to its inode, and a scan for free inodes lists its number |
| `Growth.HealthyIsCreatable` | buildproj/MyDiskInit/Run.cs:48-65 | on a healthy volume every creation is in order, and its lookup needs no block and loses none |
| `Growth.HealthyStep` | buildproj/MyDiskInit/Run.cs:48-65 | after the creation of a directory the volume is healthy again, for one creation less, and the entry went to the end |
| `Growth.HealthyRefused` | buildproj/MyDiskInit/Run.cs:48-65 | after a refused creation it is healthy with the same listings |
| `Trees.StoryEnds` | buildproj/MyDiskInit/Run.cs:48-65 | after any number of creations each created path leads to the stored inode, all earlier paths lead where they led, and no other path leads anywhere |
| `Trees.AtUnique` | buildproj/MyDiskInit/FileSystem/FileType/File.cs:99-187 | in a tree different paths lead to different inodes |
| `Trees.TreeIs` | buildproj/MyDiskInit/Run.cs:48-65 | over every story that begins without entries the directories form a tree, and names lead somewhere if and only if they are those of a created path |
| `Trees.NextIff` | buildproj/MyDiskInit/Run.cs:48-65 | the next creation is allowed if and only if all names fit, the path repeats no earlier one, and its parent is the root or an earlier path |
| `Trees.OutcomeIs` | buildproj/MyDiskInit/FileSystem/Directory.cs:72-203 | every outcome of a lookup in a tree, with its numbers, in terms of where the names lead |
| `Trees.FoundIffMade` | buildproj/MyDiskInit/Run.cs:48-65 | a lookup finds a path if and only if it was created |
| `BuiltDisks.BuiltIsHealthy` | buildproj/MyDiskInit/Run.cs:48-65 | a disk as built is ready for as many creations as inodes are left, if there are three blocks for each |
| `BuiltDisks.MyDiskSuffices` | buildproj/MyDiskInit/Helper/MachinePara.cs:20-66 | the disk of `MachinePara` is valid: inodes from block 3 on, data from block 825 on up to 20160, 6576 inodes; it is large enough for any 6445 directories |
| `Setup.Run.CreateOne` | buildproj/MyDiskInit/Run.cs:51-62 | one directory: created if and only if the lookup allows it and no earlier one failed, and the volume stays healthy either way |
| `Setup.Run.CreateDirectories` | buildproj/MyDiskInit/Run.cs:48-62 | over every sequence of paths of proper names: every call is in order, the creations are those for the first paths, in order and each at the end of its directory, up to the first refusal, and no block is lost |
| `BuiltDisks.TreeIsExact` | buildproj/MyDiskInit/Run.cs:48-65 | after a sequence that began on a disk as built each path that was made leads to the inode stored for it, and a path leads to an inode if and only if it was made |
| `BuiltDisks.MadeIsAdmitted` | buildproj/MyDiskInit/Run.cs:48-65 | how many paths of a sequence are made depends on the paths only: up to the first with a name that is too long, that repeats an earlier one, or whose parent is missing |
| `BuiltDisks.CodeSticks` | buildproj/MyDiskInit/Helper/Error.cs:8-32 | after /x/y has been refused /a is not created, although the listings allow it |
| `Setup.Run.Construct` | buildproj/MyDiskInit/Run.cs:35-65 | from the formatted disk to the last directory: exactly the paths before the first one that cannot be made are made, the tree consists of exactly these, all invariants hold, every marked inode is a directory, and no block is lost |
| `Setup.Run.ConstructDirectoryStruct` | buildproj/MyDiskInit/Run.cs:48-66 | the program itself: a path leads to an inode if and only if it is /dev, /home, /usr, /etc or /home/test.txt; no error, no lost block; every marked inode is a directory, and the file is not marked |

## Left out

- Directories.Directory.NameI: the number of free blocks must cover the holes of the directories on the way, because a block number 0 after exhaustion makes the lookup read the boot block as a directory; characters above 255, for which the conversion to a byte throws, and directory entries that name inodes outside the table are excluded as well.
- Directories.Directory.LoadBlock: a hole that meets an exhausted free list, where the code reads the boot block, is excluded.
- Directories.Directory.ScanEntries: needs enough blocks for the holes of the directory, as `LoadBlock` does.
- Directories.Directory.Scan: needs enough blocks for the holes of the directory, as `LoadBlock` does.
- Directories.Directory.Round: needs enough blocks for the holes of the directories on the rest of the way.
- Files.File.SearchFatherDir: needs enough blocks for the holes of the directories on the way, and three more.
- Directories.Directory.Matches: a character above 255, for which the conversion to a byte throws, counts as a mismatch; lookups exclude it.
- Directories.Directory.BMap: logical blocks outside 0..33029, which throw on an array index, are excluded in the method and are steps without effect in `Runs`.
- DiskImage.Disk.WriteInt: positions past the end, where the host file would grow, are excluded; `BMap` shows that its writes stay inside.
- DiskImage.Disk.WriteShort: positions past the end, where the host file would grow, are excluded.
- DiskImage.Disk.WriteByte: positions past the end, where the host file would grow, are excluded.
- DiskImage.Disk.WriteBytes: positions past the end, where the host file would grow, are excluded.
- DiskImage.Disk.ReadInt: positions past the end are excluded; the short read that `BMap` can meet is `ReadOver`.
- DiskImage.Disk.ReadShort: positions past the end are excluded.
- DiskImage.Disk.ReadBytes: reads past the end, which the host cuts short, are excluded.
- InodeBlocks.InodeBlock.GetInodeFromDisk: numbers outside the table, for which the code reads whatever lies there, are excluded.
- InodeBlocks.InodeBlock.UpdateInodeToDisk: numbers outside the table, for which the code writes over other areas, are excluded.
- Files.File.WriteStream: writes that cross a block boundary are excluded, since the code would write into the physically next block; directory entries never do. So are positions whose block cannot be mapped for lack of blocks.
- Files.File.CreateFile: requires a free inode that is empty, a parent in use whose size is a multiple of 32, three spare blocks, and room in the directory; `AssignedIffFree` and `RootSurvivesIff` say what happens without a free inode. Errors outside these conditions are not modelled further.
- Files.File.CreateRoot: the static flag that allows one root per program is not modelled.
- Setup.Run.CreateDirectories: the paths consist of single-byte characters and of names that are not empty and do not begin with the character 0. The path "/" would create an entry without a name, which counts as free. The directories and the blocks have to suffice for the whole sequence.
- BuiltDisks.InitialisedIsReady: fewer than 100 inodes are excluded, since the cache is then not sound.
- BuiltDisks.FirstFile: fewer than three data blocks are excluded, as `CreateFile` needs three to spare.
- Setup.Run.CreateOne: requires a healthy volume, as a formatted disk and creations leave it: no holes in directories and no free entries. `CreateFile` covers the others.
- Setup.Run.Begin: fewer than 100 inodes are excluded, since the cache is then not sound (`InitInodeManager`).
- FreeList.AllocRun: `_s_nfree` is an unbounded integer in core, so its wrap-around after two thousand million failed requests is not modelled; on disk it is a wrapped 32-bit word.
- Long methods of the source are split into several methods here, one loop or one block of statements each; opening and closing the file stream around each access, and the translation of its exceptions to return values, are left out except for failed seeks and short reads.
- Host I/O: creating the image file, copying the boot block (any content of it is allowed), `WriteWholeDir`, `CommonFile` with its file contents, `DevFile`, and console messages. The clock is a parameter.
- XML configuration reading and the second copy of the sources under `buildproj/buildproj`; the geometry is a parameter instead.
- `TestMyFileSystem/MyBuf.cs` and `v6++proj/testMyFileSystem/File.cpp`, which hold stubs and constructors.
- The padding of the superblock is not read back by `ReadSuperBlock`, so the mirror says nothing about it.
