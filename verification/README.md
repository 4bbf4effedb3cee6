# A verified model of the CP/M file system tools

cpmtools reads and writes CP/M disk images. Its engine, `src/cpmfs.c`, keeps a directory of 32-byte
entries ("extents") with 8- or 16-bit block pointers, an allocation bitmap rebuilt from the directory, and
a skew table that spreads blocks over sectors of an image file. This project models that engine, the
checker, the formatter, the copy program, and the argument scanner behind them, and proves what they keep
and what they compute.

`dafny verify dfyconfig.toml` checks everything.

## How it is built

The engine is there three times, and the three are tied together.

- *The code as it runs.* Class `FileSystem.SuperBlock` holds the directory, the bitmap and the skew table as
  arrays and the image as a `Device`; its methods are the loops of `cpmfs.c`, down to sector reads and
  writes. `SuperBlock.Vol()` is the volume an object stands for, computed from the bytes of the image. Every
  method says exactly how `Vol()` changes.
- *The volume as a value.* Module `Volume` gives each call as a function on directory, bitmap and block
  contents. The lemmas about single calls and whole runs are about these functions. The local 16 KiB buffer
  of `cpmWrite` is not initialised in C; here it is an argument, and what is proved holds for every content.
  `Volume` leaves the time stamps of P2DOS and CP/M 3 out. Module `Stamps` has the calls with their stamps, which
  is what the class and the runs do, and shows that stamps are all that sets the two apart.
- *The map of files.* `Refinement.Contents` and `Refinement.Sized` say that a volume stands for a map from
  (user, name, extension) to bytes. `Runs.Holds` is the invariant and the bytes, and leaves open where in its last
  block a file ends; `Runs.Refines` adds the sizes.

| module | about |
|---|---|
| `Arithmetic`, `Wrappers` | division facts, an option type |
| `Geometry`, `Directory`, `Volume` | positions, entries, and the calls as functions |
| `Invariant`, `Refinement`, `Runs` | what every call keeps, the map of files, whole runs |
| `ReadBack`, `Allocation`, `Outcomes` | what every position of every file reads after a write, which entries and blocks it takes, what calls answer |
| `Overwrites` | writes in front of the end of a file, and exactly when they damage what is behind them |
| `Stamps` | which time stamps a call sets, and that nothing else depends on them |
| `Xfcbs` | renames and unlinks that take the XFCB of a file along |
| `Sizes` | what size is reported after writes of any kind, and when it is the true one |
| `Room` | how much an append stores before space runs out |
| `Persistence`, `CommitPoint`, `Dirty` | sync, remount, and what a crash before a sync leaves |
| `Space` | free and used blocks |
| `Skew`, `Blocks` | the skew table, sectors and addresses |
| `Names`, `Listing`, `Glob` | file names, directory enumeration, wildcards |
| `FileSystem` | the mounted file system as a class |
| `Fsck`, `FsckClean`, `Miscount` | the checker, and exactly which reachable volumes pass it |
| `Accepted` | what a directory that passes it is to the engine |
| `Mkfs` | the formatter and the initial volume |
| `Calendar` | time stamps |
| `Text`, `Cpmcp` | text translation and the copy program |
| `Getopt`, `CommandLine` | in-place exchange, the scan of options, and what it reads out of a command line |

## What the geometry must satisfy

`Geometry.ValidGeometry` collects what the code relies on: a block size from 1 to 16 KiB that is a multiple
of the sector size, at least one logical extent per entry and no more than the pointers of an entry can cover,
a directory that fits its blocks, at most 65536 blocks, all inside the tracks. `fsck` in addition needs a
number of logical extents that is a power of two up to 16 (`Geometry.ValidExtents`). Files stay below
2048 * 16 KiB, what an extent number can express (`Runs.Legal`).

The engine is modelled for formats without MP/M time stamps (`Geometry.NoMpmDates`, part of `Invariant.Consistent`),
which go where other entries have block pointers. Where stamp entries are possible, the number of directory entries
is a multiple of four (`Directory.StampsFit`). On CP/M 3 the engine treats an XFCB as a file of the same name with the
user number plus 16, and so does the map of files; what is said about renames and unlinks asks that it is a single
entry, and that it can follow its file (`Xfcbs.XfcbAlone`, `Xfcbs.XfcbMoves`, part of `Runs.Legal`).

## Where the code does something unexpected

- The bytes of an append are always right, but not always its size: `cpmWrite` computes the extent number once
  per directory entry. `Sizes.SizeAfterWrite` gives the reported size after any write that stored something, complete
  or cut short, and the exact condition under which it is the end of the write; `Sizes.CrossingLosesSize` is a
  concrete case. A later call repairs the size, so for a file written in several calls only the last one that wrote
  anything matters (`Sizes.CopySize`, `Sizes.CopyRoundTrip`). The binary copy of `cpmcp` keeps the size
  (`Cpmcp.BinaryChunksFit`). The text copy keeps it for most texts: `Cpmcp.TextCopyRoundTrip` has the exact
  condition, `Cpmcp.TextCopyLosesSize` a text of 16383 bytes that ends up with a listed size of 1 on formats
  with two or more logical extents per entry.
- `fsck` counts the blocks of the logical extent such an entry names, and compares them with a record count for
  another one. A file that was stored completely may then be one it asks to remove: 16385 bytes written at once
  (`Miscount.CrossingIsMisjudged`), or the text above (`Cpmcp.TextCopyMisjudged`). On formats whose pointers split
  evenly it accepts a copy if and only if the last call kept the size or the last 16 KiB piece needs all its blocks
  (`Miscount.CopyIsSound`, `Cpmcp.TextCopyIsSound`).
- A write in front of the end of a file makes the file end where the write ended, if that is in the file's last
  extent, because record and byte count are rewritten from the position. Ten bytes written to the start of a
  file of 1000 leave a listed size of 10 (`Sizes.TenBytesOverwritten`).
- Such a write may also damage bytes behind it. A write that starts on a sector boundary and ends inside that
  same sector does not fetch the sector, and writes back what the buffer held: nothing in particular, or bytes of the
  block written before. `Overwrites.WriteKeepsTail` has the exact condition on position, data and file under which
  the write is right whatever the buffer held, `Overwrites.WriteExact` the one for a given buffer. Inside one block it
  goes wrong exactly if the sector is not fetched (`Overwrites.FetchedTail`, `Volume.StoreKeepsRest`).
- A `cpmWrite` that makes a directory entry and then finds no free block changes the directory without
  setting `dirtyDirectory`, unless the entry is stamped. `Dirty.StepInStep` shows that this, and nothing else, lets
  the directory in core and the one on the image drift apart unnoticed; `Dirty.RunThenSync` says exactly which runs
  end that way.
- On CP/M 3 a file renamed to the same name with the user number plus 16 is taken for its own XFCB in the same call:
  its first entry ends up with a status that belongs to no file (`Xfcbs.RenamedOntoXfcb`).
- The text copy to Unix drops the character behind a CR that is followed by neither LF nor CR, and a CR at
  the end of the file. `Text.TextRoundTrip` says exactly which texts survive.
- `recmatch` accepts any rest of a name when a `*` that starts the pattern or follows another `*` meets a
  dot. `Glob.RecIsMeans` describes what is accepted in full; `Glob.DoubleStarGoesWrong` is an example.
- `cpmReaddir` reports an inode number one above the index of the entry (`Listing.ListedNameResolves`).
- Day count 0 is 31 December 1977 for the file system and 1 January 1978 for the editor
  (`Calendar.BothDates`).
- `mkfs.cpm` ignores the `offset` of a format, and does not truncate an existing image. A new image mounts with
  a fresh directory if and only if `mkfs` wrote every address a mount reads (`Mkfs.FreshExactly`). It always
  does without an offset. For the listed format `xerox820` it writes 3328 bytes and the offset is 5888, and
  then no entry of the mounted volume is free (`Mkfs.OffsetHidesDirectory`, `Mkfs.XeroxIsHidden`).
- `fsck` divides the pointers of an entry evenly among its logical extents, the engine fills them from the
  start. If the format has more than one logical extent per entry, but fewer than the pointers could cover,
  `fsck` asks to remove every file longer than 16 KiB and no other, as long as sizes are recorded right
  (`FsckClean.SizedFileIsSound`); `FsckClean.UnevenEntryUnsound` is such an entry.

- `fsck` asks to clear the entries of users 16 to 31 on CP/M 2.2, where the engine creates and reads such files
  (`Accepted.HighUserRejected`).
- `fsck` takes two entries for duplicates if they carry the same extent number, the engine if they describe the same
  place. On formats with two or more logical extents per entry `fsck` accepts entries 0 and 1 of a file, of which the
  engine only ever finds the first (`Accepted.TwinsPass`). Otherwise a directory it accepts is one the engine can rely
  on, and the other way round (`Accepted.AcceptedIsConsistent`).

## Model

| member | source | states |
|---|---|---|
| Geometry.ListedFormatsAreValid | diskdefs:1-197 | the listed formats ibm-3740 and epsqx10, with the sizes derived for them, meet every demand made on a geometry |
| Geometry.PositionSplits | src/cpmfs.c:1838-1841 | extent, slot and offset that read and write compute from a position together are that position |
| Geometry.PositionOf | src/cpmfs.c:1956-1985 | any choice of extent, slot inside it and offset is the triple of exactly one position |
| Geometry.SameBlock | src/cpmfs.c:2035-2049 | up to the end of a block only the offset moves; extent and slot stay |
| Geometry.PhysicalOfLogical | src/cpmfs.c:467-470 | the extent number divided by the logical extents per entry is the physical extent of the position |
| Directory.ExtentNumberRoundTrip | src/cpmdir.h:16-18 | extent numbers below 2048 survive being split over two fields |
| Directory.SetPtrFacts | src/cpmfs.c:1990-1994 | a stored pointer reads back in one- and two-byte form, and no other pointer of the entry changes |
| Directory.FindFileExtent | src/cpmfs.c:460-476 | the first matching entry from the start on, or -1 exactly if there is none |
| Directory.FindFreeExtent | src/cpmfs.c:481-491 | the first unused entry, or -1 exactly if there is none |
| Volume.AllocBlock | src/cpmfs.c:341-364 | the smallest free block of the volume, or -1 exactly if all blocks below the volume size are taken |
| Volume.StoreKeepsPrefix | src/cpmfs.c:2011-2018 | whatever the uninitialised buffer held, a stored range arrives in its block and the bytes before it stay |
| Volume.StoreKeepsRest | src/cpmfs.c:2006-2049 | a store into an existing block keeps every byte behind it, for every buffer content, if and only if it does not start on a sector boundary and end inside that sector |
| Volume.StoreClearsNew | src/cpmfs.c:2000-2049 | a store into a new block leaves zeros in all of it but the stored range, whatever the buffer held |
| Volume.LastPointer | src/cpmfs.c:2051-2066 | the highest slot in use, 0 if none above slot 0 is |
| Volume.WithEndFacts | src/cpmfs.c:2067-2076 | describing a new end leaves file, status and pointers of an entry alone and stores the extent number |
| Volume.EndFields | src/cpmfs.c:2067-2076 | the fields written are the records that the last 16 KiB piece needs and how far the last record is filled, or in the other encoding falls short of being filled; a full one counts as 0 |
| Volume.HighestEntry | src/cpmfs.c:1443-1456 | the first entry with the largest extent number of a file, or -1 exactly if there is no entry |
| Volume.LowestEntry | src/cpmfs.c:1443-1459 | the first entry with the smallest extent number of a file, or -1 exactly if there is no entry |
| Invariant.AttachBlock | src/cpmfs.c:1985-1994 | pointing an empty slot at a free block marks exactly that block and shares nothing |
| Invariant.WritePassConsistent | src/cpmfs.c:1949-2085 | one round of the write loop keeps the invariant, even if it runs out of entries or blocks half way |
| Invariant.WriteConsistent | src/cpmfs.c:1937-2087 | any write, complete or not, keeps bitmap agreement, pointer range, no sharing and one entry per extent |
| Invariant.CreatConsistent | src/cpmfs.c:2099-2132 | creating a file keeps the invariant |
| Invariant.RenameConsistent | src/cpmfs.c:1647-1661 | renaming the entries of a file keeps the invariant |
| Invariant.RenamedEntries | src/cpmfs.c:1655-1661 | a rename turns the entries of one file into entries of the other and changes no pointer or extent number |
| Invariant.UnlinkConsistent | src/cpmfs.c:1605-1621 | freeing the entries of a file and rebuilding the bitmap keeps the invariant |
| Refinement.FileIsFound | src/cpmfs.c:460-476 | a name is in the map of files exactly if the directory scan finds it |
| Refinement.CreatContents | src/cpmfs.c:2099-2132 | a created file was not there before, is empty, and no other file changes |
| Refinement.WriteContents | src/cpmfs.c:1937-2087 | a write that reaches the end of its file or stops for want of space puts exactly the stored prefix there and changes no other byte of any file, whatever the buffer held |
| Refinement.WriteEnded | src/cpmfs.c:2051-2076 | every append keeps record and byte counts right in all entries, and the extent numbers as well if it crosses no logical extent inside an entry |
| Refinement.SameLogicalExtent | src/cpmfs.c:1950-1951 | a write inside one 16 KiB piece crosses none |
| Refinement.SingleLogicalExtent | src/cpmfs.c:1950-1951 | with one logical extent per entry no write crosses any |
| Refinement.NameiSize | src/cpmfs.c:1443-1486 | the size computed from extent number, record count and byte count is the length of the file whenever its entries describe its end, in both encodings |
| Refinement.ReadReturnsContents | src/cpmfs.c:1832-1932 | a read at any position for any count returns those bytes of the file up to its end, and nothing from behind it |
| Refinement.RenameContents | src/cpmfs.c:1647-1661 | renaming the entries of a file moves its bytes to the new name, which did not exist, and changes no other file |
| Refinement.RenameEnded | src/cpmfs.c:1655-1661 | and it keeps what is recorded about the end of every file |
| Refinement.RenameKeepsAttributes | src/cpmfs.c:74-80 | renamed entries keep attribute bits, extent number, counts and pointers; other entries are untouched |
| Refinement.UnlinkContents | src/cpmfs.c:1605-1621 | freeing the entries of a file removes it from the map and leaves bytes and recorded ends of all others |
| ReadBack.WriteReads | src/cpmfs.c:1832-2087 | after a write of any data at any position, complete or not, every position of every file reads what was stored there, and otherwise what it read before, holes as 0; the only exception is the rest of the sector the last stored byte shares with bytes behind it, if that was not fetched |
| ReadBack.NewBlocksAreClean | src/cpmfs.c:2000-2049 | after a write into a file without blocks, every byte on the volume of every block the file then has is a byte stored or 0, whatever the buffer held |
| ReadBack.HoleBefore | src/cpmfs.c:1832-1932 | a position without a block reads as 0 |
| Allocation.WriteTakes | src/cpmfs.c:1958-1994 | a write takes the first unused entries and the lowest free blocks; an entry it takes carries the attributes of the file on, one it had keeps its name and attributes, and all others stay as they were |
| Outcomes.CreatOutcome | src/cpmfs.c:2099-2157 | a create fails exactly if the file is there or, otherwise, no entry is free; else the first free entry holds user, name, extension and 20 zero bytes, and only stamps change besides |
| Outcomes.RenameOutcome | src/cpmfs.c:1628-1672 | a rename fails exactly if the old file is not there or, otherwise, the new one is; else it marks the directory as changed and touches neither bitmap nor blocks |
| Outcomes.UnlinkOutcome | src/cpmfs.c:1591-1623 | an unlink fails exactly if the file is not there; else the entries of the file and its XFCB lose their status and nothing else, and no block is written |
| Xfcbs.RenameIsTwo | src/cpmfs.c:1655-1670 | a rename that takes an XFCB along does what two renames do, one of the file and one of the XFCB |
| Xfcbs.UnlinkIsTwo | src/cpmfs.c:1611-1621 | the same of an unlink |
| Xfcbs.RenameAllConsistent | src/cpmfs.c:1628-1672 | a rename, XFCB included, keeps the invariant |
| Xfcbs.UnlinkAllConsistent | src/cpmfs.c:1591-1623 | and so does an unlink |
| Xfcbs.RenameAllContents | src/cpmfs.c:1628-1672 | a successful rename moves bytes and recorded end of the file, and its XFCB, to the new name, and changes no other file |
| Xfcbs.UnlinkAllContents | src/cpmfs.c:1591-1623 | a successful unlink removes the file and its XFCB from the map and leaves bytes and recorded ends of all others |
| Xfcbs.RenamedOntoXfcb | src/cpmfs.c:1655-1670 | a file renamed to where its own XFCB would be loses its first entry |
| Overwrites.WriteStores | src/cpmfs.c:1937-2087 | a write at any position up to the end of a file puts exactly the stored prefix there and changes no other byte of any file, wherever it stops, if it reaches the old end, stops for want of space, or takes what it puts behind itself from the file |
| Overwrites.WriteExact | src/cpmfs.c:2006-2049 | for a given content of the buffer, a write in front of the end completes, and changes no other byte if and only if each byte it puts behind itself is the one the file has there |
| Overwrites.WriteKeepsTail | src/cpmfs.c:2006-2049 | it does so for every content of the buffer if and only if each of these bytes comes from the file and is the right one, a condition on position, data and file |
| Overwrites.FetchedTail | src/cpmfs.c:2011-2030 | which holds if the sector it ends in is fetched or covered, and inside one block in no other case |
| Stamps.TouchReadsBack | src/cpmfs.c:517-606 | stored times read back, those of all other entries stay, and only the one stamp entry changes |
| Stamps.TimesPlaced | src/cpmfs.c:528-545 | an entry has times exactly if the format has such stamps and the last entry of its group of four is a stamp entry, and in which fields of that they are for the first, second and third entry of the group |
| Stamps.TouchKeepsBytes | src/cpmfs.c:517-545 | every other byte of the stamp entry stays, the protection modes included |
| Stamps.UtimeReadsBack | src/cpmfs.c:2244-2251 | times set through the inode a lookup finds are read by the next one; times and entries of all other files, and what else is known of this one, stay |
| Stamps.CreatAlike | src/cpmfs.c:2099-2156 | with its stamps a create succeeds or fails as without, and changes nothing else on the volume |
| Stamps.CreatTimes | src/cpmfs.c:2140-2157 | a lookup after a create finds the new entry, empty, and reads the times of the call if that entry has a stamp entry, whatever it held before, and none otherwise; the times of all other files stay |
| Stamps.WriteAlike | src/cpmfs.c:1937-2087 | a write stores the same bytes in the same blocks whatever stamp entries hold, and its own stamps change nothing else |
| Stamps.WriteTimes | src/cpmfs.c:1969-2077 | a write stamps no other file; every entry through which it stored a byte reads the times after storing back; an entry it took into use reads those, or the times before if nothing could be stored through it |
| Stamps.ShowsAlike | src/cpmfs.c:1403-1932 | a file is found with the same inode number and size and read with the same bytes whatever stamp entries hold |
| Runs.StepConsistent | src/cpmfs.c:1591-2251 | every call keeps the invariant, failing calls included, on volumes with stamps and without |
| Runs.RunConsistent | src/cpmfs.c:1591-2251 | so does every run of calls |
| Runs.StepHolds | src/cpmfs.c:1591-2158 | a call does to the bytes on the volume what its meaning does to the map of files; writes may be appends or overwrites, cross any boundary and stop anywhere |
| Runs.StepEnded | src/cpmfs.c:1591-2158 | any append, and every other call but an overwrite, keeps the recorded record and byte counts right |
| Runs.RunHolds | src/cpmfs.c:1591-2158 | so does every run of creates, writes, renames, unlinks, syncs and stamp updates |
| Runs.StepRefines | src/cpmfs.c:1591-2158 | an append that crosses no 16 KiB boundary inside an entry, and every other call but an overwrite, also keeps all sizes right |
| Runs.RunRefines | src/cpmfs.c:1591-2158 | so does every run of them |
| Runs.RefinementShows | src/cpmfs.c:1403-1490 | lookups and reads show exactly the files of the map, with their sizes and bytes |
| Runs.RefinesAlike | src/cpmfs.c:517-551 | a volume stands for the same map of files whatever stamp entries hold |
| Runs.CopyAppends | src/cpmfs.c:1937-2087 | consecutive complete writes append the concatenation of their data, wherever they are cut |
| Runs.CopyIntoNew | src/cpmfs.c:1937-2158 | create, then complete writes: the name holds and reads back exactly the bytes, in any chunks, and all other files are as before |
| Runs.StepKeepsOthers | src/cpmfs.c:1591-2251 | no call makes or changes an entry that is neither a file's nor for stamps |
| Runs.ShortWriteMeansFull | src/cpmfs.c:1958-1989 | a write stores less than asked only if no block below the size or no directory entry is left |
| Room.AppendStores | src/cpmfs.c:1937-2087 | an append stores exactly the longest part of its data for which the free blocks and entries reported by `cpmStatFS` are enough, and fails exactly if that is not all |
| Room.AppendCompletes | src/cpmfs.c:1937-2087 | on a volume that stands for a map of files, an append completes if and only if there is room for all of it |
| Sizes.SizeAfterWrite | src/cpmfs.c:2066-2076 | after any write that stored something, complete or cut short, the reported size is the end of the write if that lies in the file's last extent, short by the 16 KiB pieces between where the write entered that extent and where it ended, unless the write stopped right after it had made an entry for the next extent; otherwise the size is as before |
| Sizes.CrossingLosesSize | src/cpmfs.c:1950-2070 | 16385 bytes written at once into an empty file are listed with a size of 1 if an entry holds two logical extents |
| Sizes.TenBytesOverwritten | src/cpmfs.c:2011-2076 | ten bytes written to the start of a file of 1000 leave a size of 10, and may damage the bytes behind them if sectors are longer than ten bytes |
| Sizes.CopySize | src/cpmfs.c:2066-2076 | of several consecutive calls the last one that wrote anything decides about the size |
| Sizes.CopyRoundTrip | src/cpmfs.c:1443-2087 | create, then complete writes in any chunks: the bytes are right, the reported size is known, and lookups and reads show the new map of files if and only if the last call kept the size |
| Persistence.EntryRoundTrip | src/cpmdir.h:4-13 | an entry packed into its 32 bytes unpacks to itself |
| Persistence.BytesRoundTrip | src/cpmdir.h:4-13 | and 32 bytes unpacked pack to themselves |
| Persistence.EntryLayout | src/cpmdir.h:4-13 | which field each of the 32 bytes is |
| Persistence.PointerLayout | src/cpmfs.c:316-336 | block pointers are sixteen bytes, or eight pairs with the low byte first on volumes of more than 256 blocks |
| Persistence.SyncStores | src/cpmfs.c:1362-1380 | a sync of a changed directory stores byte j of entry i as byte number 32*i+j of the blocks, and writes no block behind the directory; otherwise it writes nothing |
| Persistence.MountReads | src/cpmfs.c:1180-1211 | a mount of any image takes the entries from there and the bitmap from what they point to |
| Persistence.MountAfterSync | src/cpmfs.c:1362-1375 | a mount after a sync of a changed directory finds the same entries and the same bitmap |
| Persistence.SyncRefines | src/cpmfs.c:1362-1375 | a sync disturbs no file |
| CommitPoint.StepGrows | src/cpmfs.c:1937-2158 | a create, append or rename writes no directory block, frees no block and moves no stored byte |
| CommitPoint.MountBeforeSync | src/cpmfs.c:1180-1211 | an image whose directory blocks are unchanged mounts with the old directory |
| CommitPoint.CommitPoint | src/cpmfs.c:1362-1375 | after a sync and any creates, appends and renames, across any boundaries, the image still mounts as the synced directory with every file of it intact |
| CommitPoint.CommitPointWithUnlinks | src/cpmfs.c:1362-1375 | the same with unlinks in between, as long as no block they freed is handed out again |
| Dirty.WriteInStep | src/cpmfs.c:1958-1989 | a write keeps the dirty flag truthful if and only if it does not make an entry without stamps and then find no block before storing anything |
| Dirty.StepInStep | src/cpmfs.c:1362-1375 | and no other call ever loses track |
| Dirty.RunThenSync | src/cpmfs.c:1362-1375 | a sync after any run makes a mount find exactly the volume in core if and only if each such write was followed by a call that sets the flag |
| Space.UsedIsPointers | src/cpmfs.c:1550-1577 | used blocks are as many as the nonzero pointers of files, and free, used and directory blocks add up to the volume |
| Space.FreeEntries | src/cpmfs.c:1578-1586 | the free files reported are as many as there are unused entries |
| Space.UnlinkFrees | src/cpmfs.c:1605-1621 | an unlink frees exactly as many blocks as its file, and what is taken for its XFCB, had pointers |
| Skew.SkewEntriesDistinct | src/cpmfs.c:1156-1178 | no two entries of the closed form name one sector |
| Skew.NextCandidate | src/cpmfs.c:1164-1176 | walking on by the skew yields the next entry, or one taken a round ago whose successor is the next entry |
| Skew.NextFreeSector | src/cpmfs.c:1165-1174 | the search for an untaken sector ends at the entry the closed form predicts |
| Skew.BuildSkewTable | src/cpmfs.c:1156-1178 | for every sector count and skew the table is built, has the closed form, and is a permutation |
| Skew.ListedTable | diskdefs:1966-1967 | the closed form for skew 6 and 26 sectors is the table listed there |
| Blocks.Device.ReadSector | src/device_posix.c:45-67 | a sector of the image, zeros behind the end of the file |
| Blocks.Device.WriteSector | src/device_posix.c:72-84 | replaces one byte range of the image and nothing else |
| Blocks.StartFormulasAgree | src/cpmfs.c:388-434 | the two formulas for the first sector of a block name the same track and sector |
| Blocks.SectorsDisjoint | src/device_posix.c:45-84 | different data sectors are disjoint byte ranges |
| Blocks.AddressInjective | src/cpmfs.c:371-453 | different bytes of blocks have different addresses in the image |
| Blocks.AddressByNumber | src/cpmfs.c:371-453 | the bytes of the blocks, numbered through, fill track after track behind the offset and the boot tracks, sector by sector in the order of the skew table |
| Blocks.PlainAddress | src/cpmfs.c:371-453 | without skew, blocks lie one after the other behind offset and boot tracks |
| Blocks.AddressInTracks | src/cpmfs.c:371-453 | every block lies behind the boot tracks and inside the configured tracks |
| Blocks.ReadBlock | src/cpmfs.c:371-414 | fills exactly the wanted sectors of the buffer from the addresses of the block; fails exactly behind the end of the volume |
| Blocks.WriteBlock | src/cpmfs.c:419-453 | changes exactly the addresses of the wanted sectors |
| Blocks.WroteBlockOnDisk | src/cpmfs.c:371-453 | a write of sectors of one block is read back, and no other block changes |
| Blocks.WriteStaysInTracks | src/cpmfs.c:419-453 | boot tracks and everything outside the tracks stay as they were |
| Names.ParseFilename | src/cpmfs.c:87-131 | the loops over base name and extension accept and produce what `Names.SplitExactly` says |
| Names.SplitExactly | src/cpmfs.c:87-131 | a name of any length is accepted if and only if it starts with two digits for a user below the limit, something follows that is not a lone dot, and the first eight characters of the base name and the first three behind a dot that ends it there are file characters; these, in capitals and padded, are the key, and the rest is ignored |
| Names.FileCharacters | src/cpmdir.h:15-15 | which bytes are file characters |
| Names.SplitIsValid | src/cpmfs.c:87-131 | accepted names are padded 7-bit keys that `fsck` accepts unless the base name is blank |
| Names.PrintedNameParses | src/cpmfs.c:1762-1785 | the printed form of a legal name parses to that name, in either case mode |
| Names.PrintedLayout | src/cpmfs.c:1762-1788 | two digits, the base name up to its first blank, and a dot with the extension up to its first blank unless that is empty; letters are turned into small ones unless capitals were asked for |
| Listing.FindFirst | src/cpmfs.c:1748-1761 | an entry is taken for the first of its file exactly if none of the file has a smaller extent number |
| Listing.PrintEntry | src/cpmfs.c:1763-1785 | the text put together for an entry is the printed name of its file |
| Listing.Readdir | src/cpmfs.c:1741-1795 | one call goes to the next listed entry, or to the end |
| Listing.ListAll | src/cpmfs.c:716-735 | reading the directory to its end yields `.`, `..` and every listed entry in order |
| Listing.EnumerationIsComplete | src/cpmfs.c:1741-1795 | the enumeration is strictly ascending and has exactly the listed entries |
| Listing.ListedOnce | src/cpmfs.c:1741-1795 | an entry is listed if and only if it is the one a lookup of its file resolves to |
| Listing.EachFileOnce | src/cpmfs.c:1741-1795 | every file is listed exactly once, at the entry a lookup resolves it to |
| Listing.ListedNameResolves | src/cpmfs.c:1691-1796 | a listed legal name parses and resolves to the entry it came from; the inode number beside it is one more |
| Glob.RecMatch | src/cpmfs.c:647-686 | terminates and computes the recursive definition |
| Glob.MeansConcat | src/cpmfs.c:647-686 | what a pattern means: two in a row mean a string of the first followed by one of the second |
| Glob.MeansOne | src/cpmfs.c:647-686 | and one character of it stands for anything, for any one character, or for itself in either case |
| Glob.RecIsMeans | src/cpmfs.c:647-686 | a name is accepted if and only if the pattern means it or a bare `*` meets a dot |
| Glob.RecIsExact | src/cpmfs.c:655-657 | without a bare `*`, matching is exactly the declarative relation |
| Glob.Match | src/cpmfs.c:688-710 | a pattern without two stars in a row accepts exactly the names it selects |
| Glob.OneDigitUser | src/cpmfs.c:696-707 | for a digit u and a pattern p without adjacent stars, `u:p` accepts a name if and only if it starts with `0` and u and p means the rest |
| Glob.TwoDigitUser | src/cpmfs.c:699-707 | the same for two digits |
| Glob.NoUser | src/cpmfs.c:701-705 | without a user number, any two characters may stand in front of what the pattern means |
| Glob.MatchSplits | src/cpmfs.c:703-709 | for any pattern, adjacent stars or not: the two characters of the user are matched on their own, and the rest is no longer the start |
| Glob.MatchIsExact | src/cpmfs.c:688-710 | which are those of the user it names, or of any user if it names none, whose rest it means |
| Glob.DoubleStarGoesWrong | src/cpmfs.c:655-657 | `**q` accepts `00a.b` |
| Glob.Cpmglob | src/cpmfs.c:736-751 | pattern by pattern, the listed names that match |
| Glob.ExpansionIsExact | src/cpmfs.c:736-751 | the expansion of one pattern is the listed names it accepts, in the order of the listing, each as often as it is listed |
| Glob.ExpansionsAreExact | src/cpmfs.c:736-751 | every pair of a pattern and a listed name it accepts gives one argument, ordered by pattern and then by the listing, and there are no others |
| FileSystem.SuperBlock.Mount | src/cpmfs.c:1180-1212 | a mount yields the directory of the first blocks and the bitmap that follows from it |
| FileSystem.SuperBlock.IsMatching | src/cpmfs.c:136-158 | user numbers are equal and names agree in their low seven bits |
| FileSystem.SuperBlock.FindFileExtent | src/cpmfs.c:460-476 | the scan computes the specified entry |
| FileSystem.SuperBlock.AlvInit | src/cpmfs.c:296-336 | the rebuilt bitmap is the one the directory implies |
| FileSystem.SuperBlock.AllocBlock | src/cpmfs.c:341-364 | word by word, the first free block, and its bit set |
| FileSystem.SuperBlock.UpdateTimeStamps | src/cpmfs.c:517-551 | the fields it stores times in are the eight bytes reserved for the entry, in the three layouts |
| FileSystem.SuperBlock.ReadTimeStamps | src/cpmfs.c:582-606 | and those it reads them from |
| FileSystem.SuperBlock.Creat | src/cpmfs.c:2099-2157 | the call does to volume, stamps and inode what `Outcomes.CreatOutcome` and `Stamps.CreatTimes` are about, and refuses illegal names |
| FileSystem.SuperBlock.Rename | src/cpmfs.c:1628-1672 | the same for a rename |
| FileSystem.SuperBlock.RenameEntries | src/cpmfs.c:1655-1661 | the walk that stops matching what it renamed still reaches every entry of the file |
| FileSystem.SuperBlock.Unlink | src/cpmfs.c:1591-1623 | the same for an unlink |
| FileSystem.SuperBlock.Namei | src/cpmfs.c:1440-1486 | inode number and size of a file, or not found |
| FileSystem.SuperBlock.StatFS | src/cpmfs.c:1550-1586 | free, used and file entry counts are those of bitmap and directory |
| FileSystem.SuperBlock.Sync | src/cpmfs.c:1362-1375 | the directory blocks of the image become the directory, if it was changed |
| FileSystem.SuperBlock.LoadBuffer | src/cpmfs.c:1996-2030 | clears the whole block for a new one (`Volume.StoreClearsNew`), fetches the partly overwritten sectors of an old one (`Volume.StoreKeepsRest`) |
| FileSystem.SuperBlock.FindLast | src/cpmfs.c:2051-2065 | both loops find the last pointer in use |
| FileSystem.SuperBlock.WriteRound | src/cpmfs.c:1949-2085 | one round of the write loop does what the specification says to directory, stamps, bitmap, image and buffer |
| FileSystem.SuperBlock.Write | src/cpmfs.c:1937-2087 | position and size advance by the bytes stored, the result is that number or -1 if nothing was stored, and the volume changes as specified |
| FileSystem.SuperBlock.Read | src/cpmfs.c:1832-1932 | delivers the bytes of the file up to count, end of file or the first block behind the volume; position advances by as many |
| Volume.NeverBad | src/cpmfs.c:1832-1932 | on a volume without stray pointers no read is cut short |
| Fsck.CheckSpace | src/fsck.cpm.c:228-302 | byte count, block pointers and record count: silent exactly if all three are sound; the byte count is cleared, the entry removed, or a defect left, exactly as the answers to the questions asked say |
| Fsck.PwdCheck | src/fsck.cpm.c:52-76 | accepts exactly the passwords that decode to printable 7-bit text |
| Fsck.RewrittenPassword | src/fsck.cpm.c:15-32 | the password written as a repair decodes to `GEHEIM` and is accepted; its key is the sum of its characters |
| Fsck.CheckEntry | src/fsck.cpm.c:154-475 | an entry of any kind is reported exactly if it is not sound; it is removed, or its byte count cleared, one date flag of a label dropped, its password replaced, exactly if the question about it is asked and answered yes; every other bit stays; broken exactly if a defect is declined |
| Fsck.CheckLabel | src/fsck.cpm.c:357-402 | of the flag byte of a label all bits stay but one of the two date flags, the one chosen when both are set on CP/M 3 |
| Fsck.Phase1 | src/fsck.cpm.c:152-475 | silent exactly on sound directories; every entry is repaired as agreed and not otherwise, and broken means that some defect was declined |
| Fsck.RepairTwice | src/fsck.cpm.c:152-475 | after a pass answered yes throughout, a second pass finds and changes nothing |
| Fsck.CheckSharing | src/fsck.cpm.c:479-508 | broken exactly if two slots of files share a nonzero block |
| Fsck.CheckDuplicates | src/fsck.cpm.c:509-531 | broken exactly if two entries of a file carry one extent number |
| Fsck.Phase2 | src/fsck.cpm.c:477-531 | broken exactly if a block is shared or an extent is there twice |
| Fsck.Fsck | src/fsck.cpm.c:144-531 | OK exactly on sound directories without shared blocks and double extents; the repairs of phase 1 are all that changes, and broken means that one was declined or that phase 2 finds something in what is left |
| Accepted.AcceptedIsConsistent | src/fsck.cpm.c:144-531 | a directory phase 1 accepts mounts as a volume with the invariant of the engine if and only if no block is shared and no place of a file has two entries; with one logical extent per entry, if and only if phase 2 accepts it |
| Accepted.AcceptedStatuses | src/fsck.cpm.c:159-475 | which statuses pass on each of the four systems |
| Accepted.NewFileAccepted | src/fsck.cpm.c:159-302 | the entry of a file just created passes exactly if its name has no small letters and does not start with a blank, and its user is below 16 or the system is P2DOS or has XFCBs |
| Accepted.HighUserRejected | src/fsck.cpm.c:159-160 | a file of users 16 to 31 on CP/M 2.2 is live for the engine and not sound |
| Accepted.AcceptedExtentNumber | src/fsck.cpm.c:200-226 | the extent number fields pass exactly if the engine would write that number the same way |
| Accepted.AcceptedCharacter | src/fsck.cpm.c:162-183 | a character of a name passes exactly if it is a file character that is its own capital |
| Accepted.AcceptedByteCount | src/fsck.cpm.c:228-239 | the byte count passes exactly if the end the engine computes from it lies in the last record |
| Accepted.AcceptedLabel | src/fsck.cpm.c:357-402 | a label passes unless it asks for a password it does not have, or on CP/M 3 for both dates |
| Accepted.AcceptedXfcb | src/fsck.cpm.c:403-463 | an XFCB passes unless its name is no file's or any of its three top bits asks for a password it does not have |
| Accepted.TwinsPass | src/fsck.cpm.c:509-531 | two entries of one file that `fsck` accepts on a format with two logical extents per entry, of which the engine finds only one |
| FsckClean.RecordCountSound | src/fsck.cpm.c:273-302 | an entry with right record and byte counts passes the record count check if and only if the slots `fsck` looks at show as many blocks as its last 16 KiB piece needs |
| FsckClean.EntrySound | src/fsck.cpm.c:160-302 | nothing else about an entry the engine writes is unsound, whatever boundaries its appends crossed |
| FsckClean.FileIsSound | src/fsck.cpm.c:160-302 | all `fsck` can find about a file with a clean name whose ends are recorded is miscounted blocks |
| FsckClean.SizedFileIsSound | src/fsck.cpm.c:273-302 | where sizes are recorded right, phase 1 accepts the entries of a file if and only if the format splits evenly or the file is at most 16 KiB long |
| FsckClean.VolumeIsSound | src/fsck.cpm.c:144-531 | a volume that holds files with clean names and records their ends, right or short by 16 KiB pieces, passes phase 2, and phase 1 if and only if no entry is miscounted |
| FsckClean.SizedVolumeIsSound | src/fsck.cpm.c:144-531 | where sizes are recorded right, that is if and only if the format splits evenly or no file is longer than 16 KiB |
| FsckClean.RunIsSound | src/fsck.cpm.c:144-531 | every volume reached by creates, appends, renames, unlinks, syncs and stamp updates, however full it gets, passes phase 2, and phase 1 if and only if no entry is miscounted; if in addition no append crossed a 16 KiB boundary inside an entry, that is if and only if the format splits evenly or no file is longer than 16 KiB |
| FsckClean.UnevenEntryUnsound | src/fsck.cpm.c:273-302 | an entry of a file of 16385 bytes, on a format with two logical extents where the pointers could cover four, that `fsck` rejects |
| Miscount.CopyIsSound | src/fsck.cpm.c:273-302 | on a format that splits evenly, `fsck` accepts a volume after a file was created and written in any chunks if and only if the last call kept the size or the last 16 KiB piece needs all its blocks |
| Miscount.CrossingIsMisjudged | src/fsck.cpm.c:273-302 | 16385 bytes written at once into an empty file are all stored, and `fsck` rejects the record count of its entry |
| Mkfs.Mkfs | src/mkfs.cpm.c:36-97 | boot tracks, then the directory area in records over whole tracks; the rest of an existing image stays |
| Mkfs.WrittenArea | src/mkfs.cpm.c:46-97 | the directory area is the least whole number of tracks that holds the directory, written in whole records |
| Mkfs.LabelLayout | src/mkfs.cpm.c:56-88 | every byte of the CP/M 3 label: status, name in capitals padded to eleven characters, flags, zeros, and the time twice, or if there are no time stamps the bytes the buffer was filled with |
| Mkfs.SectorInTrack | src/mkfs.cpm.c:36-38 | no skew moves a sector to another track, whatever the offset |
| Mkfs.DirectoryInTracks | src/mkfs.cpm.c:48-51 | the directory lies in tracks written from end to end |
| Mkfs.MountedByte | src/mkfs.cpm.c:36-97 | a mount reads a directory byte as it was written if its address was, and as the image had it before otherwise, for any skew and offset |
| Mkfs.NewImageByte | src/mkfs.cpm.c:46-97 | on a new image without stamps and label a directory byte reads 0xE5 if and only if its address was written, and 0 otherwise |
| Mkfs.FreshExactly | src/mkfs.cpm.c:46-97 | the directory of such an image is fresh if and only if `mkfs` wrote all of it |
| Mkfs.NoOffsetFormatted | src/mkfs.cpm.c:48-51 | without an offset it always did |
| Mkfs.OffsetHidesDirectory | src/mkfs.cpm.c:36-97 | with an offset of at least the bytes written, all entries of a new image belong to a nameless file of user 0, none is free, and the invariant fails |
| Mkfs.XeroxIsHidden | diskdefs:1960-1971 | the listed format xerox820 is such a case |
| Mkfs.FreshDirectory | src/mkfs.cpm.c:46-88 | where `mkfs` wrote the whole directory, all entries are unused through any skew, with a stamp entry in every fourth place if stamps were asked for, and the label of CP/M 3 in the place the mount finds at the start of the data tracks |
| Mkfs.FreshStamps | src/mkfs.cpm.c:52-54 | every entry of a volume made with time stamps has a place for them, on P2DOS and CP/M 3, and none of one made without |
| Mkfs.FreshVolume | src/mkfs.cpm.c:19-97 | where `mkfs` wrote the whole directory, stamped, labelled or neither, the image mounts as the empty file system with only directory blocks in use, and `fsck` accepts every entry |
| Mkfs.RunsFromFormat | src/mkfs.cpm.c:19-97 | every run from there keeps the invariant; on every volume an appending run leaves `fsck` finds at most miscounted blocks, and if no append crossed a 16 KiB boundary inside an entry, those only in files longer than 16 KiB on formats that do not split evenly |
| Calendar.DaysClosedForm | src/cpmfs.c:229-235 | the year-by-year count is the closed Gregorian formula |
| Calendar.MonthsClosedForm | src/cpmfs.c:172-214 | the month table adds up to the closed formula for days in front of a month |
| Calendar.DayCountInjective | src/cpmfs.c:223-237 | no two dates have one day count |
| Calendar.CpmToDate | src/cpmfs.c:193-214 | from day 1 on the loops end at a valid date with that day count |
| Calendar.EditorDate | src/fsed.cpm.c:25-43 | the loops of the editor end at a valid date with that day count, day 0 read as day 1 |
| Calendar.BothDates | src/fsed.cpm.c:19-46 | both algorithms agree exactly from day 1 on |
| Calendar.DateToCpm | src/cpmfs.c:223-237 | the count for a year and a day of the year |
| Calendar.ThereAndBack | src/cpmfs.c:165-237 | a date turned into a count and back is the same date |
| Calendar.StampRoundTrip | src/cpmfs.c:493-512 | a stored stamp reads back if and only if its day count is below 65536 |
| Calendar.StampLayout | src/cpmfs.c:504-512 | low byte of the day count first, then hour and minute with one decimal digit in each half byte |
| Calendar.LastStampDay | src/cpmfs.c:508-509 | the last day that can be stored is 5 June 2157 |
| Text.FillChunk | src/cpmcp.c:323-331 | the loop fills its buffer with the specified chunk and never runs over it |
| Text.ChunksAreStored | src/cpmcp.c:320-338 | wherever the chunks are cut, the file holds CR LF for every LF and one end-of-file character |
| Text.StoredText | src/cpmcp.c:320-338 | every character of the text stands behind one CR for each LF in front of it, an LF behind a CR of its own, and one end-of-file character ends the file |
| Text.Translate | src/cpmcp.c:64-101 | one buffer through the CR state machine that `Text.DecodeByPosition` is about |
| Text.DecodeSplits | src/cpmcp.c:59-105 | wherever the chunks are cut, the output is the same |
| Text.DecodeByPosition | src/cpmcp.c:59-105 | for any file: of what is in front of the first end-of-file character, a character is written if it is no CR or stands behind one; behind a CR an LF is written as LF and anything else as CR, and otherwise the character itself |
| Text.PlainDecodes | src/cpmcp.c:59-105 | a file without CR and end-of-file character is copied as it is |
| Text.DecodeEncode | src/cpmcp.c:59-338 | decoding what encoding stored returns a faithful text, and less than any other |
| Text.TextRoundTrip | src/cpmcp.c:59-338 | text survives the copy there and back if and only if it holds no end-of-file character and every run of CRs is followed by LF |
| Text.ShortTextDiffers | src/cpmcp.c:59-105 | a text whose stored form is cut short by three or more bytes does not come back |
| Cpmcp.UnixToCpm | src/cpmcp.c:315-338 | the calls made are the specified chunks in order, up to the first that fails, and leave the volume they are specified to leave, but for stamps |
| Cpmcp.CpmToUnix | src/cpmcp.c:59-105 | however the file is cut into reads, the output is the one `Text.DecodeByPosition` describes for all of it, or without `-t` the file itself |
| Cpmcp.BinaryChunksFit | src/cpmcp.c:323-323 | no chunk of a binary copy crosses a 16 KiB boundary |
| Cpmcp.CopyStores | src/cpmcp.c:315-338 | a copy whose calls all succeed stores exactly the translated file under its name and changes no other; its size is the one the last call recorded, and right if and only if that call kept it |
| Cpmcp.BinaryCopyRoundTrip | src/cpmcp.c:59-338 | a binary file copied completely has its size and reads back byte for byte |
| Cpmcp.TextCopyRoundTrip | src/cpmcp.c:59-338 | a text copied in and out through the volume is unchanged if and only if it is faithful and its last chunk kept the size, which depends on text and format alone |
| Cpmcp.TextCopyLosesSize | src/cpmcp.c:323-333 | a text of 16383 bytes with one LF, at the end of the first chunk, is stored completely and listed with a size of 1 |
| Cpmcp.TextCopyIsSound | src/fsck.cpm.c:273-302 | on a format that splits evenly, `fsck` accepts a volume a text was copied to if and only if the last chunk kept the size or the last 16 KiB piece of the file needs all its blocks |
| Cpmcp.TextCopyMisjudged | src/fsck.cpm.c:273-302 | the text of 16383 bytes is stored completely, and `fsck` does not accept the volume |
| Getopt.Exchange | src/getopt.c:163-231 | terminates and trades two adjacent segments in place, each in its own order |
| Getopt.RotatedKeepsElements | src/getopt.c:155-162 | the trade is a permutation |
| Getopt.Getopt.Permute | src/getopt.c:405-424 | options seen so far move in front of the other arguments, which are skipped; both keep their order |
| Getopt.Getopt.EndOfOptions | src/getopt.c:431-447 | `--` is moved like an option and everything behind it stays |
| Getopt.Getopt.Next | src/getopt.c:339-476 | one call reports the next option of the command line as it was given, or ends the scan |
| Getopt.Getopt.ShortOption | src/getopt.c:720-1040 | the next option character, its argument, and where the scan goes on |
| Getopt.WalkKeepsArguments | src/getopt.c:277-283 | options and other arguments together are the command line |
| Getopt.Scan | src/getopt.c:396-461 | a whole scan reports the options from left to right, leaves a permutation with the options and their arguments first and the others last, each in order, and ends with `optind` between them |
| CommandLine.CommandLineRead | src/getopt.c:339-476 | a command line put together from clusters of options, attached, optional and separate arguments and other arguments, perhaps with `--` and more behind, is taken apart into exactly these |
| CommandLine.EveryLine | src/getopt.c:339-476 | and up to `--`, its end, or a last option that lacks its argument, every command line is one of these |
| CommandLine.OrderedLineRead | src/getopt.c:450-455 | without permutation everything from the first other argument on stays |
| CommandLine.MissingRead | src/getopt.c:988-1022 | an option that lacks its argument is reported as a colon if the option string starts with one and as a question mark otherwise |
| CommandLine.KindOfMeans | src/getopt.c:724-976 | whether an option takes an argument is said by the colons behind its first occurrence in the option string |
| CommandLine.NotListed | src/getopt.c:724-729 | a character that is not in the option string is no option |

## Left out

- MP/M stamps and the XFCBs that `cpmCreat` makes for them, DateStamper files, and the password and label files of the engine: formats with MP/M stamps are excluded by hypothesis. Passwords and labels are modelled where `fsck` checks them, labels and stamp entries where `mkfs.cpm` makes them.
- XFCBs with passwords: the engine takes the password for block pointers, so the invariant holds of such a volume only if that happens to be harmless.
- Xfcbs.RenameAllConsistent: what happens to an XFCB of several entries, or one that cannot follow its file, is stated by the calls themselves (`FileSystem.SuperBlock.Rename`) but not carried into the map of files; `Xfcbs.RenamedOntoXfcb` is one such case.
- Xfcbs.RenameAllContents: the same.
- Xfcbs.UnlinkAllConsistent: the same of an XFCB of several entries.
- Xfcbs.UnlinkAllContents: the same.
- Space.UnlinkFrees: the same.
- Persistence.SyncRefines: the DateStamper file that a sync may write as well is not modelled.
- FileSystem.SuperBlock.Sync: the same.
- Listing.Readdir: the positions of `[passwd]` and `[label]` are passed over, as on volumes without them.
- The names `.`, `..`, `[passwd]` and `[label]` in lookups, and the mode and attribute fields of inodes.
- The clock and the times kept in inodes: the times a call stores are arguments, one pair for what it stamps before it stored anything and one for what it stamps after.
- Opening files with permissions, `cpmAttrSet` and `cpmChmod`: they change attribute bits only.
- The `diskdefs` text parser and the Amstrad and automatic formats: a geometry is given, as a value that satisfies `ValidGeometry`.
- Failing devices, file descriptors and memory allocation: sectors are always transferred, and an image reads as zeros behind its end.
- The bitmap as 32-bit words: it is an array of bits, 32 to a word.
- FileSystem.SuperBlock.Write: volumes with a pointer behind their end are excluded, because `writeBlock` asserts that no such block is written.
- FileSystem.SuperBlock.Read: the local buffer is taken to keep its content from one turn of the loop to the next, as it does in practice although C does not promise it.
- Runs.RunRefines: sizes of runs with overwrites, or with appends that cross a 16 KiB boundary inside an entry; they are stated call by call and for copies (`Sizes`), the bytes for all runs (`Runs.RunHolds`), and record and byte counts for all appends (`Runs.StepEnded`).
- Room.AppendStores: writes in front of the end of a file, which use the blocks that are there first.
- Mkfs.Mkfs: clock and time zone; the time is an argument. `mkfs` with DateStamper stamps is left out.
- Calendar.CpmToDate: time zones and the C library's own calendar; the result is a date, not a number of seconds.
- Messages, statistics and time stamp fields that `fsck` prints or complains about without changing the outcome, and its `-n` option, which is the same as answering no.
- Listing styles, the curses editor and all `main` functions except the loops cited above.
- Getopt.Getopt.Next: the ordering in which other arguments are returned one by one, long options, messages, and callers that move `optind` back between calls.
- Getopt.Getopt.ShortOption: `W;` in the option string and the variable `optopt`.
