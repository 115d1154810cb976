# A verified model of OSPFS, MD5, the threaded lists and two small kernels

These Dafny files model five programs and prove what they are for.

**OSPFS.** `lab3/ospfsformat.c` writes a file system image through a cache of sixteen blocks, and `lab3/ospfsmod.c`
mounts that image and keeps changing it: a bitmap of free blocks, inodes whose blocks are found through direct, indirect
and doubly indirect pointers, and directories that are arrays of 128-byte entries. Both programs are modelled down to
bytes, 32-bit words and wrap-around, as classes whose methods do what the C functions do. The end result is
`Lifetime.Live`: an image that the formatter makes from any list of host files mounts as a sound file system with
exactly those files, their lengths and modes, and every sequence of requests to the mounted module - look up, read,
create, link, symlink, follow a link, unlink, write, resize, set a mode - then does what it should, while no two files ever share a block, no block in
use is marked free, and link counts equal the number of entries; names are distinct exactly when those of the host files
are, and then they stay so.

**MD5.** `lab3/md5.c` as a class, against sections 3.1 to 3.5 of RFC 1321: however the message is cut into calls of
`md5_update`, and for exactly which lengths. `Md5Answers` evaluates the digest on test vectors of the RFC.

**Lab 4.** The sorted circular lists of `lab4/sltest.c` on the heap, the threads that share them under per-list locks as
interleaved steps with which the pointers in memory keep pace, and the shared counter of `lab4/addtest.c` under a lock
and under compare-and-swap.

**MiniprocOS and SchedOS.** The process tables of `weensyos1-sunnie/mpos-kern.c` and `weensyos2/schedos-kern.c`, with
what every run of system calls and every run of the schedulers keeps, what each call of MiniprocOS answers, and the way
of an exit status to those who wait for it.

**fsimgtoc.** The printer of `lab3/fsimgtoc.c`, whose C initializer list must mean the bytes it was given.

The code is followed where it does not do what its comments say; the section "Findings" lists those places, each with an
input and with the condition under which the code is right.

## How the files hang together

| files | what they hold |
|---|---|
| `Words`, `Layout`, `Freemap` | 32-bit words and bytes, the index encoding of file blocks, the bitmap |
| `Image`, `Resize`, `BlockCalls`, `FileData`, `FileSystem` | block trees, `add_block`, `remove_block`, `change_size`, `ospfs_read`, `ospfs_write` |
| `DirEntries`, `Namespace`, `DirOps`, `Symlinks`, `DirCalls`, `Directories`, `Session`, `SessionLaws` | directory entries, link counts, the targets of symbolic links, the directory calls, runs of requests |
| `BlockCache`, `CacheRuns` | the cache of the formatter, and its runs as those of a plain array of blocks |
| `DoublyIndirect`, `Storing`, `InodeTable`, `Copying`, `Formatter`, `NamedFiles`, `FormatFiles`, `WriteFiles`, `FormatRun` | the formatter, up to its `main` |
| `Mounting`, `OnDisk`, `Mount`, `Lifetime`, `Limits` | the words of the formatter's image, from there to the mounted module, and inputs on which it goes wrong |
| `Bits`, `Md5Spec`, `Md5`, `Md5Answers` | MD5, and its test vectors |
| `SortedList`, `ListThreads`, `ListMemory`, `SharedCounter` | lab 4 |
| `RoundRobin`, `MposCalls`, `MposAnswers`, `Mpos`, `Schedules`, `Schedos` | the two kernels |
| `SparsePrinter` | the image printer |

`Fs` (in `Image`) is the state of a mounted image. It records, beside what the C program stores, which place names each
block; that record is for the proofs only. Methods of the classes are proved against relations on `Fs`, such as
`AddOutcome` or `WriteResult`, and the lemmas say what those relations mean. `FsOk` (in `Namespace`) is what every
request keeps; `NamesDistinct` is a property of its own, because the formatter makes sound images that lack it.

Some predicates are defined by counting down to their meaning (`Orderly` by `OrderlyAfter`). That keeps them closed in
proofs that only pass them on; a lemma named after the predicate (`OrderlyIs`) opens it. Contracts that compare a
predicate with `true`, or the answer of a method with a predicate, do so for the same reason.

`dafny verify dfyconfig.toml --warn-contradictory-assumptions --resource-limit 2000000 --verification-time-limit 0` checks
everything.

## Model

| member | source | states |
|---|---|---|
| Lifetime.Live | lab3/ospfsformat.c:740-823 | For every command line: the formatter succeeds exactly when its arguments are accepted, there are files, and all of them fit; the image then mounts with exactly those files, in order, and every run of requests on it does what each request should, with the file system sound in every state of the run; its names are distinct exactly when those of the files are, and then at the end too |
| Lifetime.ReadBack | lab3/ospfsformat.c:503-525 | Image round trip: any file of the command line, looked up by its name in the mounted image and read with `ospfs_read`, has exactly the bytes of the host file, at all three levels of indirection; a name given twice leads to the bytes of the first file that has it |
| Lifetime.Boot | lab3/ospfsformat.c:740-823 | Format and mount: exactly for the command lines that fit, the mounted module is sound and has exactly the files of the command line, each with its bytes, length, mode and one link |
| Lifetime.ReadNamed | lab3/ospfsmod.c:1045-1107 | In every sound state that contains those files, finding a name and reading the file gives the bytes and the length of the first file with that name |
| Lifetime.FormattedMounts | lab3/ospfsformat.c:678-711 | A finished image mounts as a state that keeps the whole invariant of the module, has the same files with their modes and link counts, and whose free blocks are those never handed out |
| OnDisk.HeadOnDisk | lab3/ospfsformat.c:678-711 | The superblock of the image is the magic number, the number of blocks, the number of inodes and 3, and bit b % 32 of word b / 32 of the bitmap is set exactly for the blocks not handed out |
| OnDisk.InodeWords | lab3/ospfs.h:114-123 | The sixteen words of every inode, from block 3 on, in the order of `struct ospfs_inode` |
| OnDisk.InodesOnDisk | lab3/ospfsformat.c:800-811 | In the image, inode 1 says directory, one link and 0777, and inode k + 2 says the length of file k, regular, one link and 0666 |
| OnDisk.EntriesOnDisk | lab3/ospfsformat.c:375-426 | In the image, the 128 bytes of entry k of the root directory are k + 2, low-order byte first, the name of file k and a NUL |
| Session.ServeAll | lab3/ospfsmod.c:1045-1523 | Over every sequence of requests: every reply and every state change is the specified one, and block safety and link counts hold before and after each request; a run that starts with distinct names has distinct names in all its states |
| Session.Serve | lab3/ospfsmod.c:999-1024 | One request, of any kind: what it changes, what it answers, and that it keeps the invariant |
| Session.FileChanged | lab3/ospfsmod.c:1127-1191 | Changing the bytes or the size of one file that is no directory leaves all names and link counts right |
| Session.ResizeKeepsInvariant | lab3/ospfsmod.c:961-1012 | A change of size keeps the invariant, keeps the bytes that stay and every byte of every other file |
| Session.ModeKeepsInvariant | lab3/ospfsmod.c:1014-1016 | Setting a mode keeps the invariant, all names and all bytes |
| SessionLaws.CreateLeaves | lab3/ospfsmod.c:1384-1421 | What a successful create leaves behind: the name leads to an inode that was unused and is an empty regular file with one link and the mode asked for |
| SessionLaws.SymlinkLeaves | lab3/ospfsmod.c:1477-1507 | What a successful symlink leaves behind: the name leads to an inode that was unused and is a link of the target's length, with the target's text in front of what the inode held |
| SessionLaws.ModeKept | lab3/ospfsmod.c:999-1024 | No request but the one to set it changes the mode of an inode in use |
| SessionLaws.SetModeLasts | lab3/ospfsmod.c:1014-1016 | Over every run: a mode that is set is the mode of the file until it is set again or the last name of the file goes |
| SessionLaws.CreateModeLasts | lab3/ospfsmod.c:1404-1421 | Over every run: a new file has the mode it was created with until it is set or its last name goes |
| SessionLaws.WriteLeaves | lab3/ospfsmod.c:1132-1196 | What a successful write leaves behind: with O_APPEND the old bytes and the buffer behind them, otherwise the buffer at the position given and all other bytes |
| SessionLaws.BytesStay | lab3/ospfsmod.c:1045-1523 | Over every run: a regular file that keeps a name has the same bytes until it is written to or resized |
| SessionLaws.WriteThenRead | lab3/ospfsmod.c:1045-1196 | Over every run: what was written at a place is what a later read at this place gives, if nobody wrote to the file or resized it in between |
| Layout.Size2NBlocksIsCeiling | lab3/ospfsmod.c:135-139 | `ospfs_size2nblocks` is the division rounded up if and only if its 32-bit addition does not wrap, which is up to size 2^32 - 1024 |
| Layout.SizeStep | lab3/ospfsmod.c:831-832 | Adding or subtracting 1024 moves the block count by exactly one, even when `oi_size` itself wraps |
| Layout.BlocknoReadsSlot | lab3/ospfsmod.c:181-197 | `ospfs_inode_blockno` reads the place that the block tree assigns to the file block of the offset |
| Layout.DataSlotHas | lab3/ospfs.h:93-101 | The places in use by a file of n blocks are exactly those of its first n blocks |
| Layout.DataSlotInjective | lab3/ospfs.h:93-101 | Different file blocks have different places |
| BlockCalls.IndexFunctionsAgree | lab3/ospfsmod.c:681-716 | `indir_index` and `direct_index` name the place that reads look in, although the subtraction of `direct_index` wraps for blocks 256 to 265 |
| Freemap.DigitAfter | lab3/ospfsmod.c:102-121 | Setting or clearing a bit of a word is seen by a test of that bit and of no other |
| Freemap.FreeMap.Test | lab3/ospfsmod.c:116-121 | A bit is set exactly when its block is in the set of free blocks |
| Freemap.FreeMap.Set | lab3/ospfsmod.c:102-107 | Exactly that block becomes free |
| Freemap.FreeMap.Clear | lab3/ospfsmod.c:109-114 | Exactly that block is taken |
| Freemap.FreeMap.Allocate | lab3/ospfsmod.c:582-601 | The lowest free block past the bitmap block is taken, and 0 comes back if and only if there is none |
| Freemap.FreeMap.Free | lab3/ospfsmod.c:615-628 | The block becomes free; numbers below 3 or past the disk are ignored |
| Image.NoSharing | lab3/ospfs.h:18-41 | Two places in use hold the same block number only if they are the same place of the same file; that block is a data block and not marked free |
| Image.AddDirectGrows | lab3/ospfsmod.c:780-785 | The direct case of `add_block` adds exactly one block and keeps block safety |
| Image.AddSingleGrows | lab3/ospfsmod.c:786-801 | So does the indirect case, with the indirect block old or just taken |
| Image.RemovedUngrows | lab3/ospfsmod.c:879-919 | Removing the last block cleanly is the exact inverse of adding it |
| BlockCalls.AddBlockExact | lab3/ospfsmod.c:750-834 | A successful `add_block` makes the file longer by exactly one block if and only if it has fewer than 266 blocks, and then keeps block safety |
| BlockCalls.AddBlockFailure | lab3/ospfsmod.c:766-795 | Below 266 blocks: -ENOSPC exactly when no block is free, -EIO exactly when the indirect block cannot be had, and a failing call changes nothing |
| BlockCalls.RemoveBlockExact | lab3/ospfsmod.c:859-922 | `remove_block` succeeds on every file with blocks, and undoes one `add_block` if and only if the file has at most 266 or more than 522 blocks |
| BlockCalls.ChangeSizeExact | lab3/ospfsmod.c:961-990 | The result of `change_size` depends on the two block counts and the number of free blocks only; success gives the size asked for, keeps the common prefix and loses no block; -ENOSPC restores size, tree and free set; -EIO leaves ten blocks |
| Limits.AddPastLimit | lab3/ospfsmod.c:802-832 | A reachable image: a file of 266 blocks, a hundred free blocks, and `add_block` does not make it one block longer |
| Limits.RemovePastLimit | lab3/ospfsmod.c:886-895 | A reachable image: a file of 267 blocks, and `remove_block` answers 0 without having undone an `add_block` |
| Limits.NameTwice | lab3/ospfsformat.c:375-426 | A command line with two files of one name: the image is made, the name leads to the first file, and once that is unlinked the name is still there and leads to the second |
| Limits.StaleTarget | lab3/ospfsmod.c:1479-1507 | A reachable image: a file is created and unlinked, and a symbolic link made in its inode does not lead to its target |
| FileSystem.FileSystem.AddBlock | lab3/ospfsmod.c:750-834 | The method in place has the outcome that AddBlockExact and AddBlockFailure speak of |
| FileSystem.FileSystem.LinkBlock | lab3/ospfsmod.c:775-830 | The switch of `add_block`: below 266 blocks the new block is recorded in its place and nowhere else; it fails only for want of a block, and then changes nothing |
| FileSystem.FileSystem.RemoveBlock | lab3/ospfsmod.c:859-922 | The method in place has the outcome that RemoveBlockExact speaks of |
| FileSystem.FileSystem.UnlinkBlock | lab3/ospfsmod.c:874-917 | The switch of `remove_block`: outside blocks 266 to 521 it frees exactly the blocks that the last place used and clears exactly their pointers |
| FileSystem.FileSystem.ChangeSize | lab3/ospfsmod.c:961-990 | The loops end, and have the outcome that ChangeSizeExact speaks of |
| FileSystem.FileSystem.Read | lab3/ospfsmod.c:1045-1107 | The bytes from the position to the end or to the count, whichever comes first; -EIO exactly past the end |
| FileSystem.FileSystem.Write | lab3/ospfsmod.c:1127-1191 | The buffer stands at its place, at the end when appending; all other bytes of this and of every other file are kept; failure exactly when too few blocks are free |
| FileData.WroteContents | lab3/ospfsmod.c:1150-1187 | Copying block by block replaces exactly that slice of the byte string of the file and no byte of any other file |
| FileData.WriteWorks | lab3/ospfsmod.c:1144-1187 | Resizing and then copying is one write: the length, the new slice, the bytes before and after it, and all other files |
| FileData.WriteFails | lab3/ospfsmod.c:1144-1148 | A write that fails was short of free blocks, and lost no byte |
| FileData.WriteIsSplice | lab3/ospfsmod.c:1127-1191 | For a start no later than the end of the file, the new byte string is the old one with the slice put in |
| FileData.ResizedContents | lab3/ospfsmod.c:961-990 | Resizing keeps the bytes that stay, and every other file |
| FileData.BlocknoFinds | lab3/ospfsmod.c:181-197 | Every byte below the size has a block other than 0, and no byte past it has |
| DirEntries.BindingKeys | lab3/ospfsmod.c:1211-1218 | A scan for a name finds an entry exactly when the map that the entries stand for has the name, whether names are distinct or not |
| DirEntries.BindingAt | lab3/ospfsmod.c:1211-1216 | The first entry with a name has the inode number that the map gives |
| DirEntries.InsertBinds | lab3/ospfsmod.c:1409-1411 | Putting an empty entry to use under a new name adds exactly that binding |
| DirEntries.InsertDistinct | lab3/ospfsmod.c:1404-1411 | Names are distinct after an empty entry is put to use if and only if they were before and the name is new |
| DirEntries.ClearUnbinds | lab3/ospfsmod.c:552-552 | Emptying an entry touches no other name, and its own name goes if and only if there is no second entry for it |
| DirEntries.ClearUnbindsOnly | lab3/ospfsmod.c:552-552 | With distinct names exactly that binding goes |
| DirEntries.BlanksBindNothing | lab3/ospfsmod.c:1273-1278 | Empty entries at the end of a directory change no binding, and names are as distinct as before |
| DirOps.InoStored | lab3/ospfsmod.c:1409-1409 | Storing an inode number through the block of an entry changes that number and no other byte of any file |
| DirOps.NameStored | lab3/ospfsmod.c:1410-1411 | Storing a name and its terminator changes that name and no other byte of any file |
| DirOps.EntryRead | lab3/ospfsmod.c:212-217 | The entry read through its block is the entry in the byte string of the directory |
| Namespace.NameAddedOk | lab3/ospfsmod.c:1404-1411 | A name in an empty entry, or in one of the entries of a new block: every entry names an inode in range, and exactly one inode has one entry more |
| Namespace.NameAddedBinds | lab3/ospfsmod.c:1404-1411 | The map gains exactly that binding if the name is new, and the names of all directories stay distinct if and only if it is |
| Namespace.NameClearedOk | lab3/ospfsmod.c:552-553 | The reverse, for an entry that is emptied: exactly one inode has one entry fewer, and distinct names stay distinct |
| DirCalls.CreateDone | lab3/ospfsmod.c:1404-1421 | After `ospfs_create` the invariant holds, the name is bound to an empty regular file in an inode that was unused, and every other file and name, and the directory's own mode and count, are as before |
| DirCalls.LinkDone | lab3/ospfsmod.c:1325-1338 | After `ospfs_link` the inode has one link more, the name is bound to it, and everything else is as before; the invariant holds again if and only if the count did not wrap to 0 |
| DirCalls.SymlinkDone | lab3/ospfsmod.c:1497-1510 | After `ospfs_symlink` the name is bound to a new symbolic link; the link count it adds to the directory keeps the invariant exactly until that count wraps to 0 |
| Symlinks.LinkLeadsTo | lab3/ospfsmod.c:1498-1546 | Following a new symbolic link gives its target if and only if the byte behind the text was 0 in the unused inode; otherwise what stood there is read as part of the target |
| Symlinks.FreshLinkLeads | lab3/ospfsmod.c:1498-1546 | In an inode that the formatter left all zero, every link leads to its target |
| DirCalls.UnlinkDone | lab3/ospfsmod.c:529-555 | After `ospfs_unlink` the invariant holds, the first entry for the name is empty and no other name has changed, its inode has one link less, and every file has its bytes; the name is gone if and only if it had no second entry |
| Directories.FindDirentry | lab3/ospfsmod.c:1205-1219 | The first entry with the name, if and only if the directory's map has it, and the inode number that the map gives |
| Directories.Lookup | lab3/ospfsmod.c:348-389 | The inode number that the directory's map has for the name, 0 when it has none, -ENAMETOOLONG for long names |
| Directories.CreateBlankDirentry | lab3/ospfsmod.c:1250-1280 | An empty entry, from a new and emptied block when there was none; a failing call changes nothing and means a full disk |
| Directories.Create | lab3/ospfsmod.c:1370-1434 | Every result in its order of precedence, with the effect of CreateDone on success and none on failure |
| Directories.Link | lab3/ospfsmod.c:1311-1339 | The same for a hard link, with the effect of LinkDone, for every link count |
| Directories.Symlink | lab3/ospfsmod.c:1459-1523 | The same for a symbolic link, with the effect of SymlinkDone, and the target's text in the words of the inode |
| Directories.Unlink | lab3/ospfsmod.c:529-555 | -ENOENT and no change when the name is not there, and otherwise the effect of UnlinkDone |
| Directories.NotifyChange | lab3/ospfsmod.c:999-1024 | The size first, with -EPERM on directories and otherwise the outcome of `change_size`. If that fails nothing more happens. Otherwise the mode asked for is the mode of the inode, without one the old mode stays, and every other field, inode, block and name is as the resize left it; whatever the VFS answers in the end, the change stands |
| BlockCache.Cache.constructor | lab3/ospfsformat.c:271-292 | An empty cache in front of a zeroed disk is valid, although its entries all claim to have block 0 |
| BlockCache.Cache.Find | lab3/ospfsformat.c:219-228 | The scan finds the entry of the block, or else the first of the least recently used entries that nobody holds |
| BlockCache.Cache.Getblk | lab3/ospfsformat.c:207-263 | `getblk` is a read of a plain array of blocks; it evicts the least recently used entry that nobody holds and moves no other; it aborts exactly past the disk, when every entry is held, or when the block is held as another type |
| BlockCache.Cache.Putblk | lab3/ospfsformat.c:265-269 | One hold less on that block, and nothing else |
| BlockCache.Cache.Modify | lab3/ospfsformat.c:332-333 | An assignment through the pointer of a held block changes exactly that block of the plain array |
| BlockCache.Cache.FlushDisk | lab3/ospfsformat.c:713-721 | Afterwards the disk is the plain array |
| BlockCache.HitWorks | lab3/ospfsformat.c:221-224 | A hit keeps the cache valid, also when it hits an unused entry for block 0 |
| BlockCache.MissWorks | lab3/ospfsformat.c:235-262 | A miss keeps the cache valid: the victim is written back when used, and the block read is what the plain array has |
| BlockCache.HeldStays | lab3/ospfsformat.c:225-227 | A block that is held stays in its entry with its type, whatever `getblk` is asked for |
| BlockCache.HeldData | lab3/ospfsformat.c:251-262 | What a holder of a block sees through its pointer is what the plain array has |
| CacheRuns.Run | lab3/ospfsformat.c:194-269 | Over every sequence of `getblk`, assignments through the pointers it gave, and `putblk`: the cache goes exactly as far as a plain array of blocks with at most sixteen of them held, each as one type, and its users see exactly the blocks of that array |
| CacheRuns.RunAndFlush | lab3/ospfsformat.c:194-269 | From a zeroed disk to the end of `flushdisk`: the disk is what the plain array has become |
| CacheRuns.FullMeans | lab3/ospfsformat.c:225-233 | "Block cache full" comes exactly when sixteen other blocks are held |
| CacheRuns.ClashMeans | lab3/ospfsformat.c:257-261 | The assertion on types fails exactly when the block is held under another type |
| DoublyIndirect.AddDoubleTrees | lab3/ospfsformat.c:334-355 | A block recorded below the doubly indirect block, with either pointer block old or new, keeps block safety |
| Storing.ZeroMeansNone | lab3/ospfsformat.c:325-352 | The tests of `storeblk` for 0 tell exactly whether a pointer block is there |
| InodeTable.ReadWritten | lab3/ospfs.h:113-123 | Writing an inode into its block and reading it back; the other inodes of the block are as before |
| InodeTable.SameInode | lab3/ospfsmod.c:161-169 | The formatter's way to an inode and the module's way lead to the same words |
| Copying.CostIs | lab3/ospfsformat.c:318-360 | How many blocks a file of n blocks takes from the disk, pointer blocks included, in closed form |
| Copying.CopyDone | lab3/ospfsformat.c:502-525 | Once the loop of `writefile` has ended and the size is set, the file has exactly the bytes of the host file, and every other file is as before |
| Formatter.Formatter.constructor | lab3/ospfsformat.c:271-316 | `opendisk` makes an image with every bit set, all inodes zero and all data blocks to be handed out |
| Formatter.Formatter.StoreBlk | lab3/ospfsformat.c:318-360 | The block becomes block nblk of the file and all earlier ones stay where they are; it aborts exactly when the file is too large or the pointer blocks do not fit |
| Formatter.Formatter.WriteData | lab3/ospfsformat.c:502-525 | The file written has exactly the bytes of the host file; the run aborts exactly when the disk lacks room for data, pointer blocks and the block that finds the end |
| Formatter.Formatter.AllocInode | lab3/ospfsformat.c:362-373 | The next inode, held in its block; it aborts exactly when none is left |
| Formatter.Formatter.FinishFs | lab3/ospfsformat.c:678-711 | The bitmap and the superblock say what the image is |
| Mounting.FinalBit | lab3/ospfsformat.c:684-695 | The bits left set are exactly those from `nextb` to the end of the disk |
| Mounting.FormatMounts | lab3/ospfsformat.c:678-711 | A finished image mounts: block safety holds, the free blocks are those not handed out, and every file has the bytes that were written |
| Mount.Mount | lab3/ospfsmod.c:161-169 | The module's bitmap, blocks and inodes are where the superblock says they are |
| Mount.ReadFormatted | lab3/ospfsmod.c:1045-1107 | Every file of a finished image is read back whole by `ospfs_read` |
| NamedFiles.NameThenIno | lab3/ospfsformat.c:423-425 | `allocdirentry` stores the name first and `writefile` the number afterwards; the directory has exactly one entry more, and a new name is bound to the number |
| NamedFiles.NameOnce | lab3/ospfsformat.c:375-426 | Neither looks for the name first: after them the names of a directory whose names were distinct are distinct if and only if the name was not there |
| FormatFiles.GetDirBlock | lab3/ospfsformat.c:385-398 | The last block of a directory, reached through the cache at all three levels |
| FormatFiles.FindInBlock | lab3/ospfsformat.c:402-406 | The first empty entry of that block, if and only if there is one |
| FormatFiles.GrowDir | lab3/ospfsformat.c:410-421 | A new block of empty entries at the end of the directory; it aborts exactly when there is no room |
| FormatFiles.AllocDirEntry | lab3/ospfsformat.c:375-426 | An empty entry with its name filled in, the null pointer exactly for long names, and an abort exactly when the directory cannot grow |
| WriteFiles.WriteFile | lab3/ospfsformat.c:428-530 | A host file becomes a new file of the directory and nothing else changes; it ends well exactly when the name, an inode, the entry and the data all fit, whether the directory has the name already or not |
| FormatRun.Format | lab3/ospfsformat.c:740-823 | For every command line: `main` makes the image exactly when there are files and all of them fit, in terms of their names and lengths only; file k of the command line is inode k + 2, a regular file with mode 0666, one link and exactly its bytes, the root directory has mode 0777 and exactly these entries; the image hands out exactly the blocks counted, and has distinct names if and only if the files have |
| FormatRun.NamesAre | lab3/ospfsformat.c:810-811 | The root directory of the image has exactly the names of the command line, and each leads to the inode of the first file that has it, which is k + 2 for file k |
| Bits.FFIsF | lab3/md5.c:77-81 | The shorter form of the first auxiliary function is the function of RFC 1321, section 3.4 |
| Bits.FGIsG | lab3/md5.c:82-82 | So is the second one, which is the first one with its arguments exchanged |
| Bits.OpValue | lab3/md5.c:50-61 | One OP step, with the sum and the rotation as written, is the step of RFC 1321 |
| Md5Spec.AbsorbConcat | lab3/md5.c:242-248 | Absorbing a message block by block can be cut at any block boundary |
| Md5Spec.FillCount | lab3/md5.c:283-293 | The zeros that the padding needs are 55 - r or 119 - r for r bytes in the last block, which are the two branches of `do_final` |
| Md5.Four | lab3/md5.c:90-216 | Four OP lines with rotating registers are four steps of RFC 1321 |
| Md5.Context.Transform | lab3/md5.c:90-216 | The 64 OP lines compress one block as RFC 1321 does; Md5Answers says what that comes to |
| Md5.Context.Update | lab3/md5.c:224-252 | However the message is cut into calls, what counts is all of it so far |
| Md5.LengthWords | lab3/md5.c:270-281 | The two length words of a message of n bytes: the low one is always right, and the high one is right if and only if n modulo 2^61 is below 2^32 and eight times it does not wrap below it, which is when no carry is lost or counted twice |
| Md5.ShortFits | lab3/md5.c:270-281 | Every message below 2^29 bytes meets that condition |
| Md5.FirstMisfit | lab3/md5.c:279-281 | A message of 2^29 bytes does not |
| Md5.Context.PadMessage | lab3/md5.c:283-293 | Both branches pad the message as RFC 1321 does |
| Md5.Context.DoFinal | lab3/md5.c:262-322 | The buffer has the digest of the message with the length words as computed |
| Md5.Context.Final | lab3/md5.c:324-330 | The first call gives the MD5 digest whenever the length words are right; later calls repeat it |
| Md5.DigestOf | lab3/md5.c:224-330 | Any cutting of a message into pieces gives the digest of the whole message |
| Md5Answers.DigestOfEmpty | lab3/md5.c:90-216 | Test vector of RFC 1321, section A.5, on literal bytes: the digest of the empty message is d41d8cd98f00b204e9800998ecf8427e |
| Md5Answers.DigestOfAbc | lab3/md5.c:90-216 | The digest of "abc" is 900150983cd24fb0d6963f7d28e17f72 |
| Md5Answers.DigestOfLetters | lab3/md5.c:90-322 | The digest of the 62 letters and digits, whose sixteen words all differ and whose padding takes a second block, is d174ab98d277d9f5a5611c2c9f419d9f: it fixes every constant, rotation, word index, the order of bytes and the length |
| SortedList.InsertAscends | lab4/sltest.c:47-65 | Inserting before the first key that is not smaller keeps the keys ascending |
| SortedList.DeleteAscends | lab4/sltest.c:82-85 | Taking an element out keeps the keys ascending |
| SortedList.InsertConserves | lab4/sltest.c:59-63 | The list has exactly one element more, the one inserted |
| SortedList.AtMostMeans | lab4/sltest.c:51 | The order of `strcmp`: the first key is the beginning of the second, or has the smaller character where they first differ |
| SortedList.Antisymmetric | lab4/sltest.c:51 | Keys that are each not after the other are equal |
| SortedList.DeleteConserves | lab4/sltest.c:82-85 | The list has exactly one element fewer, the one deleted |
| SortedList.Insert | lab4/sltest.c:47-65 | On the heap: the list stays a circular doubly linked ring, the element is in its place by key, and the elements are those before and the new one; the keys stay ascending in the order of AtMostMeans |
| SortedList.Delete | lab4/sltest.c:69-88 | On the heap: an element of a ring passes both checks and is taken out, and the rest is a ring in the same order |
| SortedList.Checks | lab4/sltest.c:73-76 | On any element: 0 exactly for those that both neighbours point back to, an answer that the header file knows exactly when the next one does, and never anything but 0, 1 and -1 |
| SortedList.ListedIsIntact | lab4/sltest.c:73-76 | Every element of a list passes the checks, so any other answer than 0 means that the element is in no list |
| SortedList.DamagedNeighbour | lab4/sltest.c:73-74 | An element whose successor has lost its way back: the answer is -1 |
| SortedList.Lookup | lab4/sltest.c:91-107 | The first element of any list that is not empty, which is what the header file asks for if and only if the list is empty or starts with the key |
| SortedList.Length | lab4/sltest.c:109-129 | The number of elements of all rings |
| ListThreads.Hash | lab4/sltest.c:166-175 | The sum of the characters modulo the number of lists |
| ListThreads.CharSumAdds | lab4/sltest.c:166-175 | The sum of a key is that of its parts, and of one character the character itself |
| ListThreads.MutualExclusion | lab4/sltest.c:177-276 | In every reachable state no two threads are in the section of the same list |
| ListThreads.NoDeadlock | lab4/sltest.c:203-272 | In every reachable state with an unfinished thread some thread can move |
| ListThreads.ListsStayInOrder | lab4/sltest.c:184-272 | In every reachable state every list is sorted, has only elements that `hash` sends there, none twice, and as many as were inserted into it and not deleted from it |
| ListThreads.NeverHere | lab4/sltest.c:240-257 | The branch "should never be here" is never taken |
| ListThreads.Conservation | lab4/sltest.c:184-272 | In every reachable state the lists together have as many elements as insertions minus deletions were done |
| ListThreads.LengthIsExact | lab4/sltest.c:203-229 | The length read under all locks is insertions minus deletions completed, and no other thread is inside an operation then |
| ListThreads.RunsAreSafe | lab4/sltest.c:177-276 | No run is longer than the steps that the threads have before them |
| ListThreads.StuckMeansFinished | lab4/sltest.c:463-467 | A run that cannot go on has all threads finished and all lists empty |
| ListMemory.LinkAmong | lab4/sltest.c:59-63 | The four assignments of `SortedList_insert` put the element into its ring, and no ring of another list is touched |
| ListMemory.UnlinkAmong | lab4/sltest.c:69-88 | `SortedList_delete` takes the first element out of its ring and answers 0, and no ring of another list is touched |
| ListMemory.OthersRegister | lab4/sltest.c:184-272 | A place found by the search of one thread, or an element found by its lookup, is still right after a step of any other thread |
| ListMemory.Program.constructor | lab4/sltest.c:384-417 | What `main` sets up: empty rings, and elements with the keys of the machine, all of them apart |
| ListMemory.Program.Find | lab4/sltest.c:239-247 | In the delete phase `SortedList_lookup` never answers NULL, and finds the element that the machine finds |
| ListMemory.Program.CountOne | lab4/sltest.c:109-129 | Counting a ring under all locks gives the length of the sequence |
| ListMemory.Program.Move | lab4/sltest.c:177-276 | One step of any thread, wherever it stands: the pointers of all rings do what the machine does to its sequences |
| ListMemory.Program.Play | lab4/sltest.c:177-276 | Over every interleaving of all threads the memory is at every step what the machine is |
| ListMemory.Execute | lab4/sltest.c:384-467 | From the initialization through any interleaving: memory has followed the machine, and when no thread can go on, all rings are empty |
| SharedCounter.LockRuns | lab4/addtest.c:84-113 | From the start, in the mutex and spinlock modes, for any threads and iterations: in every reachable state the counter is what the completed updates add up to and at most one thread is in the section; runs are bounded, and one that cannot go on has finished with the counter at 0 |
| SharedCounter.CasRuns | lab4/addtest.c:114-137 | From the start, in the compare-and-swap mode, below 2^31 increments: the counter is always what the successful swaps add up to; runs are bounded, failing swaps included; the end is 0 |
| SharedCounter.CasStepInv | lab4/addtest.c:120-126 | A successful swap adds to what is there and never loses another thread's update |
| SharedCounter.CasCanOverflow | lab4/addtest.c:116-122 | From 2^31 increments on there is a run in which the `int` sum overflows, so the bound is exact |
| SharedCounter.CasSucceeds | lab4/addtest.c:120-126 | An undisturbed swap succeeds if and only if the counter fits an `int` |
| RoundRobin.ScanIsComplete | weensyos1-sunnie/mpos-kern.c:388-397 | `schedule` ends if and only if some process is runnable, within one round, and picks a runnable one |
| RoundRobin.BoundedWaiting | weensyos1-sunnie/mpos-kern.c:388-397 | A process that stays runnable is picked within as many decisions as there are slots between it and the current one, whatever the others do |
| MposCalls.HandleOk | weensyos1-sunnie/mpos-kern.c:130-248 | Every interrupt, with any registers, keeps the wait invariant; after it a live process runs, the kernel spins only when nothing is runnable, and otherwise a fork was about to copy outside the memory of the applications or the interrupt was unknown |
| MposCalls.WaitInvariantHolds | weensyos1-sunnie/mpos-kern.c:165-241 | Over every run of all system calls with any user code, forks with overlapping stacks included: each blocked process waits for another one in range that is runnable or blocked, and slot 0 stays empty |
| MposCalls.NobodyStranded | weensyos1-sunnie/mpos-kern.c:67-230 | In no run from `start` does anybody wait for a process that has ended or for an empty slot, so a slot that is used again has no old waiters |
| MposCalls.ForkCopies | weensyos1-sunnie/mpos-kern.c:366-372 | What every byte of the child's stack is, also where the ranges overlap: a copy downwards has the byte of the parent before the fork, and a copy upwards the one after it |
| MposCalls.ForkPlace | weensyos1-sunnie/mpos-kern.c:269-375 | The child's stack pointer is as far below the top of its stack as the parent's is below the top of its own; no byte outside the copy and no other slot changes, and the child's registers are the parent's but for stack pointer and result |
| MposCalls.CopiedByte | weensyos1-sunnie/lib.c:16-24 | The loop of `memcpy` on ranges that overlap: a copy to a lower address has the bytes from before, and one to a higher address repeats bytes |
| MposCalls.WhoCanFork | weensyos1-sunnie/mpos-kern.c:366-372 | After a fork parent and child both have the parent's stack, whatever it holds, if and only if the stack is no longer than the distance between the two |
| MposCalls.ForkConfined | weensyos1-sunnie/mpos-kern.c:366-372 | A fork changes nothing but the child's own stack, whatever memory holds, if and only if the parent's stack pointer lies in the parent's own stack |
| MposCalls.ThreadForkFails | weensyos1-sunnie/mpos-kern.c:366-430 | A run from `start`: process 1 makes a thread in slot 2, and its fork into slot 3 copies over what it copies from |
| MposCalls.TurnIsolates | weensyos1-sunnie/mpos-kern.c:311-375 | No system call changes a byte in the stack of a process that neither runs nor is being created |
| MposCalls.RunsAreSafe | weensyos1-sunnie/mpos-kern.c:269-375 | Over every run without new threads, every live process keeps its stack pointer in its own stack |
| MposCalls.StartOk | weensyos1-sunnie/mpos-kern.c:67-115 | What `start` sets up, with process 1 as the current one, meets both invariants |
| MposAnswers.GetpidAnswers | weensyos1-sunnie/mpos-kern.c:143-150 | The caller gets its process ID and nothing else changes |
| MposAnswers.ForkAnswers | weensyos1-sunnie/mpos-kern.c:152-156 | The lowest empty slot becomes a runnable process with the caller's registers but for its stack pointer and 0 in eax; the caller gets the slot number, or -1 if no slot is empty; no other slot changes |
| MposAnswers.YieldKeeps | weensyos1-sunnie/mpos-kern.c:158-163 | No slot changes but for the saved registers, and the runnable process nearest behind the caller runs next |
| MposAnswers.ExitTells | weensyos1-sunnie/mpos-kern.c:165-183 | The caller is a zombie with the signed value of eax for its status, each waiter is runnable with this eax, and no other slot and no other register changes |
| MposAnswers.WaitReaps | weensyos1-sunnie/mpos-kern.c:200-202 | Waiting for a zombie answers its status and empties its slot, and nothing else changes |
| MposAnswers.WaitRefuses | weensyos1-sunnie/mpos-kern.c:196-199 | A process ID out of range, the caller's own or that of an empty slot is answered with -1, and nothing else changes |
| MposAnswers.WaitBlocks | weensyos1-sunnie/mpos-kern.c:203-208 | Waiting for a live process blocks the caller on it, and nothing else changes |
| MposAnswers.KillEnds | weensyos1-sunnie/mpos-kern.c:216-232 | The process killed is a zombie with status 1, its waiters are runnable with the registers they had, the caller gets 0 and runs on, and nothing else changes |
| MposAnswers.KillRefuses | weensyos1-sunnie/mpos-kern.c:212-215 | A process ID out of range or an empty slot is answered with -1, and nothing else changes |
| MposAnswers.KillAsDocumented | weensyos1-sunnie/mpos-app.h:214-215 | The answer is the one the header promises if and only if the process asked for is not a live process 1 |
| MposAnswers.NewthreadAnswers | weensyos1-sunnie/mpos-kern.c:235-241 | The lowest empty slot becomes a runnable process that starts at the address in eax, with 0 in eax and the caller's other registers; the caller gets the slot number, or -1 if no slot is empty |
| MposAnswers.StatusStays | weensyos1-sunnie/mpos-kern.c:130-248 | Over every run: the status of a zombie stays, and it does not run, for as long as nobody waits for it or kills it |
| MposAnswers.ExitThenWait | weensyos1-sunnie/mpos-kern.c:165-202 | Over every run: a wait that comes after the exit answers what the process exited with, whatever went on in between, if nobody else waited for it or killed it |
| MposAnswers.WaitThenExit | weensyos1-sunnie/mpos-kern.c:165-207 | Over every run: a wait that comes before the exit answers what the process exits with in the end |
| MposAnswers.WaitThenKill | weensyos1-sunnie/mpos-kern.c:203-230 | Over every run: a wait that a kill ends answers the process ID it asked for, and no status |
| MposAnswers.AllWaitersTold | weensyos1-sunnie/mpos-kern.c:172-182 | The exit leaves a zombie that can be waited for again, and a waiter is the only one told if and only if it is the only waiter |
| MposAnswers.StatusThrice | weensyos1-sunnie/mpos-kern.c:165-208 | A run from `start` in which one status is given out three times |
| Mpos.Machine.Schedule | weensyos1-sunnie/mpos-kern.c:388-397 | The loop picks what the scan of RoundRobin picks, or spins |
| Mpos.Machine.CopyStack | weensyos1-sunnie/mpos-kern.c:311-375 | The bytes that the loop of `memcpy` leaves, overlapping or not, and the stack pointer of the child |
| Mpos.Machine.DoFork | weensyos1-sunnie/mpos-kern.c:269-309 | The first empty slot becomes the child, or -1 and no change; the copy is refused exactly when it would start below the memory of the applications |
| Mpos.Machine.CreateThread | weensyos1-sunnie/mpos-kern.c:411-430 | The first empty slot becomes the thread, with the parent's stack pointer, or -1 and no change |
| Mpos.Machine.Exit | weensyos1-sunnie/mpos-kern.c:165-182 | The process becomes a zombie with its status, and exactly those who wait for it become runnable and get the status |
| Mpos.Machine.Wait | weensyos1-sunnie/mpos-kern.c:185-208 | The call in place, as the state machine has it: -1 for a process that cannot be waited for, the status of a zombie whose slot becomes empty, and blocking otherwise (MposAnswers.WaitRefuses, WaitReaps and WaitBlocks say each for itself) |
| Mpos.Machine.Kill | weensyos1-sunnie/mpos-kern.c:210-230 | -1 for a slot out of range or empty; otherwise a zombie with status 1 whose waiters become runnable |
| Mpos.Machine.Interrupt | weensyos1-sunnie/mpos-kern.c:130-248 | The handler in place does what the state machine says, for every interrupt number |
| Schedules.RoundRobinPicks | weensyos2/schedos-kern.c:266-275 | Algorithm 0 picks a runnable process if and only if there is one |
| Schedules.PriorityPicks | weensyos2/schedos-kern.c:285-302 | Algorithm 4A picks a process if and only if some runnable one has a priority of at least 0, and then one of the highest priority of all runnable ones |
| Schedules.TopClassTakesTurns | weensyos2/schedos-kern.c:295-302 | A process that stays in the top class is picked within a bounded number of decisions |
| Schedules.NegativePrioritiesSpin | weensyos2/schedos-kern.c:286-301 | Two runnable processes of priority -1, and the scheduler never comes back |
| Schedules.QuantumKeepsCycle | weensyos2/schedos-kern.c:305-357 | With different positive shares, every quantum and every exit keeps the cycle in order, and a cycle that ends has given each process still runnable exactly its share, in one piece, larger shares first |
| Schedules.CyclesAreShort | weensyos2/schedos-kern.c:305-357 | A cycle has at most as many quanta as all shares together, whether it is over or not |
| Schedules.NobodyWaitsLong | weensyos2/schedos-kern.c:305-357 | In every run a process that stays runnable waits for no more quanta than the shares of the other runnable processes together |
| Schedules.FirstCycle | weensyos2/schedos-kern.c:149-161 | The first call of `schedule`, with full counts, begins such a cycle if and only if the slot that it charges with a quantum is not a runnable process, or is the only one, with share 1 |
| Schedules.RunsAreFair | weensyos2/schedos-kern.c:305-357 | Over every run with exits at any time, all completed cycles are like that |
| Schedules.StartedRunsAreFair | weensyos2/schedos-kern.c:88-161 | So are all cycles of every run from the start, if the slot charged first is not a runnable process, and nobody who stays runnable waits for more quanta than the shares of the others together |
| Schedules.EqualSharesStarve | weensyos2/schedos-kern.c:345-350 | Of two runnable processes with the same share the one in the later slot gets no quantum in any run, as long as the earlier one stays runnable |
| Schedules.StarvedFromTheStart | weensyos2/schedos-kern.c:88-161 | So it is in every run from the start, unless the later one is the slot charged first |
| Schedules.PairNeverTurns | weensyos2/schedos-kern.c:305-357 | Two processes with share 2: the first has every quantum, in runs of every length |
| Schedos.Machine.RoundRobin | weensyos2/schedos-kern.c:266-275 | The loop picks what the scan picks |
| Schedos.Machine.Priority | weensyos2/schedos-kern.c:285-302 | The loops pick the next process of the top class |
| Schedos.Machine.SetPriority | weensyos2/schedos-kern.c:222-225 | A new priority counts at once |
| Schedos.Machine.ProportionalShare | weensyos2/schedos-kern.c:304-357 | The loops in place do one turn of the proportional scheduler |
| Schedos.Machine.EndQuantum | weensyos2/schedos-kern.c:189-220 | An exit, a yield or a clock interrupt ends one quantum |
| SparsePrinter.Print | lab3/fsimgtoc.c:16-43 | By the rules of section 6.7.8 of ISO/IEC 9899:1999 the list printed means the bytes read, for every image; it is one that C accepts if and only if something had to be printed |

## Findings

Places where a property fails, with an input, and exactly when it holds.

- **Files beyond 266 blocks.** `indir_index` returns 0 for the blocks below the indirect block and for the first 256
  below the doubly indirect one (`lab3/ospfsmod.c:681-694`). `add_block` is right exactly below 266 blocks
  (`BlockCalls.AddBlockExact`; `Limits.AddPastLimit` reaches a failure), `remove_block` exactly up to 266 and above 522
  blocks (`BlockCalls.RemoveBlockExact`; `Limits.RemovePastLimit`). Formatter and reads are right at all levels.
- **A failed indirect block.** -EIO from `add_block` is not rolled back by `change_size` (`lab3/ospfsmod.c:969-973`): a
  file below ten blocks then has ten, with its bytes kept (`BlockCalls.ChangeSizeExact`). It happens exactly when the
  growth passes ten blocks and the free blocks run out at the indirect block.
- **Sizes above 2^32 - 1024.** The rounding in `ospfs_size2nblocks` wraps (`lab3/ospfsmod.c:138`): `change_size` to such
  a size removes all blocks, reports success and sets the size. The image stays sound exactly for sizes up to 2^32 -
  1024 (last clause of `BlockCalls.ChangeSizeExact`).
- **Link counts of directories.** `ospfs_symlink` adds a link to the directory that nothing takes back
  (`lab3/ospfsmod.c:1510`); the invariant survives exactly until the count wraps (`DirCalls.SymlinkDone`). So does the
  count of a file under `ospfs_link` (`DirCalls.LinkDone`).
- **Targets of symbolic links.** `ospfs_symlink` copies the target without its terminator into an inode that may have
  been used before (`lab3/ospfsmod.c:1498`), where `lab3/ospfs.h:149` draws one. The link leads to its target if and
  only if the byte behind the text was 0 (`Symlinks.LinkLeadsTo`): always in inodes never used, and not for a one-letter
  target in the inode of a file that had mode 0666 (`Limits.StaleTarget`).
- **Refused changes of attributes.** `ospfs_notify_change` asks the VFS after it has changed the size and the mode
  (`lab3/ospfsmod.c:1018`): the change stands also when the answer is an error (`Directories.NotifyChange`).
- **Host files of the same name.** The formatter does not look for the name (`lab3/ospfsformat.c:375-426`): a command
  line such as `a/A b/A` makes an image with the name twice, whose second file is out of reach until the first is
  unlinked (`Limits.NameTwice`). The names of the image are distinct if and only if those of the files are
  (`FormatRun.Format`, and for one file `NamedFiles.NameOnce`). The rest of the invariant holds for every command line.
- **A file that ends on a block boundary** needs one block more on the disk than it keeps, because the end is found with
  a block of its own (`lab3/ospfsformat.c:504-515`; `Copying.Room` and `Formatter.Formatter.WriteData`).
- **MD5 of 2^29 bytes or more.** The carry of the last shift is counted twice (`lab3/md5.c:279-281`). The length words
  are right exactly for the lengths of `Md5.LengthFits`, among them all below 2^29 (`Md5.LengthWords`, `Md5.ShortFits`),
  and wrong for 2^29 (`Md5.FirstMisfit`).
- **SortedList_lookup** returns the first element whatever the key (`lab4/sltest.c:99-103`), against
  `lab4/SortedList.h:55-64`. It agrees exactly when the list is empty or starts with the key (`SortedList.Lookup`). A
  run of the threads still ends with empty lists, because each removal takes some element of the right list.
- **SortedList_delete** answers -1 for an element whose next one does not point back, where `lab4/SortedList.h:48-49`
  names only 0 and 1 (`SortedList.DamagedNeighbour`). Its answer is one of these if and only if the next one points back
  (`SortedList.Checks`).
- **Compare-and-swap through an int.** The counter is a `long long` and its copy an `int` (`lab4/addtest.c:116-126`).
  Below 2^31 increments in all nothing can go wrong (`SharedCounter.CasRuns`); from there on a run overflows
  (`SharedCounter.CasCanOverflow`).
- **Negative priorities.** The search for the top priority starts at 0 (`weensyos2/schedos-kern.c:286`): with negative
  priorities only, the scheduler spins (`Schedules.NegativePrioritiesSpin`, `Schedules.PriorityPicks`).
- **Equal shares.** The process to run is found by its share (`weensyos2/schedos-kern.c:346-350`): of two with the same
  share the later one starves (`Schedules.EqualSharesStarve`, `Schedules.StarvedFromTheStart`). With different shares no
  one does (`Schedules.NobodyWaitsLong`, `Schedules.StartedRunsAreFair`).
- **Forks by threads.** `create_thread` leaves the parent's stack pointer, and `do_fork` assumes the process's own stack
  (`weensyos1-sunnie/mpos-kern.c:366-372`). From the start one new thread is enough: process 1, with one word on its
  stack, makes a thread in slot 2, and when that forks into slot 3 the copy runs over the stack it copies
  (`MposCalls.ThreadForkFails`). Parent and child both have the parent's stack if and only if it is no longer than its
  distance from the child's (`MposCalls.WhoCanFork`), and other stacks are safe if and only if the parent's stack
  pointer is in its own (`MposCalls.ForkConfined`).
- **Statuses given out more than once.** `sys_wait` is to succeed once for each process
  (`weensyos1-sunnie/mpos-app.h:143-146`). The exit tells its status to all who wait, and leaves the zombie in its slot
  (`weensyos1-sunnie/mpos-kern.c:172-182`): with two waiters both get it, and one of them again when it waits again
  (`MposAnswers.StatusThrice`). A waiter is the only one told at the exit if and only if it is the only one
  (`MposAnswers.AllWaitersTold`); after the exit one wait succeeds and empties the slot (`MposAnswers.ExitThenWait`).
  The header's -2 for a process that has not exited is never answered; the caller blocks (`MposAnswers.WaitBlocks`).
- **Waits that a kill ends.** Only the exit passes its status on (`weensyos1-sunnie/mpos-kern.c:221-224`): a waiter
  whose process is killed goes on with its own process ID to wait for as the answer, instead of the status 1
  (`MposAnswers.WaitThenKill`); it has the status if and only if it is the exit that comes (`MposAnswers.WaitThenExit`).
  A kill of a zombie overwrites the status it had with 1 (`MposAnswers.KillEnds`).
- **Killing process 1.** The header promises -1 for it (`weensyos1-sunnie/mpos-app.h:214-215`) and the kernel does not
  look (`weensyos1-sunnie/mpos-kern.c:214`): the answer is as promised if and only if the process asked for is not a
  live process 1 (`MposAnswers.KillAsDocumented`).
- **The first call of the scheduler.** `start` of SchedOS calls `schedule` without ever setting `current`
  (`weensyos2/schedos-kern.c:88-161`), so the slot charged with a quantum is the number that stands at address 0.
  Process 1 with share 2 beside another one is an input: charged first, it has one quantum too few in its first cycle.
  The first cycle is fair if and only if the slot is not a runnable process, as slot 0 never is, or is the only one,
  with share 1 (`Schedules.FirstCycle`).
- **Images of zeros.** The printer prints nothing between the braces, which is no C initializer before C23; the bytes
  meant are right all the same (`SparsePrinter.Print`).

## Left out

- ChangeSize: only for changes that do not lead a file through 267 to 522 blocks when it shrinks, or past 266 when it grows; beyond that `add_block` and `remove_block` fail as the findings say.
- AddBlock: past 266 blocks it says that the file has not grown by one block, and not what became of it.
- LinkBlock: the same, for the words that it changes.
- RemoveBlock: for 267 to 522 blocks it says which block is freed, and not what the file is afterwards.
- UnlinkBlock: the same, for the pointers that it clears.
- ResizeKeepsInvariant: the limits of ChangeSize.
- ChangeSizeExact: the same limits, and the second rollback of `change_size`, after a failing `remove_block`, is not modelled because it never runs.
- NotifyChange: the same limits; what the VFS does with the attributes is one number, its answer.
- Write: files that have to grow past 266 blocks are outside its precondition, as for ChangeSize.
- Serve: a request outside the limits of `Session.Admitted` is answered with -EPERM and changes nothing, where the C program would damage the image.
- CreateBlankDirentry: a directory of 266 or more blocks without an empty entry is outside its precondition, where `add_block` fails as the findings say.
- Create: the same directories are outside its precondition.
- Link: the same directories are outside its precondition.
- Symlink: the same directories are outside its precondition.
- Read: positions and counts are below 2^31, as the VFS keeps them.
- Mount: the module keeps the bitmap and the inodes in arrays of their own; `Mounting` and `InodeTable` prove that they agree with the words of a formatted image, but a file whose pointers lead into the bitmap or the inode blocks is outside this model.
- LinkLeadsTo: a target is read as far as it lies within the inode; without any 0 the C string would go on into the next one.
- Format: names too long for an entry end the run (the C program goes on with a null pointer), and so does a command line without files (it compares a null `argv[4]`); directories (`-r`), symbolic links (`-l`), hard links by content (`-c`) and by host inode are not modelled.
- Getblk: the clock of the cache is unbounded, where the C program counts in an `int`.
- CasRuns: at most 2^31 - 1 increments in all, as CasCanOverflow shows to be necessary.
- RunsAreSafe: the claim about stacks is for runs without new threads, since a new thread has its parent's stack pointer.
- WaitInvariantHolds: a run ends at a fork whose copy would start below the memory of the applications, where it would overwrite the kernel; all other forks are in, and `memcpy` is the loop of `weensyos1-sunnie/lib.c:16-24`, lowest address first.
- StartedRunsAreFair: no process changes its share during the run (`INT_SYS_SHARE`); a `current` past the table at the start, and one that is a runnable process, are outside its precondition.
- Reading past the end of the disk gives zeros in this model, where the C program promises nothing. Bytes that a file gains by growing are whatever its blocks held before, as in the C program.
- Blocks of unlinked files and of inodes that are used again are never given back; the model follows the code there, and proves nothing about the loss.
- `ospfs_dir_readdir`, whose counting of slots and bytes does not fit together; dentries and the names that the VFS remembers by itself, `copy_to_user` failures and the registration with the VFS.
- What the number of links of a directory means; create, link and unlink leave it alone, and `ospfs_symlink` adds one.
- Disks larger than 8192 blocks, which the formatter refuses; one bitmap block is enough.
- Big-endian hosts (`swizzle`) and reading errors of the host.
- `md5_final_text`, and the rotation as an assembler instruction.
- `lab4`: runs without locks, timing, options, and keys with characters above 127; a thread that tries a held spinlock again is not a step.
- `weensyos1-sunnie`: the number of slots is any number here; an unknown interrupt stops the model instead of spinning; processes that wait for each other in a ring are allowed by the code and by the model.
- `weensyos2`: strict priorities (exercise 2), the case of algorithm 4B in which no process is runnable and the table is read past its end, console output.
- The formatting of `fsimgtoc` into lines; its output is modelled as a list of designators and values.
- `lab1-sunnieKim`, boot code, loaders, `lib.c` and the other support files.
