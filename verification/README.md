# UserFS, modelled and proved in Dafny

UserFS is a small filesystem on an image of 32,768 blocks of 512 bytes: a redo journal, bitmap
allocators, inodes with direct, single- and double-indirect pointers, byte files, directories with
hard and symbolic links, a path resolver and copy-backed memory mappings. This project models its C
code, function by function, down to the bytes of the blocks, and proves what each layer promises the
next. `dafny verify dfyconfig.toml` checks the whole of it.

## How the model is built

The disk (`Disk`) is an image of blocks together with the ghost history of writes and syncs. A read sees
every write; a write is durable after the next sync; a crash keeps an arbitrary subset of the unsynced
writes, each block whole. Everything above is executable code over that disk: `Ufs` is the mounted
context (`g_ufs`), arrays are the bitmap and path buffers, `Transaction`, `Files` and `Mappings` are the
transaction struct and the two static tables. A caller's in-memory inode is a value passed in and returned.

The proofs climb through four views of the same disk.

1. `Context.Abs` reads an image as bitmaps, an inode table, data blocks and two counters (`Fs`).
2. `Ownership.Owned` gives every set bit of the data region exactly one owner, a pointer slot of one
   allocated inode, and every pointer a block it owns. `FileContent.FsInv` adds exact counters and, for
   every allocated inode, exactly the blocks its size calls for and zeros behind its end.
3. `FileContent.Content` is the byte sequence of an inode, `Directory.Dir` the finite map a directory
   stands for.
4. `FileTree.TreeOf` is what a user sees: a map from allocated inodes to nodes (type, link count,
   generation, bytes or entries). `FileTree.TreeInv` says it is a tree of directories with exact link
   counts, and `FileTree.SysInv` is the invariant every public operation keeps.

`Context.Ufs` also carries the disk history since the mount. Its `Valid()` says that this history is a
numbered session, `Sessions.SessionOps`: committed transactions with the direct writes and syncs the
operations issue between them. `Mounting.CrashAnywhere` reads that off after any calls whatever.

Every operation of the upper layers is specified by its effect on `TreeOf` as a whole, so "nothing else
changed" is part of each contract, and every failure for want of inodes, blocks or directory slots leaves
`TreeOf` exactly as it was.

The functions those contracts refer to have laws of their own that do not mention them again: `OnDisk` gives
the format in plain numbers, `PathLaws` and `LinkLaws` say what a path and a link mean, `Places` that what is
made is found under its path and what is removed is gone, `FileLaws` how reads, writes and seeks follow one
another.

| file | part of the program |
|---|---|
| Layout, Encoding, OnDisk | geometry, on-disk records, where everything lies on the image |
| Disk, Journal, CrashSafety, Sessions, CrashRuns, Hazards | block device, redo journal, crashes and recovery |
| Context, Mounting | mounted context, superblock, format, mount, unmount |
| Allocator, Ownership, TreeSteps, PointerTree, Trim | bitmaps, pointer tree, lazy allocation, freeing |
| FileContent, Truncate, Accounting | bytes of a file, resizing with exact rollback, block accounting |
| RangeIo, FileIo, Mmap, FileLaws | chunk loops, descriptors, mappings, and what they mean together |
| Paths, ShellPath, PathLaws | normalisers, validator, the meaning of "." and ".." |
| Resolve, LinkLaws | resolver, links and permissions anywhere on a path |
| Directory, FileTree, Effects, Namespace, Places, Runs | directories, the tree, the operations and what they mean for paths, whole runs |

## What turned out not to hold as one might expect

* Commit is not crash-atomic unconditionally. Recovery returns early when the header has no magic number
  and then leaves the commit block alone, a crash while the journal is being cleared can leave a commit
  record behind, and sequence numbers restart at 1 in every process. `CrashRuns.StaleRecordSurvives` gives
  the crash that leaves the record. `CrashRuns.AtomicExactly` gives the exact condition, also for a commit
  that begins with unsynced direct writes: it is not atomic exactly if the commit block already carries its
  number and either the 32-bit sum cannot tell a torn payload from the whole one, or a direct write can be
  lost while the transaction is replayed. `Hazards.HazardExists` shows on every freshly formatted image two
  one-inode updates of two processes, the second of which is torn. `CrashSafety.CommitAtomic` and
  `Sessions.SessionCrash` therefore assume that the commit block does not carry the number of the first
  transaction of a process; every later one is safe.
* The design document allows at most 40 link expansions (DESIGN_Final.md:180). The code allows 40 passes,
  which is 39 expansions: `Resolve.LoopExactly` is stated for the code, and `Resolve.FortyExpansions` is a
  chain of 40 links that ends at a file and gives ELOOP.
* A write with O_APPEND moves the descriptor to the end of the file even when the write then fails.
  `FileIo.FailedWriteMoves` says exactly when a failed write leaves its descriptor alone;
  `FileIo.FailedAppend` is an input where it does not.
* What create has made cannot always be found under its path. The parent is resolved without the last name,
  the path with it, and a link on the way may expand to a path that fits only without. `Places.MadeIsFound`
  has the exact condition, `Places.PathFits`; `Places.MadeNotFound` is such a case: ENAMETOOLONG for a file
  that is there.
* A growth that is rolled back does not restore the bytes of the free blocks it had taken:
  `Truncate.SameStore` is equality of everything except blocks nobody owns.

## Model

| member | source | states |
|---|---|---|
| Disk.RoundPrefix | src/userfs.c:88-118 | cutting a round of writes and a sync short leaves a prefix of the writes pending; after the whole round everything is durable |
| Disk.BlockDisk.WriteBlock | src/userfs.c:88-100 | a valid write is visible at once and recorded as pending, an invalid block number changes nothing |
| Encoding.WordsBlockRoundTrip | src/userfs_storage.c:389-442 | a pointer block is determined by its 128 words |
| Encoding.InodeRoundTrip | src/userfs_storage.c:120-166 | reading back a written inode gives it unchanged, for every inode |
| Encoding.DirentRoundTrip | src/namespace.c:388-394 | reading back a stored entry gives its number, type and name, for every name that fits |
| OnDisk.InodeOnDisk | include/ufs_internal.h:97-119 | inode i lies in block 10 + i/4, 32 words each, and word by word holds type, flags, mode, owner, group, links, size, block count, eight direct pointers, two indirect ones, generation and times |
| OnDisk.BitsOnDisk | src/userfs_storage.c:41-62 | bit b of the bitmaps is bit b mod 8 of byte b/8, from block 1 for inodes and block 2 for blocks |
| OnDisk.ContentOnDisk | src/userfs_storage.c:389-442 | byte p of an inode is byte p mod 512 of the block its pointers lead to: eight direct, 128 behind the single-indirect block, 128 behind each of 128 behind the double-indirect one |
| OnDisk.DirentOnDisk | include/ufs_internal.h:123-131 | entry k of a directory is the 64 bytes from 64k on: used, inode, type, then the name up to its first NUL |
| Journal.CalculateChecksum | src/journal.c:47-55 | the 32-bit byte sum of a block is the true sum; it cannot wrap |
| Journal.SumBlocks | src/journal.c:173-178 | the 32-bit accumulator over at most 124 blocks is the true sum of their bytes, so the checksum of the header is exact |
| Journal.HeaderRoundTrip | src/journal.c:167-178 | recovery reads back from the header block exactly the sequence number, targets and checksum that commit wrote |
| Journal.TxBegin | src/journal.c:61-73 | a transaction starts empty with the next sequence number |
| Journal.TxStageBlock | src/journal.c:75-112 | staging refines map override: targets stay distinct, at most 124, each with its last image; a full transaction or a journal target changes nothing |
| Journal.TxStageInode | src/journal.c:114-147 | staging an inode changes what the transaction holds for that inode only, also when several inodes share a table block |
| Journal.TxCommit | src/journal.c:157-232 | the writes and syncs issued are exactly those of the five-step protocol for the staged images |
| Journal.JournalRecover | src/journal.c:238-312 | recovery issues exactly the replay and clearing writes its checks call for |
| OnDisk.ReplayableOnDisk | src/journal.c:238-295 | what recovery replays, in numbers: both magic words, 1 to 124 targets outside blocks 138 to 2185, equal sequence numbers, payload from block 139 on with the right sum |
| OnDisk.JournalOnDisk | src/journal.c:21-37 | the words of the header and commit blocks |
| CrashSafety.CommitAtomic | src/journal.c:157-312 | a commit that starts on a clean journal, with direct writes pending or not: for every crash point and every surviving subset of unsynced writes, recovery leaves the blocks outside the journal all as before or all overlaid with the staged images, new once the commit record is durable; before means what a crash of the direct writes alone could leave, and after the first sync exactly what had been written; provided the commit block does not already match |
| CrashSafety.CommitDone | src/journal.c:209-231 | a complete commit leaves the staged images in place, durable, with header and commit record cleared |
| CrashSafety.RecoveredIs | src/journal.c:238-312 | outside the journal, recovery is replay of a journal that verifies and nothing otherwise; it always leaves a clean header |
| Sessions.SessionCrash | src/journal.c:157-312 | over any session of commits, abandoned transactions, direct writes and syncs, and a crash at any step, recovery gives what a crash could leave of the run, each transaction one atomic durable step, after a prefix that holds every completed step and at most the one in progress, and that one if its commit record is durable |
| Sessions.NumbersDiffer | src/journal.c:61-73 | two transactions of one session carry different numbers unless 2^32 steps lie between them |
| CrashRuns.SessionAtomic | src/journal.c:157-312 | the case of commits only: recovery gives exactly the effect of a prefix of them that contains every completed one |
| CrashRuns.OneCrash | src/journal.c:267-311 | recovery after a recovery that was cut short anywhere, with any surviving writes, gives the same blocks outside the journal |
| CrashRuns.ManyCrashes | src/journal.c:267-311 | so do any number of interrupted recoveries |
| CrashRuns.AtomicExactly | src/journal.c:157-312 | a commit begun on a clean journal, with any direct writes pending, is atomic exactly if its number is not already in the commit block, or the sum rules out every torn payload and no direct write that can be lost precedes it |
| CrashRuns.StaleRecordSurvives | src/journal.c:222-229 | a crash while clearing can leave a commit record that mount-time recovery does not remove |
| CrashRuns.TwoProcessTear | src/journal.c:40-41 | such a record lets a later process's transaction be torn |
| CrashRuns.OneBlockTear | src/journal.c:247-249 | with one staged block: recovery installs the image the earlier process left in the journal, if both have the same byte sum |
| Hazards.HazardExists | src/journal.c:114-147 | on every formatted image: a process updates inode 4, crashes while clearing, the next mounts, updates inode 8 and crashes; recovery writes the first image over the second target, so inode 8 reads as what was meant for inode 4 |
| Context.SuperRoundTrip | src/userfs.c:136-159 | the counters written in a superblock are read back, and it validates exactly when they are in range |
| OnDisk.SuperblockChecks | src/userfs.c:137-159 | a superblock is accepted exactly if sixteen words have the given values, magic number and version first, and both counters are in range, for every block |
| OnDisk.ZeroRefused | src/userfs.c:137-159 | the zero block is no superblock |
| Context.Ufs.PersistInode | src/file_io.c:44-56 | a journaled inode update changes that inode and nothing else, issues one commit, and leaves everything durable |
| Context.CommitReads | src/journal.c:209-216 | after a commit every inode reads as its last staged value, or as before if it was not staged |
| Mounting.InodeUpdateAtomic | src/journal.c:157-312 | also with direct writes pending: after the first sync, mounting what any crash leaves of an inode update gives the file system before or after it, and after it once the commit record is durable; up to the first sync, what a crash of the direct writes alone could leave |
| Mounting.CrashAnywhere | src/userfs.c:287-354 | whatever has been done to a mounted file system, a crash at any step since the mount recovers to what a crash could leave of a prefix of the session with its transactions atomic, all completed ones included |
| Mounting.DurableSurvives | src/userfs.c:287-354 | after an operation that ends in a sync, whatever a crash leaves mounts as the file system of that moment |
| Allocator.BitsUpdate | src/userfs_storage.c:49-62 | setting or clearing a bit in the byte array changes that bit and no other |
| Allocator.AllocateDataBlock | src/userfs_storage.c:310-350 | the first free data block, zeroed, its bit set and the counter one less; fails exactly when none is free, changing nothing |
| Allocator.FreeDataBlock | src/userfs_storage.c:352-383 | clears the bit and counts it; refuses blocks outside the data region; freeing a free block changes nothing |
| Allocator.AllocateInode | src/userfs_storage.c:172-225 | the first free slot after the root, empty, with the next generation; fails exactly when none is free |
| Ownership.Exclusive | src/userfs_storage.c:310-383 | two pointers of allocated inodes that name the same block are the same pointer, and the block's bit is set in the data region |
| Ownership.OwnerUnique | src/userfs_storage.c:310-383 | the owner of every block is determined by the disk |
| PointerTree.GetInodeDataBlock | src/userfs_storage.c:389-442 | the pointer of the logical block through all three levels, absent if any level is |
| PointerTree.EnsureInodeDataBlock | src/userfs_storage.c:444-569 | the block is present afterwards, new pointers lie only on the path to it and cost one free block each, new data blocks are zero; succeeds exactly when the missing blocks are free, and then a changed inode is on the disk |
| TreeSteps.GrownSlots | src/userfs_storage.c:444-569 | ensure keeps every pointer that was there, and any that changed is on the path to the requested block of this inode |
| Trim.FreeInodeBlocksAfter | src/userfs_storage.c:571-726 | exactly the blocks and pointer blocks a file of the kept length does not need are given back; all others, and their bytes, stay |
| Truncate.GrowBlocks | src/userfs_storage.c:747-762 | growth from m to n blocks succeeds exactly when the difference in cost is free; a failure at any allocation, pointer blocks included, restores the mapping, the bitmap, the counters and every owned block |
| Truncate.Rollback | src/userfs_storage.c:747-761 | an undone growth gives back the whole store: with the owner map restored, bitmap, inodes and pointer blocks are what they were |
| Truncate.TruncateInode | src/userfs_storage.c:732-791 | the content is cut or extended with zeros, every other content is unchanged, the invariant holds; EFBIG and ENOSPC exactly when they should |
| Accounting.FileCost | src/userfs_storage.c:444-726 | a file of n blocks owns n + [n>8] + [n>136](1 + ceil((n-136)/128)) blocks |
| Accounting.BlocksConserved | src/userfs_storage.c:310-383 | free blocks plus the cost of all files is the size of the data region |
| RangeIo.ReadChunks | src/file_io.c:288-321 | the block-by-block copy loop returns exactly the requested slice of the content |
| RangeIo.WriteChunks | src/file_io.c:397-444 | the read-modify-write loop splices the buffer into the content and changes no other |
| FileIo.ValidateOpenFlags | src/file_io.c:114-129 | exactly five flag combinations are accepted |
| FileIo.Open | src/file_io.c:166-226 | the first error in the order of the code, or the first free descriptor set to the resolved file with its generation; handles stay good |
| FileLaws.OpenNeeds | src/file_io.c:166-226 | open gives inode i exactly if the flags are among five, the path leads to i with links followed, i is a regular file and grants what the flags will use |
| FileLaws.FlagsMean | src/file_io.c:155-164 | which of the five kinds of descriptor may read, write or append |
| FileIo.Files.InodeIsOpen | src/file_io.c:63-75 | true exactly when a descriptor in use refers to the inode |
| FileIo.Files.Close | src/file_io.c:228-239 | frees that descriptor and no other |
| FileIo.Read | src/file_io.c:241-334 | returns content[offset..min(offset+count, size)] and advances the offset by its length; the tree is unchanged |
| FileLaws.ReadTwice | src/file_io.c:277-331 | two reads in a row return what one read of both counts returns |
| FileLaws.ReadMeans | src/file_io.c:277-331 | the bytes from the offset on, as many as asked for or as there are |
| FileIo.Write | src/file_io.c:336-454 | old content zero-padded to the start with the buffer spliced in, at the end with O_APPEND, all of it durable; a failure leaves the tree unchanged; FileLaws says what the resulting offset and content are |
| FileLaws.WriteMeans | src/file_io.c:374-448 | a successful write takes the whole buffer, leaves its descriptor behind the last byte written, from the end if the append bit is set, every other descriptor alone, and changes the bytes of this file only |
| FileLaws.WriteFits | src/file_io.c:380-395 | a write inside the file always succeeds, one past 16520 blocks never |
| FileLaws.WriteTwice | src/file_io.c:374-448 | two writes in a row leave the content and the offset of one write of both buffers |
| FileLaws.ReadBack | src/file_io.c:241-454 | moved back by a seek, a descriptor that may read gets back exactly what it wrote |
| FileIo.FailedWriteMoves | src/file_io.c:374-397 | a failed write leaves the descriptors as they were exactly if it was refused before the append position was taken, or does not append, or stood at the end |
| FileIo.FailedAppend | src/file_io.c:374-397 | an input where it does not: an oversized append to any non-empty file |
| FileIo.TruncatePath | src/userfs_storage.c:793-836 | truncate by path: the first error, or the content resized and durable |
| FileLaws.TruncateNeeds | src/userfs_storage.c:793-836 | truncate by path follows links to a regular file that grants writing; cutting then always succeeds |
| FileIo.AddSeekOffset | src/file_io.c:456-478 | for every unsigned 64-bit base and signed change: refused exactly if the sum is negative, or above the largest offset with a change that is not negative; otherwise the sum, converted to an offset; for a base that is an offset this is base + change exactly when that is in range |
| FileIo.Seek | src/file_io.c:480-521 | the new offset relative to start, position or end, or the error and no change |
| FileLaws.SeekTwice | src/file_io.c:480-521 | a seek and a relative seek add up |
| FileLaws.ReadAgain | src/file_io.c:480-521 | a relative seek back over what was read restores the table |
| FileLaws.SeekEndAppends | src/file_io.c:480-521 | after a seek to the end a write appends |
| FileIo.HandlesKept | src/file_io.c:241-454 | reads, writes and seeks keep every descriptor on an allocated regular file with its generation |
| FileIo.NeverStale | src/file_io.c:272-275 | with good handles the stale-generation check never fires |
| FileLaws.StaleRefused | src/file_io.c:272-275 | a descriptor from an earlier life of its inode can neither read, write, seek nor map |
| Mmap.Map | src/mmap_io.c:239-335 | the first error, or a new slot whose memory holds the file from the offset on, then zeros |
| FileLaws.MapNeeds | src/mmap_io.c:239-290 | a mapping needs a descriptor that may read, a shared writable one also one that may write |
| FileLaws.MapAllowed | src/mmap_io.c:239-290 | and with such a descriptor every range that fits is accepted |
| Mmap.Mappings.InodeIsMapped | src/mmap_io.c:473-490 | true exactly when a mapping in use refers to the inode |
| Mmap.WriteInodeRange | src/mmap_io.c:129-201 | the write behind a mapping: content extended and spliced, durable, or an error and no change |
| Mmap.Msync | src/mmap_io.c:337-366 | the first bytes of a shared writable mapping are in the file and durable, anything else is left alone |
| FileLaws.SyncReaches | src/mmap_io.c:217-237 | a private or read-only mapping never changes the file; after synchronising a shared writable one the file reads as the memory did, and no other node has changed |
| Mmap.Munmap | src/mmap_io.c:368-408 | synchronises the whole mapping, then frees the slot; a failed write-back keeps it |
| Mmap.WindowUntouched | src/mmap_io.c:129-201 | writing a range back where it was read from only extends the content with zeros |
| Mmap.UntouchedSync | src/mmap_io.c:217-237 | so mapping and msyncing without touching leaves the old content, zero-extended to the end of the range if shared and writable |
| Paths.NormalizedCanonical | src/namespace.c:110-169 | whatever the normaliser accepts, its output is a valid path |
| Paths.CanonicalFixed | src/namespace.c:24-62 | the valid paths are exactly the fixed points of normalisation |
| Paths.NormalizedCompose | src/namespace.c:110-169 | normalising p followed by /q continues from the components of p |
| Paths.RenderInjective | src/namespace.c:110-169 | different component lists are different paths |
| PathLaws.ParentUndoes | src/namespace.c:144-149 | p/x/../q normalises to what p/q does, provided p/x is accepted, and fails as p/x does otherwise |
| PathLaws.RootIsItsParent | src/namespace.c:144-149 | /../q is /q |
| PathLaws.DotStays | src/namespace.c:141-143 | p/./q is p/q |
| PathLaws.NameEntered | src/namespace.c:110-169 | a name behind a canonical path is appended if it has at most 31 bytes and the result at most 255, and refused otherwise |
| Paths.ValidatePath | src/namespace.c:24-62 | accepts exactly the canonical paths |
| Paths.NormalizeAbsolutePath | src/namespace.c:110-169 | computes the fold of the components, with the same failures, never past the end of the output or of the array of starts; PathLaws says what the fold does |
| ShellPath.NormalizeShellPath | apps/userfs_shell.c:47-114 | the shell's backward scan computes the same normal form, and for relative input that of cwd/input |
| PathLaws.ShellParent | apps/userfs_shell.c:47-114 | ../q read in directory d/x is d/q |
| PathLaws.ShellRootParent | apps/userfs_shell.c:47-114 | and at the root /q |
| PathLaws.ShellName | apps/userfs_shell.c:47-114 | a plain name is read in the current directory, an absolute path is not |
| ShellPath.ShellCanonical | apps/userfs_shell.c:47-114 | its output is a valid path |
| Directory.EntryMapInsert | src/namespace.c:387-394 | filling a free slot with a new name inserts it in the map the table stands for |
| Directory.EntryMapDelete | src/namespace.c:459-464 | clearing a slot removes its name |
| Directory.GrownDirectory | src/namespace.c:403-428 | one more block keeps the entries, adds the new one and seven free slots, and keeps the invariant |
| Directory.DirectoryFind | src/namespace.c:64-106 | map lookup, with ENOTDIR and ENOENT |
| Directory.DirectoryAdd | src/namespace.c:349-430 | map insertion; ENOSPC exactly when every slot is used and either eight blocks are held or none is free, changing nothing |
| Directory.DirectoryRemove | src/namespace.c:432-468 | map deletion |
| Directory.DirectoryIsEmpty | src/namespace.c:470-499 | emptiness of the map |
| Resolve.ReadSymlinkTarget | src/namespace.c:171-191 | the stored text, or EIO when the size is out of range |
| Resolve.ResolveAbsolute | src/namespace.c:193-296 | one pass of the component loop and the recursive passes compute iterated path rewriting, for which LinkLaws says where a link leads; no buffer overflows |
| Resolve.ResolvePathEx | src/namespace.c:303-319 | flag and path checks, then resolution in at most forty passes |
| Resolve.ResolveParent | src/namespace.c:321-347 | the resolved directory of the last component, and that component |
| Resolve.Resolved | src/namespace.c:193-296 | a path resolves to i only if fewer than the allowed number of rewrites lead to a path that plain descent through the directory maps takes to i |
| Resolve.LoopExactly | src/namespace.c:200-203 | ELOOP exactly when one pass more than allowed would be needed |
| Resolve.MoreDepth | src/namespace.c:200-203 | allowing more depth changes no answer other than ELOOP |
| Resolve.SelfLink | src/namespace.c:242-271 | a link to itself never settles and always gives ELOOP |
| Resolve.ChainResolves | src/namespace.c:193-296 | a chain of n links settles after exactly n rewrites: it resolves to its end if more than n passes are allowed and gives ELOOP otherwise |
| Resolve.FortyExpansions | src/namespace.c:200-203 | a chain of forty links gives ELOOP, although one more pass would resolve it |
| LinkLaws.LinkTextRead | src/namespace.c:242-271 | a link anywhere on a path: a relative text is read from the directory that holds the link, an absolute one from the root, and the rest of the path follows |
| LinkLaws.RelativeLink | src/namespace.c:260-261 | a link to a name jumps to that name beside it |
| LinkLaws.AbsoluteLink | src/namespace.c:254-256 | a link to an absolute path jumps there |
| LinkLaws.ParentLink | src/namespace.c:256-262 | a link to ../t jumps to t beside the directory that holds it |
| LinkLaws.JumpResolves | src/namespace.c:270 | a path that jumps resolves as the path it jumps to, with one pass less |
| LinkLaws.FinalLinkFound | src/namespace.c:242-243 | without following, a final link is found itself |
| LinkLaws.FollowedIsNoLink | src/namespace.c:242-243 | with following, the answer is never a link |
| LinkLaws.SearchNeeded | src/namespace.c:217-222 | a path that is walked to its end has only directories on the way that may be searched |
| LinkLaws.SearchDenied | src/namespace.c:217-222 | a directory that may not be searched stops every path through it with EACCES |
| Resolve.ResolversAgree | src/namespace.c:193-347 | what no-follow resolution finds is the entry of the last name in the directory resolve_parent finds, through any chain of expansions |
| Resolve.LstatSeesUnlinked | src/namespace.c:321-347 | the same for every valid path but "/" |
| FileTree.NoCycle | src/namespace.c:501-559 | no path leads from a directory back to itself |
| FileTree.Reachable | src/namespace.c:501-559 | every allocated inode has a path from the root |
| FileTree.AddNode | src/namespace.c:501-559 | a new node under a new name keeps the tree invariant |
| FileTree.AddLink | src/namespace.c:835-839 | so does one more name for a file or link |
| FileTree.DropLink | src/namespace.c:671-694 | and one name less, with the inode when it was the last |
| Effects.FreeInode | src/userfs_storage.c:232-284 | the node leaves the tree, its blocks are given back, its generation stays, the root is refused |
| Effects.TakenInode | src/userfs_storage.c:172-225 | a slot handed out holds no block and disturbs no invariant |
| Namespace.CreateNode | src/namespace.c:501-569 | create and mkdir: the first error in the order of the code, or exactly one new empty node under the name; every failure leaves the tree unchanged |
| Namespace.Rmdir | src/namespace.c:571-629 | removes exactly the empty directory and its entry |
| Namespace.Unlink | src/namespace.c:631-703 | removes exactly the entry, and the inode with its last link; refuses open and mapped files |
| Namespace.Link | src/namespace.c:790-854 | adds exactly one entry and one link |
| Namespace.Symlink | src/namespace.c:856-944 | one new node holding exactly the text, or nothing, with inode and block given back |
| Namespace.Readlink | src/namespace.c:946-977 | the text given to symlink, cut to the buffer |
| Namespace.LinkReadable | src/namespace.c:171-191 | every symbolic link of a sound file system can be read in full |
| Namespace.DropKeepsHandles | src/namespace.c:667-670 | unlink and rmdir never take an inode from under a descriptor or a mapping |
| Places.PlaceIs | src/namespace.c:511-525 | create, mkdir, rmdir, unlink, link and symlink act under the last name of the path, in the directory the path before it resolves to, which grants writing and searching |
| Places.PlaceExists | src/namespace.c:511-525 | and there is such a place whenever that directory grants both and has, or lacks, the name |
| Places.PlaceEntry | src/namespace.c:588-606 | the entry found there is what resolving the path without following finds |
| Places.MakingSucceeds | src/namespace.c:501-944 | create, mkdir, link and symlink succeed exactly if there is a place, an inode and block where one is needed, and a directory of fewer than eight names to a block or with a further block to be had |
| Places.RemovingSucceeds | src/namespace.c:571-703 | rmdir succeeds exactly on empty directories, unlink on anything else that is neither open nor mapped |
| Places.MadeIsFound | src/namespace.c:501-944 | what create, mkdir or symlink made is found under its path exactly if no expansion on the way grows too long, and every path that resolved before resolves as before |
| Places.MadeNotFound | src/namespace.c:252-268 | a case where it is not |
| Places.LinkBothFound | src/namespace.c:790-854 | after link both paths resolve to the same inode |
| Places.RemovedIsGone | src/namespace.c:571-703 | a path that rmdir or unlink removed gives ENOENT |
| Places.CreateThenOpen | src/namespace.c:501-569 | the created file can be opened under its path, and is empty |
| Places.SymlinkThenReadlink | src/namespace.c:856-977 | readlink of a new link gives the text it was made with |
| Places.LinkItself | src/namespace.c:790-977 | link and readlink act on a final link itself |
| Places.LinkOpened | src/file_io.c:166-226 | open and truncate act on what a final link leads to |
| Runs.Execute | src/namespace.c:501-944 | any sequence of calls of the seventeen kinds, run through the modelled operations themselves: every state on the way has the tree invariant and only good handles and mappings, and every step moves generations forward |
| Runs.FormatAndRun | src/userfs.c:174-354 | the same from a newly formatted and mounted image, starting at the empty tree |
| Runs.OpenFilePinned | src/file_io.c:166-226 | in any such run, two states in which a descriptor is open on the same inode with the same generation agree on the type and the generation of that inode, whatever was done in between, reads, writes and seeks of the descriptor included |
| Runs.NeverReissued | src/userfs_storage.c:201-212 | two lives of an inode slot have the same generation exactly when the 32-bit counter has gone all the way round between them |
| Mounting.Format | src/userfs.c:174-284 | the image is durable and blank: its superblock describes an empty file system, only the root inode and the reserved blocks are marked, journal and inode table are empty |
| Mounting.BlankInv | src/userfs.c:174-284 | such an image satisfies every invariant and is the empty tree |
| Mounting.Mount | src/userfs.c:287-354 | succeeds exactly when the superblock, as OnDisk.SuperblockChecks has it, validates before and after recovery, and otherwise writes nothing but the recovery; the result is the recovered image read with its own superblock, marked dirty and durable; this state is where its session starts |
| Mounting.Unmount | src/userfs.c:356-387 | refused while a mapping is active; otherwise the superblock is flushed, everything is durable and all descriptors are closed |
| Mounting.Remount | src/userfs.c:287-387 | an unmounted image mounts again as the same file system |
| Mounting.FormatMounts | src/userfs.c:174-354 | a formatted image validates, recovery leaves it alone, and it mounts as the empty tree with every invariant |

## Left out

- Host file I/O and its errors (`pread`, `pwrite`, `fsync`, `ftruncate`, short transfers): replaced by the block device of `Disk`; the only failures modelled are running out of inodes, blocks, slots or descriptors, invalid arguments and crashes.
- Branches that only an I/O error or a null pointer can reach, among them the re-insertion of an entry when `free_inode` fails; null arguments cannot be written in the model.
- `src/ufs_sync.c`, locking and several processes at once: one process at a time is modelled, with crashes and restarts.
- Crash consistency of whole operations such as create or truncate: bitmaps, directories and data bypass the journal in the code too; Sessions.SessionCrash and Mounting.CrashAnywhere say which states a crash can leave, not that they satisfy the invariants of the tree.
- Permission bits, umask, ownership and the values of time stamps (`src/metadata.c`): access is an arbitrary predicate of the inode, times and the relatime decision are arbitrary arguments.
- `listdir`, `stat`, `lstat`, `chmod`, `chown`, `utimens`, `access`: they copy fields of an inode that resolution has found.
- Host `mmap`, `mprotect`, `munmap`: a mapping is a byte array, its protection is not enforced on the array.
- The shell's commands, parsing and printing, apart from its path normaliser.
- `errno` beyond the kind of failure.
- The superblock's 428 padding bytes are zero in the model after any flush, and integers are stored least significant byte first.
- Resolve.ResolveAbsolute: the resolver as coded is modelled on file systems whose directories are sound, so its EIO and invalid-number branches for damaged directories are not; Resolve.LoopExactly, Resolve.MoreDepth and Resolve.ResolversAgree hold of every file system value.
- CrashSafety.CommitAtomic: assumes that the commit block does not already match the transaction, because the code does not ensure it; CrashRuns.AtomicExactly gives the exact condition.
- Sessions.SessionCrash: assumes the same of the first transaction of the session only.
- Places.MadeIsFound: assumes that the new state's directories may be searched, since access is an arbitrary predicate of the inode and an operation changes time stamps; the same holds of the other round trips.
- Mounting.Mount: does not assume or establish the invariants of the file system on the image; a damaged image with a valid superblock mounts, as in the code.
