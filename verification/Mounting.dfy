/** Making, mounting and unmounting an image (src/userfs.c). */
module Mounting {
  import opened Layout
  import opened Encoding
  import opened Disk
  import opened Journal
  import opened CrashSafety
  import opened Sessions
  import opened Context
  import opened Allocator
  import opened Ownership
  import opened FileContent
  import opened Directory
  import opened FileTree
  import opened Effects
  import opened FileIo
  import opened Mmap

  // ---- format ----

  const FEATURES: u32 := 7

  /** The superblock of an empty image. */
  const EMPTY_SUPER := Superblock(MAX_INODES - 1, DATA_BLOCKS, 1, STATE_CLEAN, FEATURES)

  function RootInode(uid: u32, gid: u32, times: Times): Inode {
    InitInode(TYPE_DIR).(mode := 0x1ED, uid := uid, gid := gid, links := 1, generation := 1, times := times)
  }

  /** The tree of an empty image: a root directory and nothing else. */
  function EmptyTree(): Tree { map[ROOT_INODE := Node(TYPE_DIR, 1, 1, [], map[])] }

  lemma EmptyTreeInv()
    ensures TreeInv(EmptyTree())
  {
    var t, rank: map<nat, nat> := EmptyTree(), map[ROOT_INODE := 0];
    assert Ranked(t, rank);
  }

  /** A file system with only the root inode allocated and every data block free. */
  ghost predicate Blank(fs: Fs) {
    && WellFormed(fs)
    && (forall b :: 0 <= b < TOTAL_BLOCKS ==> (fs.bits[b] <==> b < DATA_START))
    && (forall i :: 0 <= i < MAX_INODES ==> (fs.ibits[i] <==> i == ROOT_INODE))
    && fs.freeBlocks == DATA_BLOCKS && fs.freeInodes == MAX_INODES - 1
    && exists uid, gid, times :: fs.inodes[ROOT_INODE] == RootInode(uid, gid, times)
  }

  lemma BlankBlocks(fs: Fs)
    requires Blank(fs)
    ensures |FreeSet(fs.bits)| == DATA_BLOCKS
  {
    hide Range;
    RangeSize(DATA_START, TOTAL_BLOCKS);
    assert FreeSet(fs.bits) == Range(DATA_START, TOTAL_BLOCKS);
  }

  lemma BlankInodes(fs: Fs)
    requires Blank(fs)
    ensures |FreeInodes(fs.ibits)| == MAX_INODES - 1
  {
    hide Range;
    RangeSize(1, MAX_INODES);
    assert FreeInodes(fs.ibits) == Range(1, MAX_INODES);
  }

  /** An empty image satisfies every invariant. */
  lemma BlankInv(fs: Fs)
    requires Blank(fs)
    ensures SysInv(fs, map[]) && TreeOf(fs) == EmptyTree()
  {
    hide SlotVal, Content, Slots, EntryMap, UniqueNames, FreeSet, FreeInodes, TreeInv;
    BlankBlocks(fs);
    BlankInodes(fs);
    var root := fs.inodes[ROOT_INODE];
    forall s ensures Val(fs, ROOT_INODE, s) == INVALID {
      FreshPointers(fs.data, root, s);
    }
    EmptyInode(fs, ROOT_INODE);
    EmptyTable();
    assert Owned(fs, map[]);
    EmptyTreeInv();
    assert TreeOf(fs) == EmptyTree();
  }

  lemma {:induction false} ZeroBit(k: nat)
    ensures !Bit(0, k)
  {
    if k > 0 {
      ZeroBit(k - 1);
    }
  }

  lemma ZeroBits(bs: Bytes, k: nat)
    requires k < 8 * |bs| && forall p :: 0 <= p < |bs| ==> bs[p] == 0
    ensures !Bits(bs)[k]
  {
    ZeroBit(k % 8);
  }

  /** The inode bitmap with the root's bit. */
  method RootBitmap() returns (blk: Block)
    ensures forall i :: 0 <= i < MAX_INODES ==> (InodeBits(blk)[i] <==> i == ROOT_INODE)
  {
    hide Bits, Bit;
    var bm := new byte[BLOCK_SIZE](_ => 0);
    ghost var zero := bm[..];
    forall i | 0 <= i < MAX_INODES ensures !Bits(zero)[i] {
      ZeroBits(zero, i);
    }
    BitmapSet(bm, ROOT_INODE);
    blk := bm[..];
  }

  /** The block bitmap with every block before the data region marked. */
  method ReservedBitmap() returns (bm: array<byte>)
    ensures fresh(bm) && bm.Length == BLOCK_BITMAP_BLOCKS * BLOCK_SIZE
    ensures forall b :: 0 <= b < TOTAL_BLOCKS ==> (Bits(bm[..])[b] <==> b < DATA_START)
  {
    hide Bits, Bit;
    bm := new byte[BLOCK_BITMAP_BLOCKS * BLOCK_SIZE](_ => 0);
    ghost var zero := bm[..];
    forall b | 0 <= b < TOTAL_BLOCKS ensures !Bits(zero)[b] {
      ZeroBits(zero, b);
    }
    for n := 0 to DATA_START
      invariant forall b :: 0 <= b < TOTAL_BLOCKS ==> (Bits(bm[..])[b] <==> b < n)
    {
      BitmapSet(bm, n);
    }
  }

  method WriteBitmap(disk: BlockDisk, bm: array<byte>)
    requires disk.Valid() && bm.Length == BLOCK_BITMAP_BLOCKS * BLOCK_SIZE
    modifies disk
    ensures disk.Valid() && BitmapWritten(old(disk.image), disk.image, bm[..], BLOCK_BITMAP_BLOCKS)
  {
    hide Overlay;
    ghost var img, bytes := disk.image, bm[..];
    for i := 0 to BLOCK_BITMAP_BLOCKS
      invariant disk.Valid() && BitmapWritten(img, disk.image, bytes, i)
    {
      var _ := disk.WriteBlock(BLOCK_BITMAP_BLK + i, bm[BLOCK_SIZE * i..BLOCK_SIZE * i + BLOCK_SIZE]);
      assert Chunk(bytes, i) == bm[BLOCK_SIZE * i..BLOCK_SIZE * i + BLOCK_SIZE];
    }
  }

  method ZeroImage(disk: BlockDisk)
    requires disk.Valid()
    modifies disk
    ensures disk.Valid() && forall k :: 0 <= k < TOTAL_BLOCKS ==> disk.image[k] == ZeroBlock()
  {
    hide Overlay, ZeroBlock;
    for b := 0 to TOTAL_BLOCKS
      invariant disk.Valid() && forall k :: 0 <= k < b ==> disk.image[k] == ZeroBlock()
    {
      var _ := disk.WriteBlock(b, ZeroBlock());
    }
  }

  lemma BitmapElsewhere(img: Image, img': Image, bytes: Bytes, b: BlockNum)
    requires |bytes| == BLOCK_BITMAP_BLOCKS * BLOCK_SIZE && BitmapWritten(img, img', bytes, BLOCK_BITMAP_BLOCKS)
    requires b < BLOCK_BITMAP_BLK || b >= INODE_TABLE_START
    ensures img'[b] == img[b]
  {
  }

  /** Behind the first block of the inode table a formatted image is zero. */
  ghost predicate ZeroBehind(img: Image) {
    forall b: BlockNum :: b > INODE_TABLE_START ==> img[b] == ZeroBlock()
  }

  lemma StillZero(zero: Image, img: Image, img': Image, bytes: Bytes, root: Block)
    requires |bytes| == BLOCK_BITMAP_BLOCKS * BLOCK_SIZE && BitmapWritten(img, img', bytes, BLOCK_BITMAP_BLOCKS)
    requires forall k :: 0 <= k < TOTAL_BLOCKS ==> zero[k] == ZeroBlock()
    requires forall b: BlockNum :: b > INODE_TABLE_START ==> img[b] == zero[b]
    ensures ZeroBehind(img'[INODE_TABLE_START := root])
  {
    hide ZeroBlock;
    var last := img'[INODE_TABLE_START := root];
    forall b: BlockNum | b > INODE_TABLE_START ensures last[b] == ZeroBlock() {
      BitmapElsewhere(img, img', bytes, b);
      assert last[b] == img'[b];
    }
  }

  /** What ufs_format leaves. */
  ghost predicate Formatted(img: Image) {
    && img[SUPERBLOCK_BLK] == SuperBlock(EMPTY_SUPER) && CleanHeader(img) && Blank(Abs(img, EMPTY_SUPER))
    && ZeroBehind(img)
  }

  /** ufs_format: afterwards the image is durable and blank. */
  method Format(disk: BlockDisk, uid: u32, gid: u32, now: Times)
    requires disk.Valid()
    modifies disk
    ensures disk.Valid() && disk.State() == DiskState(disk.image, []) && Formatted(disk.image)
  {
    hide Abs, SuperBlock, Overlay, Bits, HeaderOf, WithInode, ZeroBlock, InodeBits, BitmapWritten, Blank, RootInode,
      ZeroBehind;
    ZeroImage(disk);
    ghost var zero := disk.image;
    var _ := disk.WriteBlock(SUPERBLOCK_BLK, SuperBlock(EMPTY_SUPER));
    var inodeBitmap := RootBitmap();
    var _ := disk.WriteBlock(INODE_BITMAP_BLK, inodeBitmap);
    var bm := ReservedBitmap();
    ghost var img, bytes := disk.image, bm[..];
    WriteBitmap(disk, bm);
    ghost var img' := disk.image;
    var root := RootInode(uid, gid, now);
    var _ := disk.WriteBlock(INODE_TABLE_START, WithInode(ZeroBlock(), ROOT_INODE, root));
    BitmapElsewhere(img, img', bytes, INODE_TABLE_START);
    BitmapElsewhere(img, img', bytes, JOURNAL_START);
    BitmapElsewhere(img, img', bytes, SUPERBLOCK_BLK);
    assert img'[INODE_TABLE_START] == zero[INODE_TABLE_START];
    StillZero(zero, img, img', bytes, WithInode(ZeroBlock(), ROOT_INODE, root));
    assert disk.image[JOURNAL_START] == zero[JOURNAL_START];
    disk.SyncImage();
    FormattedBlank(img, img', disk.image, bytes, uid, gid, now);
    ZeroRecords(0);
  }

  lemma FormattedBlank(img: Image, img1: Image, img2: Image, bytes: Bytes, uid: u32, gid: u32, now: Times)
    requires |bytes| == BLOCK_BITMAP_BLOCKS * BLOCK_SIZE && BitmapWritten(img, img1, bytes, BLOCK_BITMAP_BLOCKS)
    requires forall b :: 0 <= b < TOTAL_BLOCKS ==> (Bits(bytes)[b] <==> b < DATA_START)
    requires forall i :: 0 <= i < MAX_INODES ==> (InodeBits(img[INODE_BITMAP_BLK])[i] <==> i == ROOT_INODE)
    requires img2 == img1[INODE_TABLE_START := WithInode(img1[INODE_TABLE_START], ROOT_INODE, RootInode(uid, gid, now))]
    ensures Blank(Abs(img2, EMPTY_SUPER))
  {
    hide Bits, InodeIn, WithInode, BitmapBytes, InodeTable, DataRegion, Chunk;
    var fs, fs1, fs2 := Abs(img, EMPTY_SUPER), Abs(img1, EMPTY_SUPER), Abs(img2, EMPTY_SUPER);
    AbsShape(img2, EMPTY_SUPER);
    AbsShape(img1, EMPTY_SUPER);
    AbsBitmap(img, img1, EMPTY_SUPER, bytes);
    AbsInode(img1, EMPTY_SUPER, ROOT_INODE, RootInode(uid, gid, now));
    assert InodeBlock(ROOT_INODE) == INODE_TABLE_START;
    assert fs2.bits == Bits(bytes) && fs2.ibits == InodeBits(img[INODE_BITMAP_BLK]);
  }

  // ---- mount ----

  lemma RecoverDurable(img: Image)
    ensures Run(DiskState(img, []), RecoverOps(img)) == DiskState(Recovered(img), [])
  {
    hide Overlay, HeaderOf, Writes, Replayable, JournalPuts, View;
    ViewDurable(img);
    RunNothing(DiskState(img, []));
    var ops := RecoverOps(img);
    if ops != [] {
      assert ops[|ops| - 1] == Sync;
      ViewDurable(View(Run(DiskState(img, []), ops[..|ops| - 1])));
    }
  }

  /** What mounting an image gives. */
  ghost predicate MountsAs(img: Image, u: Ufs)
    reads u, u.disk, u.clock
  {
    && u.Valid() && u.Durable() && u.Boot() == u.disk.State()
    && (forall n: BlockNum :: n != SUPERBLOCK_BLK ==> u.disk.image[n] == Recovered(img)[n])
    && u.fs == Abs(Recovered(img), SuperblockOf(Recovered(img)[SUPERBLOCK_BLK]))
    && u.sb == SuperblockOf(Recovered(img)[SUPERBLOCK_BLK]).(state := STATE_DIRTY)
  }

  /** ufs_mount: replay the journal, read the superblock again, mark it dirty. */
  method Mount(disk: BlockDisk, files: Files) returns (r: Result<Ufs>)
    requires disk.Valid() && disk.State() == DiskState(disk.image, []) && files.Valid()
    modifies disk, files.table
    ensures r.Ok? <==> ValidSuper(old(disk.image)[SUPERBLOCK_BLK])
                       && ValidSuper(Recovered(old(disk.image))[SUPERBLOCK_BLK])
    ensures r.Err? ==> r.error == EINVAL && files.table[..] == old(files.table[..])
    ensures !ValidSuper(old(disk.image)[SUPERBLOCK_BLK]) ==> disk.trace == old(disk.trace)
    ensures r.Err? && ValidSuper(old(disk.image)[SUPERBLOCK_BLK]) ==> disk.image == Recovered(old(disk.image))
    ensures r.Ok? ==> fresh(r.value) && fresh(r.value.clock) && r.value.disk == disk
                      && MountsAs(old(disk.image), r.value)
    ensures r.Ok? ==> forall fd :: 0 <= fd < MAX_OPEN_FILES ==> files.table[fd] == CLOSED
  {
    hide Abs, SuperBlock, Overlay, HeaderOf, RecoverOps, Recovered, ValidSuper, SuperblockOf, Run;
    ghost var img := disk.image;
    var first := disk.ReadBlock(SUPERBLOCK_BLK);
    if !ValidSuper(first.value) {
      return Err(EINVAL);
    }
    ghost var t := disk.trace;
    JournalRecover(disk);
    RunAppend(disk.start, t, RecoverOps(img));
    RecoverDurable(img);
    RecoveredIs(img);
    ViewDurable(Recovered(img));
    var second := disk.ReadBlock(SUPERBLOCK_BLK);
    if !ValidSuper(second.value) {
      return Err(EINVAL);
    }
    var sb := SuperblockOf(second.value).(state := STATE_DIRTY);
    ghost var rec := disk.image;
    var _ := disk.WriteBlock(SUPERBLOCK_BLK, SuperBlock(sb));
    disk.SyncImage();
    AbsOutside(rec, disk.image, sb);
    SameCounts(rec, sb, SuperblockOf(second.value));
    var u := new Ufs(disk, sb);
    files.Reset();
    return Ok(u);
  }

  lemma SameCounts(img: Image, a: Superblock, b: Superblock)
    requires a.freeBlocks == b.freeBlocks && a.freeInodes == b.freeInodes
    ensures Abs(img, a) == Abs(img, b)
  {
    hide BitmapBytes, Bits, InodeBits, InodeTable, DataRegion;
  }

  // ---- unmount ----

  /** ufs_unmount: refused while a mapping is active; otherwise everything is durable and the
      superblock on disk describes the file system. */
  method Unmount(u: Ufs, files: Files, maps: Mappings) returns (r: Result<()>)
    requires u.Valid() && files.Valid() && maps.Valid()
    modifies u`fs, u`sb, u.disk, files.table
    ensures r == if exists k :: 0 <= k < MAX_MAPPINGS && old(maps.table[k]).inUse then Err(EBUSY) else Ok(())
    ensures u.Valid() && u.fs == old(u.fs)
    ensures r.Err? ==> u.disk.image == old(u.disk.image) && files.table[..] == old(files.table[..])
    ensures r.Ok? ==> u.sb == old(u.sb).(state := STATE_CLEAN) && u.Durable()
                      && forall fd :: 0 <= fd < MAX_OPEN_FILES ==> files.table[fd] == CLOSED
  {
    hide Abs, SuperBlock, Hygiene, SlotsOk;
    SbFields(u);
    var active := maps.HasActive();
    if active {
      return Err(EBUSY);
    }
    u.FlushSuperblock(u.sb.(state := STATE_CLEAN));
    u.SyncImage();
    files.Reset();
    return Ok(());
  }

  /** An image that was unmounted, or mounted and left quiet, mounts again as the same file system. */
  lemma Remount(u: Ufs, o: Owner)
    requires u.Valid() && u.Durable() && FsInv(u.fs, o)
    ensures var img := u.disk.image;
            && ValidSuper(img[SUPERBLOCK_BLK]) && Recovered(img) == img
            && Abs(Recovered(img), SuperblockOf(Recovered(img)[SUPERBLOCK_BLK])) == u.fs
  {
    hide Abs, SuperBlock, SuperblockOf, ValidSuper, FsInv, Overlay, HeaderOf, Recovered;
    SbFields(u);
    SuperRoundTrip(u.sb);
    CountBounds(u.fs, o);
    RecoveredIs(u.disk.image);
  }

  /** What an operation that ends in a sync has done survives any crash: whatever the crash leaves
      mounts as the file system of that moment. */
  lemma DurableSurvives(u: Ufs, o: Owner, img: Image)
    requires u.Valid() && u.Durable() && FsInv(u.fs, o) && CrashImage(u.disk.State(), img)
    ensures ValidSuper(img[SUPERBLOCK_BLK])
    ensures Abs(Recovered(img), SuperblockOf(Recovered(img)[SUPERBLOCK_BLK])) == u.fs
  {
    hide Ufs.Valid, Abs, SuperblockOf, ValidSuper, FsInv, Recovered;
    assert img == u.disk.image;
    Remount(u, o);
  }

  /** A journaled inode update is one step even across a crash, also when direct writes are pending
      before it: once its first sync has returned, mounting what is left gives the file system before
      or after it, and after it once the commit record is durable; up to the first sync it gives what
      a crash of the direct writes alone could have left. */
  lemma InodeUpdateAtomic(st: DiskState, sb: Superblock, seqNo: u32, puts: seq<Put>, inum: nat, ino: Inode, k: nat,
                          crashed: Image)
    requires QuietJournal(st) && CleanHeader(st.durable) && !Stale(st, seqNo) && ValidStaging(puts)
    requires inum < MAX_INODES && StagesInode(View(st), puts, inum, ino)
    requires k <= |CommitOps(seqNo, puts)| && CrashImage(Run(st, CommitOps(seqNo, puts)[..k]), crashed)
    ensures var before := Abs(View(st), sb);
            var after, rec := before.(inodes := before.inodes[inum := ino]), Recovered(crashed);
            && (k > |puts| + 1 || st.pending == [] ==>
                  (Abs(rec, sb) == before || Abs(rec, sb) == after) && rec[SUPERBLOCK_BLK] == View(st)[SUPERBLOCK_BLK])
            && (k >= CommitPoint(puts) ==> Abs(rec, sb) == after)
            && (k <= |puts| + 1 ==> CrashOutside(st, rec))
  {
    hide Abs, Recovered, Overlay, View, CommitOps, Run, StagesInode, Stale, HeaderOf, CommitPoint;
    CommitAtomic(st, seqNo, puts, k, crashed);
    var img, rec := View(st), Recovered(crashed);
    if SameOutside(rec, Overlay(img, puts)) {
      AbsCommit(img, rec, sb, puts, inum, ino);
    }
    if SameOutside(rec, img) {
      AbsOutside(img, rec, sb);
    }
    if st.pending == [] {
      ViewDurable(st.durable);
      assert st == DiskState(st.durable, []);
      assert SameOutside(rec, img) || SameOutside(rec, Overlay(img, puts));
    }
  }

  /** Whatever has been done to a mounted file system, a crash at any step recovers, outside the
      journal, to what a crash could have left after a prefix of the session in which every
      transaction is one atomic and durable step. The only premise is that the image as mounted
      held no commit record with the number of the first transaction. */
  lemma CrashAnywhere(u: Ufs, k: nat, img: Image) returns (acts: seq<Action>, j: nat)
    requires u.Valid() && |u.prior| + k <= |u.disk.trace|
    requires CrashImage(Run(u.origin, u.disk.trace[..|u.prior| + k]), img)
    ensures LogIs(u.disk.trace, u.prior, u.clock.next, acts) && k <= |SessionOps(acts)|
    ensures NotStale(u.Boot(), acts) ==>
              && Completed(acts, k) <= j <= Completed(acts, k) + 1 && j <= |acts|
              && (PastCommitPoint(acts, k) ==> j == Completed(acts, k) + 1)
              && CrashOutside(ActAll(u.Boot(), acts[..j]), Recovered(img))
  {
    hide Abs, SuperBlock, Recovered, Run, SessionOps, NotStale, CleanHeader, CrashImage, CrashOutside, Completed,
      PastCommitPoint, LogIs;
    acts :| LogIs(u.disk.trace, u.prior, u.clock.next, acts);
    LogParts(u.disk.trace, u.prior, u.clock.next, acts);
    var ops := SessionOps(acts);
    assert u.disk.trace[..|u.prior| + k] == u.prior + ops[..k];
    RunAppend(u.origin, u.prior, ops[..k]);
    j := 0;
    if NotStale(u.Boot(), acts) {
      j := SessionCrash(u.Boot(), acts, k, img);
    }
  }

  lemma LogParts(trace: seq<Op>, prior: seq<Op>, next: u32, acts: seq<Action>)
    requires LogIs(trace, prior, next, acts)
    ensures ValidActions(acts) && trace == prior + SessionOps(acts)
  {
    hide SessionOps;
  }

  /** A mounted image without a commit record needs no premise at all. */
  lemma NoRecordNotStale(st: DiskState, acts: seq<Action>)
    requires forall s :: !Commits(st.durable[JOURNAL_COMMIT], s)
    ensures NotStale(st, acts)
  {
    hide Commits;
  }

  lemma CountBounds(fs: Fs, o: Owner)
    requires FsInv(fs, o)
    ensures fs.freeBlocks <= DATA_BLOCKS && fs.freeInodes <= MAX_INODES
  {
    hide FreeSet, FreeInodes;
    WellFormedInv(fs, o);
    FreeSetBounds(fs.bits);
    FreeInodesBounds(fs.ibits);
  }

  /** A formatted image mounts as the empty tree, with every invariant in place. */
  lemma FormatMounts(img: Image)
    requires Formatted(img)
    ensures ValidSuper(img[SUPERBLOCK_BLK]) && Recovered(img) == img
    ensures forall s :: !Commits(img[JOURNAL_COMMIT], s)
    ensures var fs := Abs(img, SuperblockOf(img[SUPERBLOCK_BLK])); SysInv(fs, map[]) && TreeOf(fs) == EmptyTree()
  {
    hide Abs, SuperBlock, SuperblockOf, ValidSuper, Overlay, HeaderOf, Recovered, Blank, Commits, ZeroBlock;
    assert img[JOURNAL_COMMIT] == ZeroBlock();
    forall s: u32 ensures !Commits(img[JOURNAL_COMMIT], s) {
      ZeroRecords(s);
    }
    SuperRoundTrip(EMPTY_SUPER);
    RecoveredIs(img);
    BlankInv(Abs(img, EMPTY_SUPER));
  }
}
