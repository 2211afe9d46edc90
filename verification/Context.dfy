/** The mounted file system (src/userfs.c, g_ufs) and its abstraction: bitmaps, inode table,
    data blocks and free counts, as the layers above see them. */
module Context {
  import opened Layout
  import opened Encoding
  import opened Disk
  import opened Journal
  import opened CrashSafety
  import opened Sessions

  const UFS_MAGIC: u32 := 0x55465331
  const UFS_VERSION: u32 := 2
  const STATE_CLEAN: u32 := 0
  const STATE_DIRTY: u32 := 1

  // ---- the superblock ----

  datatype Superblock = Superblock(freeInodes: u32, freeBlocks: u32, journalSequence: u32, state: u32, features: u32)

  /** The geometry words that ufs_mount insists on. */
  function Geometry(): (ws: Words)
    ensures |ws| == 14
  {
    [UFS_MAGIC, UFS_VERSION, BLOCK_SIZE, TOTAL_BLOCKS, INODE_BITMAP_BLK, 1, BLOCK_BITMAP_BLK, BLOCK_BITMAP_BLOCKS,
     INODE_TABLE_START, INODE_TABLE_BLOCKS, DATA_START, DATA_BLOCKS, MAX_INODES, ROOT_INODE]
  }

  function SuperBlock(sb: Superblock): Block {
    WordsBlock(Pad(Geometry() + [sb.freeInodes, sb.freeBlocks, JOURNAL_START, JOURNAL_BLOCKS,
                                 sb.journalSequence, sb.state, sb.features], PTRS_PER_BLOCK))
  }

  function SuperblockOf(blk: Block): Superblock {
    var ws := BlockWords(blk);
    Superblock(ws[14], ws[15], ws[18], ws[19], ws[20])
  }

  /** validate_superblock */
  predicate ValidSuper(blk: Block) {
    var ws := BlockWords(blk);
    && ws[..14] == Geometry() && ws[16] == JOURNAL_START && ws[17] == JOURNAL_BLOCKS
    && ws[14] <= MAX_INODES && ws[15] <= DATA_BLOCKS
  }

  lemma SuperRoundTrip(sb: Superblock)
    ensures SuperblockOf(SuperBlock(sb)) == sb
    ensures ValidSuper(SuperBlock(sb)) <==> sb.freeInodes <= MAX_INODES && sb.freeBlocks <= DATA_BLOCKS
  {
    hide BlockWords, WordsBlock;
    var tail := [sb.freeInodes, sb.freeBlocks, JOURNAL_START, JOURNAL_BLOCKS,
                 sb.journalSequence, sb.state, sb.features];
    var ws := Pad(Geometry() + tail, PTRS_PER_BLOCK);
    BlockWordsRoundTrip(ws);
    assert ws[..14] == Geometry();
    assert forall i :: 0 <= i < 7 ==> ws[14 + i] == tail[i];
  }

  // ---- the abstract file system ----

  datatype Fs = Fs(bits: seq<bool>, ibits: seq<bool>, inodes: seq<Inode>, data: map<nat, Block>,
                   freeBlocks: u32, freeInodes: u32)

  /** The block bitmap's eight blocks as one byte string. */
  function BitmapBytes(img: Image): (bm: Bytes)
    ensures |bm| == BLOCK_BITMAP_BLOCKS * BLOCK_SIZE
  {
    seq(BLOCK_BITMAP_BLOCKS * BLOCK_SIZE, p requires 0 <= p < BLOCK_BITMAP_BLOCKS * BLOCK_SIZE =>
      img[BLOCK_BITMAP_BLK + p / BLOCK_SIZE][p % BLOCK_SIZE])
  }

  function InodeBits(blk: Block): (bits: seq<bool>)
    ensures |bits| == MAX_INODES
  {
    Bits(blk)[..MAX_INODES]
  }

  function InodeTable(img: Image): (inodes: seq<Inode>)
    ensures |inodes| == MAX_INODES
  {
    seq(MAX_INODES, i requires 0 <= i < MAX_INODES => InodeIn(img[InodeBlock(i)], i))
  }

  function DataRegion(img: Image): (data: map<nat, Block>)
    ensures forall b :: b in data <==> InData(b)
  {
    map b: nat | DATA_START <= b < TOTAL_BLOCKS :: img[b]
  }

  function Abs(img: Image, sb: Superblock): Fs {
    Fs(Bits(BitmapBytes(img)), InodeBits(img[INODE_BITMAP_BLK]), InodeTable(img), DataRegion(img),
       sb.freeBlocks, sb.freeInodes)
  }

  ghost predicate WellFormed(fs: Fs) {
    && |fs.bits| == TOTAL_BLOCKS && |fs.ibits| == MAX_INODES && |fs.inodes| == MAX_INODES
    && forall b :: b in fs.data <==> InData(b)
  }

  // ---- what one block write does to the abstraction ----

  lemma AbsShape(img: Image, sb: Superblock)
    ensures WellFormed(Abs(img, sb))
  {
    hide Bits;
  }

  lemma AbsData(img: Image, sb: Superblock, b: BlockNum, blk: Block)
    requires InData(b)
    ensures Abs(img[b := blk], sb) == Abs(img, sb).(data := Abs(img, sb).data[b := blk])
  {
    hide Bits, InodeIn;
    var img' := img[b := blk];
    assert BitmapBytes(img') == BitmapBytes(img);
    assert InodeTable(img') == InodeTable(img);
    assert DataRegion(img') == DataRegion(img)[b := blk];
  }

  lemma AbsOutside(img: Image, img': Image, sb: Superblock)
    requires forall b: BlockNum :: b != SUPERBLOCK_BLK && !InJournal(b) ==> img'[b] == img[b]
    ensures Abs(img', sb) == Abs(img, sb)
  {
    hide Bits, InodeIn;
    assert BitmapBytes(img') == BitmapBytes(img);
    assert InodeTable(img') == InodeTable(img);
    assert DataRegion(img') == DataRegion(img);
  }

  lemma AbsInode(img: Image, sb: Superblock, inum: nat, ino: Inode)
    requires inum < MAX_INODES
    ensures var b := InodeBlock(inum); var fs := Abs(img, sb);
            Abs(img[b := WithInode(img[b], inum, ino)], sb) == fs.(inodes := fs.inodes[inum := ino])
  {
    hide Bits, InodeIn, WithInode;
    var b := InodeBlock(inum);
    var img' := img[b := WithInode(img[b], inum, ino)];
    assert BitmapBytes(img') == BitmapBytes(img);
    assert DataRegion(img') == DataRegion(img);
    forall i | 0 <= i < MAX_INODES ensures InodeTable(img')[i] == InodeTable(img)[inum := ino][i] {
      WithInodeRead(img[b], inum, ino, i);
    }
    assert InodeTable(img') == InodeTable(img)[inum := ino];
  }

  lemma AbsInodeBitmap(img: Image, sb: Superblock, blk: Block)
    ensures Abs(img[INODE_BITMAP_BLK := blk], sb) == Abs(img, sb).(ibits := InodeBits(blk))
  {
    hide Bits, InodeIn;
    var img' := img[INODE_BITMAP_BLK := blk];
    assert BitmapBytes(img') == BitmapBytes(img);
    assert InodeTable(img') == InodeTable(img);
    assert DataRegion(img') == DataRegion(img);
  }

  /** The image with the block bitmap's first n blocks taken from bm. */
  ghost predicate BitmapWritten(img: Image, img': Image, bm: Bytes, n: nat)
    requires |bm| == BLOCK_BITMAP_BLOCKS * BLOCK_SIZE && n <= BLOCK_BITMAP_BLOCKS
  {
    forall b: BlockNum ::
      img'[b] == if BLOCK_BITMAP_BLK <= b < BLOCK_BITMAP_BLK + n then Chunk(bm, b - BLOCK_BITMAP_BLK) else img[b]
  }

  function Chunk(bm: Bytes, i: nat): Block
    requires BLOCK_SIZE * i + BLOCK_SIZE <= |bm|
  {
    bm[BLOCK_SIZE * i..BLOCK_SIZE * i + BLOCK_SIZE]
  }

  lemma AbsBitmap(img: Image, img': Image, sb: Superblock, bm: Bytes)
    requires |bm| == BLOCK_BITMAP_BLOCKS * BLOCK_SIZE
    requires BitmapWritten(img, img', bm, BLOCK_BITMAP_BLOCKS)
    ensures Abs(img', sb) == Abs(img, sb).(bits := Bits(bm))
  {
    hide Bits, InodeIn;
    forall p | 0 <= p < |bm| ensures BitmapBytes(img')[p] == bm[p] {
      var i := p / BLOCK_SIZE;
      assert img'[BLOCK_BITMAP_BLK + i] == Chunk(bm, i);
    }
    assert BitmapBytes(img') == bm;
    assert InodeTable(img') == InodeTable(img);
    assert DataRegion(img') == DataRegion(img);
  }

  // ---- the mounted context ----

  /** Journal hygiene between operations: no unsynced write is to a journal block and the durable
      header carries no magic number. These are the premises of CrashSafety.CommitAtomic. */
  ghost predicate Hygiene(st: DiskState) { QuietJournal(st) && CleanHeader(st.durable) }

  lemma HygieneWrite(st: DiskState, p: Put)
    requires Hygiene(st) && !InJournal(p.b)
    ensures Hygiene(Step(st, Write(p)))
  {
    hide HeaderOf;
  }

  lemma HygieneSync(st: DiskState)
    requires Hygiene(st)
    ensures Hygiene(Step(st, Sync))
  {
    hide HeaderOf, Overlay;
    assert JOURNAL_START !in Targets(st.pending);
    OverlayMiss(st.durable, st.pending, JOURNAL_START);
  }

  class Ufs {
    const disk: BlockDisk
    const clock: Sequencer
    ghost const origin: DiskState
    ghost const prior: seq<Op>
    var sb: Superblock
    ghost var fs: Fs

    /** The disk when the file system was mounted. */
    ghost function Boot(): DiskState { Run(origin, prior) }

    /** The journal is clean, and all that was done to the disk since mounting is a session of
        transactions, direct writes and syncs, numbered by the clock. */
    ghost predicate Sound()
      reads disk, clock
    {
      && disk.Valid() && Hygiene(disk.State())
      && disk.start == origin && Hygiene(Boot())
      && Logged(disk.trace, prior, clock.next)
    }

    ghost predicate Valid()
      reads this, disk, clock
    {
      && Sound()
      && fs == Abs(disk.image, sb)
      && WellFormed(fs)
      && disk.image[SUPERBLOCK_BLK] == SuperBlock(sb)
    }

    /** Nothing is waiting for a sync. */
    ghost predicate Durable()
      reads this, disk
    {
      disk.State() == DiskState(disk.image, [])
    }

    constructor (disk: BlockDisk, sb: Superblock)
      requires disk.Valid() && disk.image[SUPERBLOCK_BLK] == SuperBlock(sb) && Hygiene(disk.State())
      ensures Valid() && this.disk == disk && this.sb == sb && fs == Abs(disk.image, sb)
      ensures fresh(clock) && clock.next == 1 && origin == disk.start && prior == disk.trace
    {
      this.disk, this.sb, origin, prior := disk, sb, disk.start, disk.trace;
      clock := new Sequencer();
      fs := Abs(disk.image, sb);
      new;
      AbsShape(disk.image, sb);
      LoggedNothing(disk.trace);
    }

    /** ufs_read_block on the data region. */
    method ReadData(b: u32) returns (blk: Block)
      requires Valid() && InData(b)
      ensures blk == fs.data[b]
    {
      hide Abs, SuperBlock, Sound;
      var r := disk.ReadBlock(b);
      blk := r.value;
      DataAt(disk.image, sb, b);
    }

    /** ufs_write_block on the data region. */
    method WriteData(b: u32, blk: Block)
      requires Valid() && InData(b)
      modifies this`fs, disk
      ensures Valid() && fs == old(fs).(data := old(fs).data[b := blk])
    {
      hide Abs, SuperBlock, Sound;
      AbsData(disk.image, sb, b, blk);
      WriteNonJournal(b, blk);
      fs := Abs(disk.image, sb);
    }

    /** A direct block write outside the journal; the caller restates the abstraction. */
    method WriteNonJournal(b: u32, blk: Block)
      requires Sound() && b < TOTAL_BLOCKS && !InJournal(b)
      modifies disk
      ensures Sound() && disk.image == old(disk.image)[b := blk]
    {
      hide Hygiene, Overlay, Logged;
      HygieneWrite(disk.State(), Put(b, blk));
      LoggedStep(disk.trace, prior, clock.next, Direct(Put(b, blk)));
      ghost var t := disk.trace;
      var _ := disk.WriteBlock(b, blk);
      assert disk.trace[..|t|] == t;
    }

    /** read_inode */
    method ReadInode(inum: u32) returns (r: Result<Inode>)
      requires Valid()
      ensures r == if inum < MAX_INODES then Ok(fs.inodes[inum]) else Err(EINVAL)
    {
      hide InodeIn, SuperBlock, Sound, Bits;
      if inum >= MAX_INODES {
        return Err(EINVAL);
      }
      var rb := disk.ReadBlock(InodeBlock(inum));
      return Ok(InodeIn(rb.value, inum));
    }

    /** write_inode: read the table block, splice the inode in, write it back. */
    method WriteInode(inum: u32, ino: Inode) returns (ok: bool)
      requires Valid()
      modifies this`fs, disk
      ensures Valid() && ok == (inum < MAX_INODES)
      ensures fs == if ok then old(fs).(inodes := old(fs).inodes[inum := ino]) else old(fs)
    {
      hide Abs, SuperBlock, WithInode, Sound;
      if inum >= MAX_INODES {
        return false;
      }
      var rb := disk.ReadBlock(InodeBlock(inum));
      AbsInode(disk.image, sb, inum, ino);
      WriteNonJournal(InodeBlock(inum), WithInode(rb.value, inum, ino));
      fs := Abs(disk.image, sb);
      return true;
    }

    /** persist_inode_metadata: a journal transaction holding one inode. */
    method PersistInode(inum: u32, ino: Inode) returns (ok: bool)
      requires Valid()
      modifies this`fs, disk, clock
      ensures Valid() && ok == (inum < MAX_INODES)
      ensures fs == if ok then old(fs).(inodes := old(fs).inodes[inum := ino]) else old(fs)
      ensures ok ==> Durable()
      ensures ok ==> exists puts :: ValidStaging(puts) && StagesInode(old(disk.image), puts, inum, ino)
                                    && disk.trace == old(disk.trace) + CommitOps(old(clock.next), puts)
    {
      hide Abs, SuperBlock, CommitOps, Overlay, Run, StagedInode, StagedMap, HeaderOf, Logged;
      ghost var next := clock.next;
      var tx := new Transaction();
      TxBegin(tx, clock);
      NothingStaged();
      var r := TxStageInode(tx, disk, inum, ino);
      if r.Err? {
        LoggedStep(disk.trace, prior, next, Abandon);
        assert disk.trace + [] == disk.trace;
        tx.Abort();
        return false;
      }
      ghost var st, img, puts := disk.State(), disk.image, tx.Staged();
      StagedMapKeys(puts);
      OneTarget(puts, InodeBlock(inum));
      LoggedStep(disk.trace, prior, next, Commit(next, puts));
      TxCommit(tx, disk);
      RunAppend(disk.start, old(disk.trace), CommitOps(tx.seqNo, puts));
      CommitDone(st, tx.seqNo, puts);
      ViewDurable(Overlay(Applied(st, tx.seqNo, puts), ClearRound()));
      AbsCommit(img, disk.image, sb, puts, inum, ino);
      fs := Abs(disk.image, sb);
      return true;
    }

    /** ufs_sync_image: everything written so far is durable. */
    method SyncImage()
      requires Valid()
      modifies disk
      ensures Valid() && fs == old(fs) && disk.image == old(disk.image) && Durable()
    {
      hide Abs, SuperBlock, Hygiene, Logged;
      HygieneSync(disk.State());
      LoggedStep(disk.trace, prior, clock.next, Flush);
      ghost var t := disk.trace;
      disk.SyncImage();
      assert disk.trace[..|t|] == t;
    }

    /** Change the counters and flush the superblock (ufs_flush_superblock). */
    method FlushSuperblock(sb': Superblock)
      requires Valid()
      modifies this`fs, this`sb, disk
      ensures Valid() && sb == sb'
      ensures fs == old(fs).(freeBlocks := sb'.freeBlocks, freeInodes := sb'.freeInodes)
    {
      hide SuperBlock, Sound, Bits, InodeTable, DataRegion, BitmapBytes;
      ghost var img := disk.image;
      WriteNonJournal(SUPERBLOCK_BLK, SuperBlock(sb'));
      AbsOutside(img, disk.image, sb);
      sb := sb';
      fs := Abs(disk.image, sb);
    }
  }

  /** After a commit, reading an inode gives its last staged value, or the old one if its table
      block was not staged. */
  lemma CommitReads(img: Image, img': Image, puts: seq<Put>)
    requires SameOutside(img', Overlay(img, puts))
    ensures forall j :: 0 <= j < MAX_INODES ==> InodeTable(img')[j] == StagedInode(img, StagedMap(puts), j)
  {
    hide InodeIn, Overlay, StagedMap;
    forall j | 0 <= j < MAX_INODES ensures InodeTable(img')[j] == StagedInode(img, StagedMap(puts), j) {
      OverlayIsOverride(img, puts, InodeBlock(j));
    }
  }

  /** The transaction stages inode inum and nothing else. */
  ghost predicate StagesInode(img: Image, puts: seq<Put>, inum: nat, ino: Inode)
    requires inum < MAX_INODES
  {
    && StagedMap(puts).Keys == {InodeBlock(inum)}
    && forall j :: 0 <= j < MAX_INODES ==>
         StagedInode(img, StagedMap(puts), j) == if j == inum then ino else StagedInode(img, map[], j)
  }

  /** Committing one restaged table block changes that inode in the abstraction and nothing else. */
  lemma AbsCommit(img: Image, img': Image, sb: Superblock, puts: seq<Put>, inum: nat, ino: Inode)
    requires inum < MAX_INODES && StagesInode(img, puts, inum, ino)
    requires SameOutside(img', Overlay(img, puts))
    ensures Abs(img', sb) == Abs(img, sb).(inodes := Abs(img, sb).inodes[inum := ino])
    ensures img'[SUPERBLOCK_BLK] == img[SUPERBLOCK_BLK]
  {
    hide Bits, InodeIn, Overlay, StagedMap;
    CommitReads(img, img', puts);
    forall b: BlockNum | !InJournal(b) && b != InodeBlock(inum) ensures img'[b] == img[b] {
      OverlayIsOverride(img, puts, b);
    }
    assert BitmapBytes(img') == BitmapBytes(img);
    assert DataRegion(img') == DataRegion(img);
    assert InodeTable(img') == InodeTable(img)[inum := ino];
  }

  lemma NothingStaged()
    ensures StagedMap([]) == map[]
  {
  }

  lemma {:induction false} TargetCount(puts: seq<Put>)
    requires DistinctTargets(puts)
    ensures |Targets(puts)| == |puts|
  {
    if puts != [] {
      var init, last := puts[..|puts| - 1], puts[|puts| - 1];
      TargetCount(init);
      assert puts == init + [last];
      assert Targets(puts) == Targets(init) + {last.b};
    }
  }

  lemma OneTarget(puts: seq<Put>, b: BlockNum)
    requires DistinctTargets(puts) && Targets(puts) == {b}
    ensures |puts| == 1 && puts[0].b == b
  {
    TargetCount(puts);
    assert puts[0] in puts && puts[0].b in Targets(puts);
  }

  lemma DataAt(img: Image, sb: Superblock, b: BlockNum)
    requires InData(b)
    ensures b in Abs(img, sb).data && Abs(img, sb).data[b] == img[b]
  {
    hide Bits, InodeIn;
  }
}
