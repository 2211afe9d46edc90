/** The redo journal (src/journal.c): staging, commit and mount-time recovery.
    Commit and recovery are specified by the exact list of disk operations they issue. */
module Journal {
  import opened Layout
  import opened Encoding
  import opened Disk

  const MAX_TX_BLOCKS: nat := 124
  const JOURNAL_MAGIC: u32 := 0x4A4F5552
  const COMMIT_MAGIC: u32 := 0x434F4D4D

  // ---- the byte-sum checksum ----

  function ByteSum(bs: Bytes): nat {
    if bs == [] then 0 else ByteSum(bs[..|bs| - 1]) + bs[|bs| - 1]
  }

  lemma {:induction false} ByteSumBound(bs: Bytes)
    ensures ByteSum(bs) <= 255 * |bs|
  {
    if bs != [] {
      ByteSumBound(bs[..|bs| - 1]);
    }
  }

  /** The byte sum of all images of a transaction. */
  function PayloadSum(blocks: seq<Block>): nat {
    if blocks == [] then 0 else PayloadSum(blocks[..|blocks| - 1]) + ByteSum(blocks[|blocks| - 1])
  }

  lemma {:induction false} PayloadSumBound(blocks: seq<Block>)
    ensures PayloadSum(blocks) <= 255 * BLOCK_SIZE * |blocks|
  {
    if blocks != [] {
      PayloadSumBound(blocks[..|blocks| - 1]);
      ByteSumBound(blocks[|blocks| - 1]);
    }
  }

  /** The payload sum fits the header's 32-bit field. */
  function Checksum(blocks: seq<Block>): (sum: u32)
    requires |blocks| <= MAX_TX_BLOCKS
    ensures sum == PayloadSum(blocks)
  {
    PayloadSumBound(blocks);
    PayloadSum(blocks)
  }

  function AddU32(a: u32, b: u32): u32 { (a as int + b as int) % 0x1_0000_0000 }

  /** The 32-bit accumulator cannot wrap on a block, so it is the true byte sum. */
  method CalculateChecksum(data: Block) returns (sum: u32)
    ensures sum == ByteSum(data)
  {
    sum := 0;
    for i := 0 to |data|
      invariant sum == ByteSum(data[..i])
    {
      assert data[..i + 1][..i] == data[..i];
      ByteSumBound(data[..i + 1]);
      sum := AddU32(sum, data[i]);
    }
    assert data[..|data|] == data;
  }

  // ---- journal records ----

  datatype Header = Header(magic: u32, seqNo: u32, numBlocks: u32, checksum: u32, targets: seq<u32>)

  function Pad(ws: Words, n: nat): (r: Words)
    requires |ws| <= n
    ensures |r| == n && forall i :: 0 <= i < n ==> r[i] == if i < |ws| then ws[i] else 0
  {
    ws + seq(n - |ws|, _ => 0)
  }

  function HeaderBlock(seqNo: u32, checksum: u32, targets: seq<u32>): Block
    requires |targets| <= MAX_TX_BLOCKS
  {
    WordsBlock(Pad([JOURNAL_MAGIC, seqNo, |targets|, checksum] + targets, PTRS_PER_BLOCK))
  }

  function HeaderOf(blk: Block): (h: Header)
    ensures |h.targets| == MAX_TX_BLOCKS
  {
    var ws := BlockWords(blk);
    Header(ws[0], ws[1], ws[2], ws[3], ws[4..])
  }

  lemma HeaderRoundTrip(seqNo: u32, checksum: u32, targets: seq<u32>)
    requires |targets| <= MAX_TX_BLOCKS
    ensures var h := HeaderOf(HeaderBlock(seqNo, checksum, targets));
            h.magic == JOURNAL_MAGIC && h.seqNo == seqNo && h.numBlocks == |targets| && h.checksum == checksum
            && h.targets[..|targets|] == targets
  {
    hide BlockWords, WordsBlock;
    var ws := Pad([JOURNAL_MAGIC, seqNo, |targets|, checksum] + targets, PTRS_PER_BLOCK);
    BlockWordsRoundTrip(ws);
    assert ws[4..][..|targets|] == targets;
  }

  function CommitBlock(seqNo: u32): Block {
    WordsBlock(Pad([COMMIT_MAGIC, seqNo], PTRS_PER_BLOCK))
  }

  /** The commit block carries the commit record of transaction seqNo. */
  predicate Commits(blk: Block, seqNo: u32) {
    BlockWords(blk)[0] == COMMIT_MAGIC && BlockWords(blk)[1] == seqNo
  }

  lemma CommitRoundTrip(seqNo: u32, other: u32)
    ensures Commits(CommitBlock(seqNo), other) == (seqNo == other)
  {
    hide BlockWords, WordsBlock;
    BlockWordsRoundTrip(Pad([COMMIT_MAGIC, seqNo], PTRS_PER_BLOCK));
  }

  lemma ZeroRecords(seqNo: u32)
    ensures HeaderOf(ZeroBlock()).magic != JOURNAL_MAGIC
    ensures !Commits(ZeroBlock(), seqNo)
  {
    assert Word(ZeroBlock(), 0) == 0;
  }

  // ---- the transaction buffer ----

  /** A block the journal may be asked to rewrite. */
  predicate ValidTarget(b: int) { 0 <= b < TOTAL_BLOCKS && !InJournal(b) }

  /** The staged images as a map from block to its newest image. */
  function StagedMap(puts: seq<Put>): map<BlockNum, Block> {
    if puts == [] then map[]
    else
      var last := puts[|puts| - 1];
      StagedMap(puts[..|puts| - 1])[last.b := last.blk]
  }

  lemma {:induction false} StagedMapKeys(puts: seq<Put>)
    ensures StagedMap(puts).Keys == Targets(puts)
  {
    if puts != [] {
      var init, last := puts[..|puts| - 1], puts[|puts| - 1];
      StagedMapKeys(init);
      assert puts == init + [last];
      assert Targets(puts) == Targets(init) + {last.b};
    }
  }

  /** Writing the staged list is overriding by the staged map. */
  lemma {:induction false} OverlayIsOverride(img: Image, puts: seq<Put>, b: BlockNum)
    ensures Overlay(img, puts)[b] == if b in StagedMap(puts) then StagedMap(puts)[b] else img[b]
  {
    if puts != [] {
      OverlayIsOverride(img, puts[..|puts| - 1], b);
    }
  }

  /** Replacing the image of one target updates the staged map there and nowhere else. */
  lemma {:induction false} StagedMapReplace(puts: seq<Put>, i: nat, blk: Block)
    requires i < |puts| && DistinctTargets(puts)
    ensures StagedMap(puts[i := Put(puts[i].b, blk)]) == StagedMap(puts)[puts[i].b := blk]
  {
    var n := |puts| - 1;
    var puts' := puts[i := Put(puts[i].b, blk)];
    if i == n {
      assert puts'[..n] == puts[..n];
    } else {
      assert puts'[..n] == puts[..n][i := Put(puts[i].b, blk)];
      StagedMapReplace(puts[..n], i, blk);
    }
  }

  lemma {:induction false} StagedMapAt(puts: seq<Put>, i: nat)
    requires i < |puts| && DistinctTargets(puts)
    ensures puts[i].b in StagedMap(puts) && StagedMap(puts)[puts[i].b] == puts[i].blk
  {
    if i < |puts| - 1 {
      StagedMapAt(puts[..|puts| - 1], i);
    }
  }

  /** Pair targets with images. */
  function Zip(targets: seq<u32>, blocks: seq<Block>): (puts: seq<Put>)
    requires |targets| == |blocks|
    requires forall i :: 0 <= i < |targets| ==> targets[i] < TOTAL_BLOCKS
    ensures |puts| == |targets|
    ensures forall i :: 0 <= i < |targets| ==> puts[i] == Put(targets[i], blocks[i])
  {
    seq(|targets|, i requires 0 <= i < |targets| => Put(targets[i], blocks[i]))
  }

  class Transaction {
    var seqNo: u32
    var numBlocks: nat
    const targetBlocks: array<u32>
    const buffers: array<Block>

    ghost predicate Valid()
      reads this, targetBlocks
    {
      && targetBlocks.Length == MAX_TX_BLOCKS && buffers.Length == MAX_TX_BLOCKS
      && numBlocks <= MAX_TX_BLOCKS
      && (forall i :: 0 <= i < numBlocks ==> ValidTarget(targetBlocks[i]))
      && (forall i, j :: 0 <= i < j < numBlocks ==> targetBlocks[i] != targetBlocks[j])
    }

    /** The staged images in staging order. */
    ghost function Staged(): (puts: seq<Put>)
      requires Valid()
      reads this, targetBlocks, buffers
      ensures |puts| == numBlocks && DistinctTargets(puts)
      ensures forall i :: 0 <= i < numBlocks ==> puts[i] == Put(targetBlocks[i], buffers[i])
    {
      Zip(targetBlocks[..numBlocks], buffers[..numBlocks])
    }

    constructor ()
      ensures Valid() && numBlocks == 0 && fresh(targetBlocks) && fresh(buffers)
    {
      seqNo, numBlocks := 0, 0;
      targetBlocks := new u32[MAX_TX_BLOCKS](_ => 0);
      buffers := new Block[MAX_TX_BLOCKS](_ => ZeroBlock());
    }

    method Abort()
      requires Valid()
      modifies this
      ensures Valid() && Staged() == []
    {
      seqNo, numBlocks := 0, 0;
    }
  }

  /** The session's sequence counter, g_journal_seq. */
  class Sequencer {
    var next: u32

    constructor ()
      ensures next == 1
    {
      next := 1;
    }
  }

  method TxBegin(tx: Transaction, clock: Sequencer)
    requires tx.Valid()
    modifies tx, clock
    ensures tx.Valid() && tx.Staged() == [] && tx.seqNo == old(clock.next)
    ensures clock.next == (old(clock.next) as int + 1) % 0x1_0000_0000
  {
    tx.seqNo, tx.numBlocks := clock.next, 0;
    clock.next := AddU32(clock.next, 1);
  }

  /** The scan for a target: its staging slot, or numBlocks if it is not staged. */
  method FindTarget(tx: Transaction, target: u32) returns (i: nat)
    requires tx.Valid()
    ensures i <= tx.numBlocks
    ensures i < tx.numBlocks ==> tx.Staged()[i].b == target
    ensures i < tx.numBlocks <==> target in StagedMap(tx.Staged())
  {
    ghost var puts := tx.Staged();
    StagedMapKeys(puts);
    i := 0;
    while i < tx.numBlocks && tx.targetBlocks[i] != target
      invariant i <= tx.numBlocks
      invariant forall j :: 0 <= j < i ==> tx.targetBlocks[j] != target
    {
      i := i + 1;
    }
    assert i < tx.numBlocks ==> puts[i] in puts;
  }

  lemma StagedMapAppend(puts: seq<Put>, p: Put)
    ensures StagedMap(puts + [p]) == StagedMap(puts)[p.b := p.blk]
  {
    assert (puts + [p])[..|puts|] == puts;
  }

  /** Staging is map update, refused for journal blocks and when 124 other targets are staged. */
  method TxStageBlock(tx: Transaction, target: u32, image: Block) returns (r: Result<()>)
    requires tx.Valid()
    modifies tx`numBlocks, tx.targetBlocks, tx.buffers
    ensures tx.Valid()
    ensures r == if !ValidTarget(target) then Err(EINVAL)
                 else if target in old(StagedMap(tx.Staged())) then Ok(())
                 else if |old(tx.Staged())| == MAX_TX_BLOCKS then Err(ENOSPC)
                 else Ok(())
    ensures r.Ok? ==> StagedMap(tx.Staged()) == old(StagedMap(tx.Staged()))[target := image]
    ensures r.Err? ==> tx.Staged() == old(tx.Staged())
  {
    ghost var puts := tx.Staged();
    if target >= TOTAL_BLOCKS || InJournal(target) {
      return Err(EINVAL);
    }
    var i := FindTarget(tx, target);
    if i < tx.numBlocks {
      ReplaceBuffer(tx, i, image);
      return Ok(());
    }
    if tx.numBlocks >= MAX_TX_BLOCKS {
      return Err(ENOSPC);
    }
    AppendBuffer(tx, target, image);
    return Ok(());
  }

  method ReplaceBuffer(tx: Transaction, i: nat, image: Block)
    requires tx.Valid() && i < tx.numBlocks
    modifies tx.buffers
    ensures tx.Valid()
    ensures StagedMap(tx.Staged()) == old(StagedMap(tx.Staged())[tx.Staged()[i].b := image])
  {
    ghost var puts := tx.Staged();
    tx.buffers[i] := image;
    StagedMapReplace(puts, i, image);
    assert tx.Staged() == puts[i := Put(puts[i].b, image)];
  }

  method AppendBuffer(tx: Transaction, target: u32, image: Block)
    requires tx.Valid() && tx.numBlocks < MAX_TX_BLOCKS
    requires ValidTarget(target) && target !in StagedMap(tx.Staged())
    modifies tx`numBlocks, tx.targetBlocks, tx.buffers
    ensures tx.Valid()
    ensures StagedMap(tx.Staged()) == old(StagedMap(tx.Staged()))[target := image]
  {
    hide Overlay, Run;
    ghost var puts := tx.Staged();
    StagedMapKeys(puts);
    assert forall i :: 0 <= i < tx.numBlocks ==> puts[i] in puts;
    tx.targetBlocks[tx.numBlocks] := target;
    tx.buffers[tx.numBlocks] := image;
    tx.numBlocks := tx.numBlocks + 1;
    assert tx.Staged() == puts + [Put(target, image)];
    StagedMapAppend(puts, Put(target, image));
  }

  // ---- staging inodes ----

  const INODES_PER_BLOCK: nat := 4

  function InodeBlock(inum: nat): nat { INODE_TABLE_START + inum / INODES_PER_BLOCK }

  function InodeOffset(inum: nat): nat { inum % INODES_PER_BLOCK * INODE_SIZE }

  function InodeIn(blk: Block, inum: nat): Inode {
    InodeOfBytes(blk[InodeOffset(inum)..InodeOffset(inum) + INODE_SIZE])
  }

  function WithInode(blk: Block, inum: nat, ino: Inode): Block {
    Splice(blk, InodeOffset(inum), InodeBytes(ino))
  }

  /** Rewriting one inode of a table block reads back there and leaves its neighbours alone. */
  lemma WithInodeRead(blk: Block, inum: nat, ino: Inode, other: nat)
    ensures InodeIn(WithInode(blk, inum, ino), other)
            == if other % INODES_PER_BLOCK == inum % INODES_PER_BLOCK then ino else InodeIn(blk, other)
  {
    var blk' := WithInode(blk, inum, ino);
    var at, at' := InodeOffset(inum), InodeOffset(other);
    if at == at' {
      assert blk'[at..at + INODE_SIZE] == InodeBytes(ino);
      InodeRoundTrip(ino);
    } else {
      assert blk'[at'..at' + INODE_SIZE] == blk[at'..at' + INODE_SIZE];
    }
  }

  /** Inode inum as the transaction would leave it: staged if its table block is, else as on disk. */
  function StagedInode(img: Image, staged: map<BlockNum, Block>, inum: nat): Inode
    requires inum < MAX_INODES
  {
    var b: BlockNum := InodeBlock(inum);
    InodeIn(if b in staged then staged[b] else img[b], inum)
  }

  method TxStageInode(tx: Transaction, disk: BlockDisk, inum: u32, ino: Inode) returns (r: Result<()>)
    requires tx.Valid()
    modifies tx`numBlocks, tx.targetBlocks, tx.buffers
    ensures tx.Valid()
    ensures r == if inum >= MAX_INODES then Err(EINVAL)
                 else if InodeBlock(inum) in old(StagedMap(tx.Staged())) then Ok(())
                 else if |old(tx.Staged())| == MAX_TX_BLOCKS then Err(ENOSPC)
                 else Ok(())
    ensures r.Err? ==> tx.Staged() == old(tx.Staged())
    ensures r.Ok? ==>
              var before, after := old(StagedMap(tx.Staged())), StagedMap(tx.Staged());
              && after.Keys == before.Keys + {InodeBlock(inum)}
              && (forall b :: b in before && b != InodeBlock(inum) ==> after[b] == before[b])
              && forall j :: 0 <= j < MAX_INODES ==>
                   StagedInode(disk.image, after, j)
                   == if j == inum then ino else StagedInode(disk.image, before, j)
  {
    hide InodeIn, WithInode, Overlay, Run, StagedInode, StagedMap;
    ghost var before := StagedMap(tx.Staged());
    if inum >= MAX_INODES {
      return Err(EINVAL);
    }
    var b := InodeBlock(inum);
    var i := FindTarget(tx, b);
    var block: Block;
    if i < tx.numBlocks {
      block := tx.buffers[i];
      StagedMapAt(tx.Staged(), i);
    } else {
      var rb := disk.ReadBlock(b);
      block := rb.value;
    }
    r := TxStageBlock(tx, b, WithInode(block, inum, ino));
    if r.Ok? {
      StagedInodes(disk.image, before, inum, ino, block, StagedMap(tx.Staged()));
    }
  }

  /** Restaging a table block with one inode changed changes that inode only. */
  lemma StagedInodes(img: Image, before: map<BlockNum, Block>, inum: u32, ino: Inode, block: Block,
                     after: map<BlockNum, Block>)
    requires inum < MAX_INODES
    requires block == if InodeBlock(inum) in before then before[InodeBlock(inum)] else img[InodeBlock(inum)]
    requires after == before[InodeBlock(inum) := WithInode(block, inum, ino)]
    ensures forall j :: 0 <= j < MAX_INODES ==>
              StagedInode(img, after, j) == if j == inum then ino else StagedInode(img, before, j)
  {
    hide InodeIn, WithInode;
    forall j | 0 <= j < MAX_INODES
      ensures StagedInode(img, after, j) == if j == inum then ino else StagedInode(img, before, j)
    {
      WithInodeRead(block, inum, ino, j);
    }
  }

  // ---- what commit issues ----

  function PutTargets(puts: seq<Put>): seq<u32> { seq(|puts|, i requires 0 <= i < |puts| => puts[i].b as u32) }

  function PutBlocks(puts: seq<Put>): seq<Block> { seq(|puts|, i requires 0 <= i < |puts| => puts[i].blk) }

  function JournalSlot(i: nat): BlockNum
    requires i < MAX_TX_BLOCKS
  {
    JOURNAL_START + 1 + i
  }

  /** The after-images in the journal region. */
  function Copies(blocks: seq<Block>): seq<Put>
    requires |blocks| <= MAX_TX_BLOCKS
  {
    seq(|blocks|, i requires 0 <= i < |blocks| => Put(JournalSlot(i), blocks[i]))
  }

  ghost predicate ValidStaging(puts: seq<Put>) {
    && 0 < |puts| <= MAX_TX_BLOCKS
    && DistinctTargets(puts)
    && forall i :: 0 <= i < |puts| ==> ValidTarget(puts[i].b)
  }

  function PrepareRound(seqNo: u32, puts: seq<Put>): seq<Put>
    requires |puts| <= MAX_TX_BLOCKS
  {
    [Put(JOURNAL_START, HeaderBlock(seqNo, Checksum(PutBlocks(puts)), PutTargets(puts)))]
    + Copies(PutBlocks(puts))
  }

  function CommitRound(seqNo: u32): seq<Put> { [Put(JOURNAL_COMMIT, CommitBlock(seqNo))] }

  function ClearRound(): seq<Put> { [Put(JOURNAL_START, ZeroBlock()), Put(JOURNAL_COMMIT, ZeroBlock())] }

  /** Everything ufs_tx_commit does to the disk, in order. */
  function CommitOps(seqNo: u32, puts: seq<Put>): seq<Op>
    requires |puts| <= MAX_TX_BLOCKS
  {
    if puts == [] then []
    else Round(PrepareRound(seqNo, puts)) + (Round(CommitRound(seqNo)) + (Round(puts) + Round(ClearRound())))
  }

  // ---- what recovery issues ----

  /** The journal in img holds a committed transaction whose payload verifies. */
  predicate Replayable(img: Image) {
    var h := HeaderOf(img[JOURNAL_START]);
    && h.magic == JOURNAL_MAGIC
    && 0 < h.numBlocks <= MAX_TX_BLOCKS
    && Commits(img[JOURNAL_COMMIT], h.seqNo)
    && (forall i :: 0 <= i < h.numBlocks ==> ValidTarget(h.targets[i]))
    && PayloadSum(JournalBlocks(img, h.numBlocks)) == h.checksum
  }

  function JournalBlocks(img: Image, n: nat): seq<Block>
    requires n <= MAX_TX_BLOCKS
  {
    seq(n, i requires 0 <= i < n => img[JournalSlot(i)])
  }

  /** The writes a replayable journal asks for. */
  function JournalPuts(img: Image): seq<Put>
    requires Replayable(img)
  {
    var h := HeaderOf(img[JOURNAL_START]);
    Zip(h.targets[..h.numBlocks], JournalBlocks(img, h.numBlocks))
  }

  /** Everything ufs_journal_recover does to the disk, in order. */
  function RecoverOps(img: Image): seq<Op> {
    if HeaderOf(img[JOURNAL_START]).magic != JOURNAL_MAGIC then []
    else if Replayable(img) then Round(JournalPuts(img)) + Round(ClearRound())
    else Round(ClearRound())
  }

  // ---- commit and recovery as coded ----

  lemma WritesAppend(puts: seq<Put>, p: Put)
    ensures Writes(puts + [p]) == Writes(puts) + [Write(p)]
  {
  }

  lemma WritesPrepend(p: Put, puts: seq<Put>)
    ensures Writes([p] + puts) == [Write(p)] + Writes(puts)
  {
  }

  /** Issue the writes of one of the protocol's block loops. */
  method WriteAll(disk: BlockDisk, targets: seq<u32>, blocks: seq<Block>)
    requires disk.Valid() && |targets| == |blocks|
    requires forall i :: 0 <= i < |targets| ==> targets[i] < TOTAL_BLOCKS
    modifies disk
    ensures disk.Valid() && disk.start == old(disk.start)
    ensures disk.trace == old(disk.trace) + Writes(Zip(targets, blocks))
  {
    hide Overlay, Run;
    ghost var puts := Zip(targets, blocks);
    for i := 0 to |targets|
      invariant disk.Valid() && disk.start == old(disk.start)
      invariant disk.trace == old(disk.trace) + Writes(puts[..i])
    {
      var _ := disk.WriteBlock(targets[i], blocks[i]);
      assert puts[..i + 1] == puts[..i] + [puts[i]];
      WritesAppend(puts[..i], puts[i]);
    }
    assert puts[..|targets|] == puts;
  }

  function JournalTargets(n: nat): (ts: seq<u32>)
    requires n <= MAX_TX_BLOCKS
  {
    seq(n, i requires 0 <= i < n => JournalSlot(i))
  }

  /** The checksum loop of commit, over all staged buffers. */
  method SumBlocks(blocks: seq<Block>) returns (total: u32)
    requires |blocks| <= MAX_TX_BLOCKS
    ensures total == PayloadSum(blocks)
  {
    total := 0;
    for i := 0 to |blocks|
      invariant total == PayloadSum(blocks[..i])
    {
      var sum := CalculateChecksum(blocks[i]);
      assert blocks[..i + 1][..i] == blocks[..i];
      PayloadSumBound(blocks[..i + 1]);
      total := AddU32(total, sum);
    }
    assert blocks[..|blocks|] == blocks;
  }

  lemma ZipParts(targets: seq<u32>, blocks: seq<Block>)
    requires |targets| == |blocks|
    requires forall i :: 0 <= i < |targets| ==> targets[i] < TOTAL_BLOCKS
    ensures PutTargets(Zip(targets, blocks)) == targets && PutBlocks(Zip(targets, blocks)) == blocks
  {
  }

  lemma CommitRoundOps(seqNo: u32)
    ensures Round(CommitRound(seqNo)) == [Write(Put(JOURNAL_COMMIT, CommitBlock(seqNo))), Sync]
  {
    hide CommitBlock;
  }

  method TxCommit(tx: Transaction, disk: BlockDisk)
    requires tx.Valid() && disk.Valid()
    modifies disk
    ensures disk.Valid() && disk.start == old(disk.start)
    ensures disk.trace == old(disk.trace) + CommitOps(tx.seqNo, tx.Staged())
  {
    hide HeaderBlock, CommitBlock, PayloadSum, Run, Overlay, PrepareRound, CommitRound, ClearRound, PutTargets,
      PutBlocks;
    if tx.numBlocks == 0 {
      return;
    }
    ghost var puts := tx.Staged();
    var targets, blocks := tx.targetBlocks[..tx.numBlocks], tx.buffers[..tx.numBlocks];
    ZipParts(targets, blocks);

    var dataChecksum := SumBlocks(blocks);
    ghost var t0 := disk.trace;
    PrepareJournal(disk, tx.seqNo, dataChecksum, targets, blocks, puts);
    ghost var t1 := disk.trace;
    var _ := disk.WriteBlock(JOURNAL_COMMIT, CommitBlock(tx.seqNo));
    disk.SyncImage();
    CommitRoundOps(tx.seqNo);
    assert disk.trace == t1 + Round(CommitRound(tx.seqNo));
    ghost var t2 := disk.trace;
    WriteAll(disk, targets, blocks);
    disk.SyncImage();
    assert disk.trace == t2 + Round(puts);
    ClearJournal(disk);
    assert disk.trace == t0 + (Round(PrepareRound(tx.seqNo, puts))
                               + (Round(CommitRound(tx.seqNo)) + (Round(puts) + Round(ClearRound()))));
  }

  /** Steps 1 and 2 of the protocol: header and after-images, then a sync. */
  method PrepareJournal(disk: BlockDisk, seqNo: u32, checksum: u32, targets: seq<u32>, blocks: seq<Block>,
                        ghost puts: seq<Put>)
    requires disk.Valid() && |puts| <= MAX_TX_BLOCKS
    requires targets == PutTargets(puts) && blocks == PutBlocks(puts) && checksum == PayloadSum(blocks)
    modifies disk
    ensures disk.Valid() && disk.start == old(disk.start)
    ensures disk.trace == old(disk.trace) + Round(PrepareRound(seqNo, puts))
  {
    hide PayloadSum, CommitBlock, Run, Overlay, Pad, WordsBlock, ValidTarget;
    var header := HeaderBlock(seqNo, checksum, targets);
    var _ := disk.WriteBlock(JOURNAL_START, header);
    WriteAll(disk, JournalTargets(|blocks|), blocks);
    disk.SyncImage();
    assert Zip(JournalTargets(|blocks|), blocks) == Copies(blocks);
    WritesPrepend(Put(JOURNAL_START, header), Copies(blocks));
  }

  method ClearJournal(disk: BlockDisk)
    requires disk.Valid()
    modifies disk
    ensures disk.Valid() && disk.start == old(disk.start)
    ensures disk.trace == old(disk.trace) + Round(ClearRound())
  {
    WriteAll(disk, [JOURNAL_START, JOURNAL_COMMIT], [ZeroBlock(), ZeroBlock()]);
    disk.SyncImage();
    assert Zip([JOURNAL_START, JOURNAL_COMMIT], [ZeroBlock(), ZeroBlock()]) == ClearRound();
  }

  /** The checks of ufs_journal_recover, before anything is written. */
  method CheckJournal(disk: BlockDisk, h: Header) returns (ok: bool)
    requires h == HeaderOf(disk.image[JOURNAL_START]) && h.magic == JOURNAL_MAGIC
    ensures ok == Replayable(disk.image)
  {
    hide BlockWords, Run, Overlay;
    if h.numBlocks == 0 || h.numBlocks > MAX_TX_BLOCKS {
      return false;
    }
    var commit := disk.ReadBlock(JOURNAL_COMMIT);
    if !Commits(commit.value, h.seqNo) {
      return false;
    }
    var verified: u32 := 0;
    ghost var blocks := JournalBlocks(disk.image, h.numBlocks);
    for i := 0 to h.numBlocks
      invariant forall j :: 0 <= j < i ==> ValidTarget(h.targets[j])
      invariant verified == PayloadSum(blocks[..i])
    {
      if !ValidTarget(h.targets[i]) {
        return false;
      }
      var buffer := disk.ReadBlock(JournalSlot(i));
      var sum := CalculateChecksum(buffer.value);
      assert blocks[..i + 1][..i] == blocks[..i];
      PayloadSumBound(blocks[..i + 1]);
      verified := AddU32(verified, sum);
    }
    assert blocks[..h.numBlocks] == blocks;
    return verified == h.checksum;
  }

  method JournalRecover(disk: BlockDisk)
    requires disk.Valid()
    modifies disk
    ensures disk.Valid() && disk.start == old(disk.start)
    ensures disk.trace == old(disk.trace) + RecoverOps(old(disk.image))
  {
    hide Run, Overlay, BlockWords, Replayable, JournalPuts;
    var hb := disk.ReadBlock(JOURNAL_START);
    var h := HeaderOf(hb.value);
    if h.magic != JOURNAL_MAGIC {
      return;
    }
    var ok := CheckJournal(disk, h);
    if ok {
      ReplayJournal(disk, h);
    }
    ClearJournal(disk);
  }

  /** The replay loop reads a journal block and writes its target, block by block;
      no target lies in the journal, so what it reads is what was checked. */
  method ReplayJournal(disk: BlockDisk, h: Header)
    requires disk.Valid() && Replayable(disk.image) && h == HeaderOf(disk.image[JOURNAL_START])
    modifies disk
    ensures disk.Valid() && disk.start == old(disk.start)
    ensures disk.trace == old(disk.trace) + Round(JournalPuts(old(disk.image)))
  {
    hide PayloadSum, Run, Overlay, BlockWords;
    ghost var puts := JournalPuts(disk.image);
    for i := 0 to h.numBlocks
      invariant disk.Valid() && disk.start == old(disk.start)
      invariant disk.trace == old(disk.trace) + Writes(puts[..i])
      invariant forall b: BlockNum :: InJournal(b) ==> disk.image[b] == old(disk.image)[b]
    {
      var buffer := disk.ReadBlock(JournalSlot(i));
      var _ := disk.WriteBlock(h.targets[i], buffer.value);
      assert puts[..i + 1] == puts[..i] + [puts[i]];
      WritesAppend(puts[..i], puts[i]);
    }
    assert puts[..h.numBlocks] == puts;
    disk.SyncImage();
  }
}
