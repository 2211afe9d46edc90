/** A disk the program produces, and transactions it issues, that are not atomic: on any freshly
    formatted image, two processes that each update one inode (src/journal.c). */
module Hazards {
  import opened Layout
  import opened Encoding
  import opened Disk
  import opened Journal
  import opened CrashSafety
  import opened CrashRuns
  import opened Context
  import opened Mounting

  // ---- two inodes whose table blocks have the same byte sum ----

  lemma {:induction false} SumUpdate(bs: Bytes, i: nat, v: byte)
    requires i < |bs|
    ensures ByteSum(bs[i := v]) == ByteSum(bs) - bs[i] + v
  {
    var n := |bs| - 1;
    if i < n {
      assert bs[i := v][..n] == bs[..n][i := v];
      SumUpdate(bs[..n], i, v);
    } else {
      assert bs[i := v][..n] == bs[..n];
    }
  }

  /** Exchanging two bytes does not change the sum. */
  lemma SumSwap(bs: Bytes, i: nat, j: nat)
    requires i < j < |bs|
    ensures ByteSum(bs[i := bs[j]][j := bs[i]]) == ByteSum(bs)
  {
    hide ByteSum;
    SumUpdate(bs, i, bs[j]);
    SumUpdate(bs[i := bs[j]], j, bs[i]);
  }

  /** A regular file with the given owner and group. */
  function OwnedBy(uid: u32, gid: u32): Inode {
    InitInode(TYPE_FILE).(links := 1, generation := 1, uid := uid, gid := gid)
  }

  lemma SmallWord(w: u32)
    requires w < 256
    ensures WordByte(w, 0) == w && WordByte(w, 1) == 0 && WordByte(w, 2) == 0 && WordByte(w, 3) == 0
  {
  }

  lemma PutWordAt(ws: Words, k: nat, w: u32, p: nat)
    requires k < |ws| && p < 4 * |ws| && p / 4 != k
    ensures PutWords(ws[k := w])[p] == PutWords(ws)[p]
  {
    hide WordByte;
  }

  /** Owner 1, group 0 and owner 0, group 1 are stored with two bytes exchanged. */
  lemma OwnerBytes()
    ensures var x, y := InodeBytes(OwnedBy(1, 0)), InodeBytes(OwnedBy(0, 1));
            y == x[12 := x[16]][16 := x[12]] && x[12] == 1 && x[16] == 0
  {
    hide WordByte;
    var wx, wy := InodeWords(OwnedBy(1, 0)), InodeWords(OwnedBy(0, 1));
    assert wy == wx[3 := 0][4 := 1] && wx[3] == 1 && wx[4] == 0;
    SmallWord(0);
    SmallWord(1);
    var x, y := PutWords(wx), PutWords(wy);
    forall p | 0 <= p < 128 ensures y[p] == x[12 := x[16]][16 := x[12]][p] {
      if p / 4 != 3 && p / 4 != 4 {
        PutWordAt(wx, 3, 0, p);
        PutWordAt(wx[3 := 0], 4, 1, p);
      }
    }
  }

  /** The zero table block with one inode written in its first slot. */
  function FirstSlot(ino: Inode): Block { WithInode(ZeroBlock(), 8, ino) }

  lemma SameSum()
    ensures ByteSum(FirstSlot(OwnedBy(1, 0))) == ByteSum(FirstSlot(OwnedBy(0, 1)))
    ensures FirstSlot(OwnedBy(1, 0)) != FirstSlot(OwnedBy(0, 1)) && FirstSlot(OwnedBy(1, 0)) != ZeroBlock()
  {
    hide ByteSum, InodeBytes;
    OwnerBytes();
    var x, y := FirstSlot(OwnedBy(1, 0)), FirstSlot(OwnedBy(0, 1));
    assert x[12] == 1 && x[16] == 0;
    assert y == x[12 := x[16]][16 := x[12]];
    SumSwap(x, 12, 16);
  }

  // ---- the runs ----

  lemma OneTableBlock(img: Image, inum: nat, ino: Inode, puts: seq<Put>)
    requires 4 <= inum < MAX_INODES && inum % INODES_PER_BLOCK == 0 && img[InodeBlock(inum)] == ZeroBlock()
    requires puts == [Put(InodeBlock(inum), FirstSlot(ino))]
    ensures ValidStaging(puts) && StagesInode(img, puts, inum, ino)
  {
    hide InodeIn, WithInode;
    StagedOne(puts[0]);
    forall j | 0 <= j < MAX_INODES
      ensures StagedInode(img, StagedMap(puts), j) == if j == inum then ino else StagedInode(img, map[], j)
    {
      WithInodeRead(ZeroBlock(), 8, ino, j);
    }
  }

  lemma StagedOne(p: Put)
    ensures StagedMap([p]) == map[p.b := p.blk]
  {
    assert [p][..0] == [];
    NothingStaged();
  }

  /** An image once mounted: marked dirty, and synced. */
  function MountedImage(img: Image): Image {
    img[SUPERBLOCK_BLK := SuperBlock(SuperblockOf(img[SUPERBLOCK_BLK]).(state := STATE_DIRTY))]
  }

  lemma MountedSuper(img: Image, sb: Superblock)
    requires img[SUPERBLOCK_BLK] == SuperBlock(sb) && sb.freeInodes <= MAX_INODES && sb.freeBlocks <= DATA_BLOCKS
    ensures ValidSuper(img[SUPERBLOCK_BLK])
    ensures MountedImage(img)[SUPERBLOCK_BLK] == SuperBlock(sb.(state := STATE_DIRTY))
  {
    hide SuperBlock, SuperblockOf, ValidSuper;
    SuperRoundTrip(sb);
  }

  /** On every formatted image: a process mounts it, updates inode 4 and crashes while clearing the
      journal; the next process mounts the result, which recovery leaves as it is, updates inode 8 and
      crashes in step 2; recovery then installs inode 4's table block in the place of inode 8's. So
      that process's commit, of a transaction as every caller issues them, is not atomic. */
  lemma HazardExists(img0: Image)
    returns (p: seq<Put>, k: nat, img: Image, q: seq<Put>, k': nat, img': Image)
    requires Formatted(img0)
    ensures ValidSuper(img0[SUPERBLOCK_BLK]) && Recovered(img0) == img0
    ensures ValidStaging(p) && StagesInode(MountedImage(img0), p, 4, OwnedBy(1, 0))
    ensures k <= |CommitOps(1, p)| && CrashImage(Run(DiskState(MountedImage(img0), []), CommitOps(1, p)[..k]), img)
    ensures ValidSuper(img[SUPERBLOCK_BLK]) && Recovered(img) == img
    ensures ValidStaging(q) && StagesInode(MountedImage(img), q, 8, OwnedBy(0, 1))
    ensures k' <= |CommitOps(1, q)| && CrashImage(Run(DiskState(MountedImage(img), []), CommitOps(1, q)[..k']), img')
    ensures InodeTable(Recovered(img'))[8] == OwnedBy(1, 0) != OwnedBy(0, 1)
    ensures !Atomic(DiskState(MountedImage(img), []), 1, q)
  {
    hide Recovered, Run, CommitOps, HeaderOf, Overlay, CrashImage, Abs, SuperBlock, SuperblockOf, ValidSuper, InodeIn,
      WithInode, Blank, ZeroBlock, StagesInode, AllOrNothing, ByteSum, Commits;
    var x, y := OwnedBy(1, 0), OwnedBy(0, 1);
    var a, b := FirstSlot(x), FirstSlot(y);
    p, q := [Put(InodeBlock(4), a)], [Put(InodeBlock(8), b)];
    RecoveredIs(img0);
    MountedSuper(img0, EMPTY_SUPER);
    var d0 := MountedImage(img0);
    OneTableBlock(d0, 4, x, p);
    SameSum();
    ViewDurable(d0);
    k, img := StaleRecordSurvives(DiskState(d0, []), 1, p);
    OverlayMiss(d0, p, SUPERBLOCK_BLK);
    OverlayMiss(d0, p, InodeBlock(8));
    MountedSuper(img, EMPTY_SUPER.(state := STATE_DIRTY));
    var d1 := MountedImage(img);
    assert d1[JournalSlot(0)] == p[0].blk;
    OneTableBlock(d1, 8, y, q);
    k', img' := OneBlockTear(d1, 1, InodeBlock(8), a, b);
    WithInodeRead(ZeroBlock(), 8, x, 8);
  }
}
