/** Where everything lies on the image, in plain numbers (include/ufs_internal.h): what a program that
    knows only the format would read. Word k of a block is its little-endian 32-bit word number k. */
module OnDisk {
  import opened Layout
  import opened Encoding
  import opened Journal
  import opened Context
  import opened Ownership
  import opened FileContent
  import opened RangeIo
  import opened Directory

  // ---- the superblock ----

  /** validate_superblock insists on exactly these sixteen words and two bounds. */
  lemma SuperblockChecks(blk: Block)
    ensures ValidSuper(blk) <==>
              && Word(blk, 0) == 0x55465331 && Word(blk, 1) == 2 && Word(blk, 2) == 512 && Word(blk, 3) == 32768
              && Word(blk, 4) == 1 && Word(blk, 5) == 1 && Word(blk, 6) == 2 && Word(blk, 7) == 8
              && Word(blk, 8) == 10 && Word(blk, 9) == 128 && Word(blk, 10) == 2186 && Word(blk, 11) == 30582
              && Word(blk, 12) == 512 && Word(blk, 13) == 0 && Word(blk, 14) <= 512 && Word(blk, 15) <= 30582
              && Word(blk, 16) == 138 && Word(blk, 17) == 2048
    ensures SuperblockOf(blk)
            == Superblock(Word(blk, 14), Word(blk, 15), Word(blk, 18), Word(blk, 19), Word(blk, 20))
  {
    hide Word;
    var ws := BlockWords(blk);
    assert forall k :: 0 <= k < PTRS_PER_BLOCK ==> ws[k] == Word(blk, k);
    assert ws[..14] == Geometry() <==> forall k :: 0 <= k < 14 ==> ws[k] == Geometry()[k];
  }

  /** A block that does not start with the magic number and the version is no superblock. */
  lemma ForeignRefused(blk: Block)
    requires Word(blk, 0) != 0x55465331 || Word(blk, 1) != 2
    ensures !ValidSuper(blk)
  {
    SuperblockChecks(blk);
  }

  lemma ZeroRefused()
    ensures !ValidSuper(ZeroBlock())
  {
    assert Word(ZeroBlock(), 0) == 0;
    ForeignRefused(ZeroBlock());
  }

  // ---- inodes ----

  /** Word k of inode i: four inodes of 32 words to a block, from block 10 on. */
  function InodeWord(img: Image, i: nat, k: nat): u32
    requires i < 512 && k < 32
  {
    Word(img[10 + i / 4], 32 * (i % 4) + k)
  }

  lemma InodeOnDisk(img: Image, i: nat)
    requires i < 512
    ensures var ino := InodeTable(img)[i];
            && ino.itype == InodeWord(img, i, 0) && ino.flags == InodeWord(img, i, 1)
            && ino.mode == InodeWord(img, i, 2) && ino.uid == InodeWord(img, i, 3)
            && ino.gid == InodeWord(img, i, 4) && ino.links == InodeWord(img, i, 5)
            && ino.size == InodeWord(img, i, 6) as int + 0x1_0000_0000 * InodeWord(img, i, 7) as int
            && ino.blockCount == InodeWord(img, i, 8)
            && (forall j :: 0 <= j < 8 ==> ino.direct[j] == InodeWord(img, i, 9 + j))
            && ino.single == InodeWord(img, i, 17) && ino.double == InodeWord(img, i, 18)
            && ino.generation == InodeWord(img, i, 19)
            && (forall j :: 0 <= j < 12 ==> ino.times[j] == InodeWord(img, i, 20 + j))
  {
    hide Word;
    var blk, at := img[10 + i / 4], InodeOffset(i);
    var bs := blk[at..at + INODE_SIZE];
    forall k | 0 <= k < 32 ensures GetWords(bs)[k] == InodeWord(img, i, k) {
      WordInside(blk, 32 * (i % 4), 32, k);
    }
  }

  lemma WordInside(bs: Bytes, at: nat, n: nat, k: nat)
    requires 4 * (at + n) <= |bs| && k < n
    ensures Word(bs[4 * at..4 * at + 4 * n], k) == Word(bs, at + k)
  {
  }

  // ---- bitmaps ----

  const WEIGHTS: seq<nat> := [1, 2, 4, 8, 16, 32, 64, 128]

  lemma {:induction false} BitIs(x: byte, k: nat)
    requires k < 8
    ensures WEIGHTS[k] > 0 && (Bit(x, k) <==> x as int / WEIGHTS[k] % 2 == 1)
  {
    if k > 0 {
      BitIs(x / 2, k - 1);
    }
  }

  /** The inode bitmap is block 1, the block bitmap blocks 2 to 9, low bits first. */
  lemma BitsOnDisk(img: Image, sb: Superblock, i: nat, b: nat)
    requires i < 512 && b < 32768
    ensures |Abs(img, sb).ibits| == 512 && |Abs(img, sb).bits| == 32768
    ensures forall k :: 0 <= k < 8 ==> WEIGHTS[k] > 0
    ensures Abs(img, sb).ibits[i] <==> img[1][i / 8] as int / WEIGHTS[i % 8] % 2 == 1
    ensures Abs(img, sb).bits[b] <==> img[2 + b / 4096][b / 8 % 512] as int / WEIGHTS[b % 8] % 2 == 1
  {
    hide Bit;
    BitIs(img[1][i / 8], i % 8);
    BitIs(img[2 + b / 4096][b / 8 % 512], b % 8);
    assert b / 8 / 512 == b / 4096;
    assert BitmapBytes(img)[b / 8] == img[2 + b / 4096][b / 8 % 512];
  }

  // ---- the bytes of a file ----

  /** The block with bytes 512 * n to 512 * n + 511 of inode i: eight direct pointers, then 128 behind
      the single-indirect block, then 128 behind each of 128 blocks behind the double-indirect one. */
  function FileBlock(img: Image, i: nat, n: nat): u32
    requires i < 512 && n < 16520
  {
    if n < 8 then InodeWord(img, i, 9 + n)
    else if n < 136 then Pointer(img, InodeWord(img, i, 17), n - 8)
    else Pointer(img, Pointer(img, InodeWord(img, i, 18), (n - 136) / 128), (n - 136) % 128)
  }

  function Pointer(img: Image, b: u32, k: nat): u32
    requires k < 128
  {
    if 2186 <= b < 32768 then Word(img[b], k) else 0xFFFF_FFFF
  }

  lemma FileBlockIs(img: Image, sb: Superblock, i: nat, n: nat)
    requires i < 512 && n < 16520
    ensures Val(Abs(img, sb), i, Leaf(n)) == FileBlock(img, i, n)
  {
    hide Word, Bits;
    InodeOnDisk(img, i);
  }

  /** Byte p of an allocated inode, read off the image. */
  lemma ContentOnDisk(img: Image, sb: Superblock, o: Owner, i: nat, p: nat)
    requires FsInv(Abs(img, sb), o) && Allocated(Abs(img, sb), i) && i < 512 && p < InodeTable(img)[i].size
    ensures p / 512 < 16520 && 2186 <= FileBlock(img, i, p / 512) < 32768
    ensures Content(Abs(img, sb), i)[p] == img[FileBlock(img, i, p / 512)][p % 512]
  {
    hide FsInv, Bits, Word, SlotVal;
    var fs := Abs(img, sb);
    PositionPresent(fs, o, i, p);
    FileBlockIs(img, sb, i, p / 512);
    assert p / 512 * 512 <= p < p / 512 * 512 + 512;
    assert ByteAt(fs, i, p) == fs.data[FileBlock(img, i, p / 512) as nat][p % 512];
  }

  // ---- directory entries ----

  /** Entry k of a directory's bytes: a used flag, the inode, its type, then a name that ends at the first NUL. */
  lemma DirentOnDisk(c: Bytes, k: nat)
    requires 64 * k + 64 <= |c|
    ensures k < |Slots(c)|
    ensures var e := Slots(c)[k];
            && (e.used <==> Word(c, 16 * k) != 0) && e.inum == Word(c, 16 * k + 1) && e.dtype == Word(c, 16 * k + 2)
            && |e.name| <= 32 && NulFree(e.name) && e.name == c[64 * k + 12..64 * k + 12 + |e.name|]
            && (|e.name| < 32 ==> c[64 * k + 12 + |e.name|] == 0)
  {
    hide CString, NulFree;
    var bs := c[64 * k..64 * k + 64];
    var e := DirentOfBytes(bs);
    SlotOf(c, k);
    forall j | 0 <= j < 3 ensures Word(bs, j) == Word(c, 16 * k + j) {
      WordInside(c, 16 * k, 16, j);
    }
    assert bs[12..44] == c[64 * k + 12..64 * k + 44];
  }

  // ---- the journal ----

  /** The header block and the commit block. */
  lemma JournalOnDisk(blk: Block, seqNo: u32)
    ensures var h := HeaderOf(blk);
            && h.magic == Word(blk, 0) && h.seqNo == Word(blk, 1) && h.numBlocks == Word(blk, 2)
            && h.checksum == Word(blk, 3) && |h.targets| == 124
            && forall i :: 0 <= i < 124 ==> h.targets[i] == Word(blk, 4 + i)
    ensures Commits(blk, seqNo) <==> Word(blk, 0) == 0x434F4D4D && Word(blk, 1) == seqNo
  {
    hide Word;
  }

  /** Target i of a header block. */
  function Target(blk: Block, i: nat): u32
    requires i < 124
  {
    Word(blk, 4 + i)
  }

  /** What recovery replays: header in block 138, payload from 139 on, commit record in 2185. */
  lemma ReplayableOnDisk(img: Image)
    ensures Replayable(img) <==>
              && Word(img[138], 0) == 0x4A4F5552 && 1 <= Word(img[138], 2) <= 124
              && Word(img[2185], 0) == 0x434F4D4D && Word(img[2185], 1) == Word(img[138], 1)
              && (forall i :: 0 <= i < Word(img[138], 2) ==>
                    Target(img[138], i) < 138 || 2186 <= Target(img[138], i) < 32768)
              && PayloadSum(img[139..139 + Word(img[138], 2) as int]) == Word(img[138], 3)
  {
    hide Word, PayloadSum, BlockWords;
    JournalOnDisk(img[138], 0);
    var n, h := Word(img[138], 2), HeaderOf(img[138]);
    JournalOnDisk(img[2185], h.seqNo);
    if n <= 124 {
      assert JournalBlocks(img, n) == img[139..139 + n as int];
      assert forall i :: 0 <= i < n ==> h.targets[i] == Target(img[138], i);
    }
  }
}
