/** Bitmaps and the first-fit block and inode allocators (src/userfs_storage.c). */
module Allocator {
  import opened Layout
  import opened Encoding
  import opened Context

  // ---- bit operations on a bitmap in memory ----

  predicate BitmapTest(bm: array<byte>, bit: nat)
    requires bit / 8 < bm.Length
    reads bm
  {
    Bit(bm[bit / 8], bit % 8)
  }

  lemma BitsUpdate(bs: Bytes, bit: nat)
    requires bit / 8 < |bs|
    ensures OrBit(bs[bit / 8], bit % 8) < 256 && AndNotBit(bs[bit / 8], bit % 8) < 256
    ensures Bits(bs[bit / 8 := OrBit(bs[bit / 8], bit % 8)]) == Bits(bs)[bit := true]
    ensures Bits(bs[bit / 8 := AndNotBit(bs[bit / 8], bit % 8)]) == Bits(bs)[bit := false]
  {
    hide OrBit, AndNotBit, Bit;
    var at, k := bit / 8, bit % 8;
    BitInByte(bs[at], k);
    var set_ := bs[at := OrBit(bs[at], k)];
    var clear := bs[at := AndNotBit(bs[at], k)];
    forall i | 0 <= i < 8 * |bs|
      ensures BitAt(set_, i) == Bits(bs)[bit := true][i] && BitAt(clear, i) == Bits(bs)[bit := false][i]
    {
      if i / 8 == at {
        OrBitOthers(bs[at], k, i % 8);
        AndNotBitOthers(bs[at], k, i % 8);
      }
    }
  }

  method BitmapSet(bm: array<byte>, bit: nat)
    requires bit / 8 < bm.Length
    modifies bm
    ensures Bits(bm[..]) == old(Bits(bm[..]))[bit := true]
  {
    hide Bits, OrBit, AndNotBit;
    BitsUpdate(bm[..], bit);
    ghost var was := bm[..];
    bm[bit / 8] := OrBit(bm[bit / 8], bit % 8);
    assert bm[..] == was[bit / 8 := OrBit(was[bit / 8], bit % 8)];
  }

  method BitmapClear(bm: array<byte>, bit: nat)
    requires bit / 8 < bm.Length
    modifies bm
    ensures Bits(bm[..]) == old(Bits(bm[..]))[bit := false]
  {
    hide Bits, OrBit, AndNotBit;
    BitsUpdate(bm[..], bit);
    ghost var was := bm[..];
    bm[bit / 8] := AndNotBit(bm[bit / 8], bit % 8);
    assert bm[..] == was[bit / 8 := AndNotBit(was[bit / 8], bit % 8)];
  }

  lemma BitOfBits(bm: array<byte>, bit: nat)
    requires bit / 8 < bm.Length
    ensures BitmapTest(bm, bit) == Bits(bm[..])[bit]
  {
    hide Bit;
  }

  // ---- bitmap block I/O ----

  method ReadBlockBitmap(u: Ufs, bm: array<byte>)
    requires u.Valid() && bm.Length == BLOCK_BITMAP_BLOCKS * BLOCK_SIZE
    modifies bm
    ensures Bits(bm[..]) == u.fs.bits
  {
    hide SuperBlock, Ufs.Sound, Bits, InodeTable, DataRegion;
    for i := 0 to BLOCK_BITMAP_BLOCKS
      invariant forall p :: 0 <= p < i * BLOCK_SIZE ==> bm[p] == BitmapBytes(u.disk.image)[p]
    {
      var r := u.disk.ReadBlock(BLOCK_BITMAP_BLK + i);
      CopyChunk(bm, i, r.value);
    }
    assert bm[..] == BitmapBytes(u.disk.image);
  }

  method CopyChunk(bm: array<byte>, i: nat, blk: Block)
    requires i * BLOCK_SIZE + BLOCK_SIZE <= bm.Length
    modifies bm
    ensures forall p :: 0 <= p < bm.Length ==>
              bm[p] == if i * BLOCK_SIZE <= p < i * BLOCK_SIZE + BLOCK_SIZE then blk[p - i * BLOCK_SIZE] else old(bm[p])
  {
    forall p | 0 <= p < BLOCK_SIZE {
      bm[i * BLOCK_SIZE + p] := blk[p];
    }
  }

  method WriteBlockBitmap(u: Ufs, bm: array<byte>)
    requires u.Valid() && bm.Length == BLOCK_BITMAP_BLOCKS * BLOCK_SIZE
    modifies u`fs, u.disk
    ensures u.Valid() && u.fs == old(u.fs).(bits := Bits(bm[..]))
  {
    hide SuperBlock, Ufs.Sound, Abs, Bits;
    ghost var img, bytes := u.disk.image, bm[..];
    for i := 0 to BLOCK_BITMAP_BLOCKS
      invariant u.Sound()
      invariant BitmapWritten(img, u.disk.image, bytes, i)
    {
      u.WriteNonJournal(BLOCK_BITMAP_BLK + i, bm[BLOCK_SIZE * i..BLOCK_SIZE * i + BLOCK_SIZE]);
      assert Chunk(bytes, i) == bm[BLOCK_SIZE * i..BLOCK_SIZE * i + BLOCK_SIZE];
    }
    AbsBitmap(img, u.disk.image, u.sb, bytes);
    u.fs := Abs(u.disk.image, u.sb);
  }

  method ReadInodeBitmap(u: Ufs, bm: array<byte>)
    requires u.Valid() && bm.Length == BLOCK_SIZE
    modifies bm
    ensures Bits(bm[..])[..MAX_INODES] == u.fs.ibits
  {
    hide SuperBlock, Ufs.Sound, Bits, InodeTable, DataRegion;
    var r := u.disk.ReadBlock(INODE_BITMAP_BLK);
    CopyChunk(bm, 0, r.value);
    assert bm[..] == r.value;
  }

  method WriteInodeBitmap(u: Ufs, bm: array<byte>)
    requires u.Valid() && bm.Length == BLOCK_SIZE
    modifies u`fs, u.disk
    ensures u.Valid() && u.fs == old(u.fs).(ibits := Bits(bm[..])[..MAX_INODES])
  {
    hide SuperBlock, Ufs.Sound, Abs, Bits;
    AbsInodeBitmap(u.disk.image, u.sb, bm[..]);
    u.WriteNonJournal(INODE_BITMAP_BLK, bm[..]);
    u.fs := Abs(u.disk.image, u.sb);
  }

  // ---- counting free blocks and inodes ----

  ghost function FreeSet(bits: seq<bool>): set<nat>
    requires |bits| == TOTAL_BLOCKS
  {
    set b | DATA_START <= b < TOTAL_BLOCKS && !bits[b]
  }

  /** The inode slots allocate_inode may hand out: all but the root. */
  ghost function FreeInodes(ibits: seq<bool>): set<nat>
    requires |ibits| == MAX_INODES
  {
    set i | 1 <= i < MAX_INODES && !ibits[i]
  }

  /** The superblock's counters are exact. */
  ghost predicate Counted(fs: Fs) {
    && WellFormed(fs)
    && fs.freeBlocks == |FreeSet(fs.bits)|
    && fs.freeInodes == |FreeInodes(fs.ibits)|
  }

  ghost function Range(lo: nat, hi: nat): set<nat> {
    if lo < hi then Range(lo, hi - 1) + {hi - 1} else {}
  }

  lemma {:induction false} RangeSize(lo: nat, hi: nat)
    requires lo <= hi
    ensures |Range(lo, hi)| == hi - lo
    ensures forall b :: b in Range(lo, hi) <==> lo <= b < hi
    decreases hi - lo
  {
    if lo < hi {
      RangeSize(lo, hi - 1);
    }
  }

  lemma SubsetSize<T>(a: set<T>, b: set<T>)
    requires a <= b
    ensures |a| <= |b|
  {
    assert b == a + (b - a);
  }

  lemma FreeSetBounds(bits: seq<bool>)
    requires |bits| == TOTAL_BLOCKS
    ensures |FreeSet(bits)| <= DATA_BLOCKS
  {
    RangeSize(DATA_START, TOTAL_BLOCKS);
    SubsetSize(FreeSet(bits), Range(DATA_START, TOTAL_BLOCKS));
  }

  lemma FreeInodesBounds(ibits: seq<bool>)
    requires |ibits| == MAX_INODES
    ensures |FreeInodes(ibits)| < MAX_INODES
  {
    RangeSize(1, MAX_INODES);
    SubsetSize(FreeInodes(ibits), Range(1, MAX_INODES));
  }

  lemma FreeSetTake(bits: seq<bool>, b: nat)
    requires |bits| == TOTAL_BLOCKS && InData(b) && !bits[b]
    ensures FreeSet(bits[b := true]) == FreeSet(bits) - {b} && b in FreeSet(bits)
    ensures |FreeSet(bits[b := true])| == |FreeSet(bits)| - 1
  {
  }

  lemma FreeSetGive(bits: seq<bool>, b: nat)
    requires |bits| == TOTAL_BLOCKS && InData(b) && bits[b]
    ensures FreeSet(bits[b := false]) == FreeSet(bits) + {b} && b !in FreeSet(bits)
    ensures |FreeSet(bits[b := false])| == |FreeSet(bits)| + 1
  {
  }

  lemma FreeInodesTake(ibits: seq<bool>, i: nat)
    requires |ibits| == MAX_INODES && 1 <= i < MAX_INODES && !ibits[i]
    ensures |FreeInodes(ibits[i := true])| == |FreeInodes(ibits)| - 1
  {
    assert FreeInodes(ibits[i := true]) == FreeInodes(ibits) - {i};
    assert i in FreeInodes(ibits);
  }

  lemma FreeInodesGive(ibits: seq<bool>, i: nat)
    requires |ibits| == MAX_INODES && 1 <= i < MAX_INODES && ibits[i]
    ensures |FreeInodes(ibits[i := false])| == |FreeInodes(ibits)| + 1
  {
    assert FreeInodes(ibits[i := false]) == FreeInodes(ibits) + {i};
    assert i !in FreeInodes(ibits);
  }

  // ---- data blocks ----

  /** What taking block b does. */
  function Taken(fs: Fs, b: nat): Fs
    requires b < |fs.bits| && fs.freeBlocks > 0
  {
    fs.(bits := fs.bits[b := true], data := fs.data[b := ZeroBlock()], freeBlocks := fs.freeBlocks - 1)
  }

  function Released(fs: Fs, b: nat): Fs
    requires b < |fs.bits| && fs.freeBlocks < DATA_BLOCKS
  {
    fs.(bits := fs.bits[b := false], freeBlocks := fs.freeBlocks + 1)
  }

  /** First fit over the data region; the block comes back zeroed. Fails only when none is free. */
  method AllocateDataBlock(u: Ufs) returns (r: Result<u32>)
    requires u.Valid() && Counted(u.fs)
    modifies u`fs, u`sb, u.disk
    ensures u.Valid() && Counted(u.fs)
    ensures r.Ok? <==> old(u.fs).freeBlocks > 0
    ensures r.Err? ==> r == Err(ENOSPC) && u.fs == old(u.fs)
    ensures r.Ok? ==> var b := r.value; InData(b) && !old(u.fs).bits[b] && u.fs == Taken(old(u.fs), b)
    ensures r.Ok? ==> forall c :: DATA_START <= c < r.value ==> old(u.fs).bits[c]
  {
    hide Ufs.Valid, Bits, FreeSet, FreeInodes, ZeroBlock;
    var bm := new byte[BLOCK_BITMAP_BLOCKS * BLOCK_SIZE](_ => 0);
    ReadBlockBitmap(u, bm);
    ghost var fs := u.fs;
    var b := ScanBlocks(bm, fs.bits);
    if b >= TOTAL_BLOCKS {
      NoneFree(fs.bits);
      return Err(ENOSPC);
    }
    FreeSetTake(fs.bits, b);
    BitmapSet(bm, b);
    WriteBlockBitmap(u, bm);
    u.WriteData(b, ZeroBlock());
    SbFields(u);
    u.FlushSuperblock(u.sb.(freeBlocks := u.sb.freeBlocks - 1));
    assert u.fs == Taken(fs, b);
    return Ok(b);
  }

  lemma NoneFree(bits: seq<bool>)
    requires |bits| == TOTAL_BLOCKS && forall c :: DATA_START <= c < TOTAL_BLOCKS ==> bits[c]
    ensures |FreeSet(bits)| == 0
  {
    assert FreeSet(bits) == {};
  }

  lemma SbFields(u: Ufs)
    requires u.Valid()
    ensures u.sb.freeBlocks == u.fs.freeBlocks && u.sb.freeInodes == u.fs.freeInodes
  {
    hide Bits, InodeTable, DataRegion;
  }

  method ScanBlocks(bm: array<byte>, ghost bits: seq<bool>) returns (b: nat)
    requires bm.Length == BLOCK_BITMAP_BLOCKS * BLOCK_SIZE && bits == Bits(bm[..])
    ensures DATA_START <= b <= TOTAL_BLOCKS
    ensures b < TOTAL_BLOCKS ==> !bits[b]
    ensures forall c :: DATA_START <= c < b ==> bits[c]
  {
    hide Bits, Bit;
    b := DATA_START;
    while b < TOTAL_BLOCKS && BitmapTest(bm, b)
      invariant DATA_START <= b <= TOTAL_BLOCKS
      invariant forall c :: DATA_START <= c < b ==> bits[c]
    {
      BitOfBits(bm, b);
      b := b + 1;
    }
    if b < TOTAL_BLOCKS {
      BitOfBits(bm, b);
    }
  }

  /** Refuses blocks outside the data region; freeing a free block does nothing. */
  method FreeDataBlock(u: Ufs, b: u32) returns (r: Result<()>)
    requires u.Valid() && Counted(u.fs)
    modifies u`fs, u`sb, u.disk
    ensures u.Valid() && Counted(u.fs)
    ensures r == if InData(b) then Ok(()) else Err(EINVAL)
    ensures InData(b) && old(u.fs).bits[b] ==> old(u.fs).freeBlocks < DATA_BLOCKS && u.fs == Released(old(u.fs), b)
    ensures !InData(b) || !old(u.fs).bits[b] ==> u.fs == old(u.fs)
  {
    hide Ufs.Valid, Bits, FreeSet, FreeInodes, Bit;
    if b < DATA_START || b >= TOTAL_BLOCKS {
      return Err(EINVAL);
    }
    var bm := new byte[BLOCK_BITMAP_BLOCKS * BLOCK_SIZE](_ => 0);
    ReadBlockBitmap(u, bm);
    ghost var fs := u.fs;
    BitOfBits(bm, b);
    if !BitmapTest(bm, b) {
      return Ok(());
    }
    FreeSetGive(fs.bits, b);
    FreeSetBounds(fs.bits[b := false]);
    BitmapClear(bm, b);
    WriteBlockBitmap(u, bm);
    SbFields(u);
    u.FlushSuperblock(u.sb.(freeBlocks := u.sb.freeBlocks + 1));
    assert u.fs == Released(fs, b);
    return Ok(());
  }

  // ---- inodes ----

  /** The generation a reused slot gets: one more than the last, never zero. */
  function NextGeneration(g: u32): u32 {
    if g == 0 then 1
    else
      var next := (g as int + 1) % 0x1_0000_0000;
      if next == 0 then 1 else next
  }

  /** A freshly allocated inode. */
  function FreshInode(old_: Inode): Inode {
    InitInode(TYPE_FREE).(generation := NextGeneration(old_.generation))
  }

  function InodeTaken(fs: Fs, i: nat): Fs
    requires i < |fs.ibits| && i < |fs.inodes| && fs.freeInodes > 0
  {
    fs.(ibits := fs.ibits[i := true], inodes := fs.inodes[i := FreshInode(fs.inodes[i])],
      freeInodes := fs.freeInodes - 1)
  }

  /** First fit from inode 1; the slot comes back empty with a new generation. */
  method AllocateInode(u: Ufs) returns (r: Result<u32>)
    requires u.Valid() && Counted(u.fs)
    modifies u`fs, u`sb, u.disk
    ensures u.Valid() && Counted(u.fs)
    ensures r.Ok? <==> old(u.fs).freeInodes > 0
    ensures r.Err? ==> r == Err(ENOSPC) && u.fs == old(u.fs)
    ensures r.Ok? ==> var i := r.value;
                      0 < i < MAX_INODES && !old(u.fs).ibits[i] && u.fs == InodeTaken(old(u.fs), i)
    ensures r.Ok? ==> forall c :: 1 <= c < r.value ==> old(u.fs).ibits[c]
  {
    hide Ufs.Valid, Bits, FreeSet, FreeInodes, InitInode;
    var bm := new byte[BLOCK_SIZE](_ => 0);
    ReadInodeBitmap(u, bm);
    ghost var fs := u.fs;
    var i := ScanInodes(bm, fs.ibits);
    if i >= MAX_INODES {
      NoInodeFree(fs.ibits);
      return Err(ENOSPC);
    }
    FreeInodesTake(fs.ibits, i);
    ghost var bits := Bits(bm[..]);
    BitmapSet(bm, i);
    assert bits[i := true][..MAX_INODES] == bits[..MAX_INODES][i := true];
    WriteInodeBitmap(u, bm);
    var existing := u.ReadInode(i);
    var _ := u.WriteInode(i, FreshInode(existing.value));
    SbFields(u);
    u.FlushSuperblock(u.sb.(freeInodes := u.sb.freeInodes - 1));
    assert u.fs == InodeTaken(fs, i);
    return Ok(i);
  }

  lemma NoInodeFree(ibits: seq<bool>)
    requires |ibits| == MAX_INODES && forall c :: 1 <= c < MAX_INODES ==> ibits[c]
    ensures |FreeInodes(ibits)| == 0
  {
    assert FreeInodes(ibits) == {};
  }

  method ScanInodes(bm: array<byte>, ghost ibits: seq<bool>) returns (i: nat)
    requires bm.Length == BLOCK_SIZE && ibits == Bits(bm[..])[..MAX_INODES]
    ensures 1 <= i <= MAX_INODES
    ensures i < MAX_INODES ==> !ibits[i]
    ensures forall c :: 1 <= c < i ==> ibits[c]
  {
    hide Bits, Bit;
    i := 1;
    while i < MAX_INODES && BitmapTest(bm, i)
      invariant 1 <= i <= MAX_INODES
      invariant forall c :: 1 <= c < i ==> ibits[c]
    {
      BitOfBits(bm, i);
      i := i + 1;
    }
    if i < MAX_INODES {
      BitOfBits(bm, i);
    }
  }
}
