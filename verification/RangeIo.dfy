/** The chunk loops that copy between a caller's buffer and the blocks of an inode
    (src/file_io.c and src/mmap_io.c have one of each). */
module RangeIo {
  import opened Layout
  import opened Encoding
  import opened Context
  import opened Allocator
  import opened Ownership
  import opened TreeSteps
  import opened PointerTree
  import opened FileContent
  import opened Truncate

  /** The caller's copy of an allocated inode agrees with the disk on everything but time stamps. */
  ghost predicate Current(fs: Fs, inum: nat, ino: Inode, o: Owner) {
    && FsInv(fs, o) && Allocated(fs, inum) && inum < |fs.inodes|
    && ino.(times := fs.inodes[inum].times) == fs.inodes[inum]
  }

  lemma CurrentHolding(fs: Fs, inum: nat, ino: Inode, o: Owner)
    requires Current(fs, inum, ino, o)
    ensures Holding(fs, inum, ino, o) && inum < MAX_INODES && WellFormed(fs)
    ensures forall s :: SlotVal(fs.data, ino, s) == Val(fs, inum, s)
    ensures ino.size == fs.inodes[inum].size
  {
    hide FreeSet, FreeInodes, Owned, InodeOk, BlockWords;
    InvShape(fs, o);
    OwnedBits(fs, o);
    var m := WithMem(fs, inum, ino);
    OwnedKeep(fs, o, m);
  }

  /** A position inside the file lies in a block that is present. */
  lemma PositionPresent(fs: Fs, o: Owner, inum: nat, p: nat)
    requires FsInv(fs, o) && Allocated(fs, inum) && inum < |fs.inodes| && p < fs.inodes[inum].size
    ensures p / BLOCK_SIZE < MAX_FILE_BLOCKS
    ensures Val(fs, inum, Leaf(p / BLOCK_SIZE)) != INVALID && InData(Val(fs, inum, Leaf(p / BLOCK_SIZE)))
    ensures forall q :: p / BLOCK_SIZE * BLOCK_SIZE <= q < p / BLOCK_SIZE * BLOCK_SIZE + BLOCK_SIZE ==>
              ByteAt(fs, inum, q) == fs.data[Val(fs, inum, Leaf(p / BLOCK_SIZE)) as nat][q % BLOCK_SIZE]
  {
    hide SlotVal, Owned, FreeSet, FreeInodes;
    InvShape(fs, o);
    var lb := p / BLOCK_SIZE;
    assert Needed(Leaf(lb), fs.inodes[inum].blockCount);
    PtrOwned(fs, o, inum, Leaf(lb));
    forall q | lb * BLOCK_SIZE <= q < lb * BLOCK_SIZE + BLOCK_SIZE
      ensures q / BLOCK_SIZE == lb
    {
    }
  }

  /** Copy count bytes starting at offset out of the file. */
  method ReadChunks(u: Ufs, inum: u32, ino: Inode, offset: nat, count: nat, ghost o: Owner) returns (data: Bytes)
    requires u.Valid() && Current(u.fs, inum, ino, o) && offset + count <= ino.size
    ensures data == Content(u.fs, inum)[offset..offset + count]
  {
    hide Ufs.Valid, FsInv, SlotVal, Content, Current, Holding;
    CurrentHolding(u.fs, inum, ino, o);
    CurrentParts(u.fs, inum, ino, o);
    data := [];
    while |data| < count
      invariant |data| <= count
      invariant data == Content(u.fs, inum)[offset..offset + |data|]
    {
      var position := offset + |data|;
      var logical, inside := position / BLOCK_SIZE, position % BLOCK_SIZE;
      var chunk := Min(BLOCK_SIZE - inside, count - |data|);
      PositionPresent(u.fs, o, inum, position);
      var physical := GetInodeDataBlock(u, ino, logical, inum, o);
      var block := u.ReadData(physical.value);
      ChunkRead(u.fs, o, inum, position, chunk);
      SliceJoin(Content(u.fs, inum), offset, position, position + chunk);
      data := data + block[inside..inside + chunk];
    }
  }

  lemma SliceJoin(c: Bytes, a: nat, b: nat, d: nat)
    requires a <= b <= d <= |c|
    ensures c[a..b] + c[b..d] == c[a..d]
  {
  }

  /** Part of a block is part of the content. */
  lemma ChunkRead(fs: Fs, o: Owner, inum: nat, position: nat, chunk: nat)
    requires FsInv(fs, o) && Allocated(fs, inum) && inum < |fs.inodes|
    requires 0 < chunk && position % BLOCK_SIZE + chunk <= BLOCK_SIZE && position + chunk <= fs.inodes[inum].size
    ensures InData(Val(fs, inum, Leaf(position / BLOCK_SIZE)))
    ensures var b := Val(fs, inum, Leaf(position / BLOCK_SIZE)) as nat; var inside := position % BLOCK_SIZE;
            b in fs.data && fs.data[b][inside..inside + chunk] == Content(fs, inum)[position..position + chunk]
  {
    hide FsInv, Val, ByteAt;
    PositionPresent(fs, o, inum, position);
    WellFormedInv(fs, o);
    var b, inside := Val(fs, inum, Leaf(position / BLOCK_SIZE)) as nat, position % BLOCK_SIZE;
    var x, y := fs.data[b][inside..inside + chunk], Content(fs, inum)[position..position + chunk];
    forall k | 0 <= k < chunk ensures x[k] == y[k] {
      assert (position + k) % BLOCK_SIZE == inside + k;
      assert y[k] == ByteAt(fs, inum, position + k);
    }
  }

  lemma CurrentParts(fs: Fs, inum: nat, ino: Inode, o: Owner)
    requires Current(fs, inum, ino, o)
    ensures FsInv(fs, o) && Allocated(fs, inum) && inum < |fs.inodes| && ino.size == fs.inodes[inum].size
  {
  }

  /** Overwriting part of a block inside the file keeps the invariant and splices the content. */
  lemma ChunkWritten(fs: Fs, o: Owner, inum: nat, position: nat, part: Bytes)
    requires FsInv(fs, o) && Allocated(fs, inum) && inum < |fs.inodes|
    requires 0 < |part| && position % BLOCK_SIZE + |part| <= BLOCK_SIZE && position + |part| <= fs.inodes[inum].size
    ensures InData(Val(fs, inum, Leaf(position / BLOCK_SIZE)))
    ensures var b := Val(fs, inum, Leaf(position / BLOCK_SIZE)) as nat;
            var fs' := fs.(data := fs.data[b := Splice(fs.data[b], position % BLOCK_SIZE, part)]);
            && FsInv(fs', o) && OtherContents(fs, fs', inum)
            && Content(fs', inum) == Splice(Content(fs, inum), position, part)
  {
    hide SlotVal, Owned, FreeSet, FreeInodes, Val, ByteAt, Dense;
    InvShape(fs, o);
    PositionPresent(fs, o, inum, position);
    var lb, inside := position / BLOCK_SIZE, position % BLOCK_SIZE;
    var b: nat := Val(fs, inum, Leaf(lb));
    var blk := Splice(fs.data[b], inside, part);
    var fs' := fs.(data := fs.data[b := blk]);
    LeafWrite(fs, o, inum, lb, blk);
    OthersFine(fs, o, fs', o, inum);
    forall p: nat ensures ByteAt(fs', inum, p)
                          == if position <= p < position + |part| then part[p - position] else ByteAt(fs, inum, p)
    {
      if p / BLOCK_SIZE == lb {
        assert p == lb * BLOCK_SIZE + p % BLOCK_SIZE;
      }
    }
    SameDense(fs, fs', inum, fs.inodes[inum].blockCount);
    assert InodeOk(fs', inum);
    assert Content(fs', inum) == Splice(Content(fs, inum), position, part);
  }

  lemma SameDense(fs: Fs, fs': Fs, i: nat, n: nat)
    requires Dense(fs, i, n) && i < |fs'.inodes| && Allocated(fs, i)
    requires forall j: nat, s :: Allocated(fs, j) && j < |fs'.inodes| ==> Val(fs', j, s) == Val(fs, j, s)
    ensures Dense(fs', i, n)
  {
    hide SlotVal;
  }

  lemma SpliceTwice(c: Bytes, at: nat, a: Bytes, b: Bytes)
    requires at + |a| + |b| <= |c|
    ensures Splice(Splice(c, at, a), at + |a|, b) == Splice(c, at, a + b)
  {
  }

  lemma OthersTrans(a: Fs, b: Fs, c: Fs, i: nat)
    requires OtherContents(a, b, i) && OtherContents(b, c, i) && b.ibits == a.ibits
    ensures OtherContents(a, c, i)
  {
    hide Content;
    forall j: nat | Allocated(a, j) && j != i ensures Content(c, j) == Content(a, j) {
      assert Allocated(b, j);
    }
  }

  /** Copy the buffer into the file at start; the file is already long enough. */
  method WriteChunks(u: Ufs, inum: u32, ino: Inode, start: nat, buf: Bytes, ghost o: Owner)
    requires u.Valid() && Current(u.fs, inum, ino, o) && start + |buf| <= ino.size
    modifies u`fs, u.disk
    ensures u.Valid() && Current(u.fs, inum, ino, o)
    ensures u.fs == old(u.fs).(data := u.fs.data)
    ensures Content(u.fs, inum) == Splice(Content(old(u.fs), inum), start, buf)
    ensures OtherContents(old(u.fs), u.fs, inum)
  {
    hide Ufs.Valid, FsInv, SlotVal, Content, OtherContents, Holding, Val, Splice;
    ghost var fs0 := u.fs;
    CurrentParts(fs0, inum, ino, o);
    OthersRefl(fs0, inum);
    SpliceNothing(Content(fs0, inum), start);
    var total := 0;
    assert buf[..0] == [];
    while total < |buf|
      invariant 0 <= total <= |buf|
      invariant u.Valid() && Current(u.fs, inum, ino, o) && u.fs == fs0.(data := u.fs.data)
      invariant Content(u.fs, inum) == Splice(Content(fs0, inum), start, buf[..total])
      invariant OtherContents(fs0, u.fs, inum)
    {
      ghost var fs1 := u.fs;
      CurrentHolding(fs1, inum, ino, o);
      CurrentParts(fs1, inum, ino, o);
      var position := start + total;
      var logical, inside := position / BLOCK_SIZE, position % BLOCK_SIZE;
      var chunk := Min(BLOCK_SIZE - inside, |buf| - total);
      var part := buf[total..total + chunk];
      PositionPresent(fs1, o, inum, position);
      var physical := GetInodeDataBlock(u, ino, logical, inum, o);
      var block: Block;
      ghost var was := fs1.data[physical.value as nat];
      if inside == 0 && chunk == BLOCK_SIZE {
        block := part;
        SpliceAll(was, part);
      } else {
        block := u.ReadData(physical.value);
        block := Splice(block, inside, part);
      }
      ChunkWritten(fs1, o, inum, position, part);
      u.WriteData(physical.value, block);
      SpliceTwice(Content(fs0, inum), start, buf[..total], part);
      assert buf[..total] + part == buf[..total + chunk];
      OthersTrans(fs0, fs1, u.fs, inum);
      total := total + chunk;
    }
    assert buf[..|buf|] == buf;
  }

  lemma OthersRefl(fs: Fs, i: nat)
    ensures OtherContents(fs, fs, i)
  {
    hide Content;
  }

  lemma SpliceNothing(c: Bytes, at: nat)
    requires at <= |c|
    ensures Splice(c, at, []) == c
  {
  }

  lemma SpliceAll(c: Bytes, part: Bytes)
    requires |part| == |c|
    ensures Splice(c, 0, part) == part
  {
  }
}
