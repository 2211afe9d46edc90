/** The byte content of an inode, the shape of a file of n blocks, and the invariant every
    operation keeps. */
module FileContent {
  import opened Layout
  import opened Context
  import opened Allocator
  import opened Ownership
  import opened TreeSteps

  // ---- how many blocks a file of n blocks owns ----

  /** Pointer blocks of a file of n data blocks. */
  function PointerBlocks(n: nat): nat {
    (if n > SINGLE_START then 1 else 0)
    + (if n > DOUBLE_START then 1 + CeilDiv(n - DOUBLE_START, PTRS_PER_BLOCK) else 0)
  }

  function Cost(n: nat): nat { n + PointerBlocks(n) }

  lemma CostMonotone(a: nat, b: nat)
    requires a <= b
    ensures Cost(a) <= Cost(b)
  {
  }

  /** Inode i has exactly the pointers a file of n blocks needs. */
  ghost predicate Dense(fs: Fs, i: nat, n: nat) {
    i < |fs.inodes| && forall s :: Val(fs, i, s) != INVALID <==> Needed(s, n)
  }

  /** The next block of a dense file costs the difference. */
  lemma NextBlockCost(fs: Fs, i: nat, n: nat)
    requires Dense(fs, i, n)
    ensures Missing(fs, i, n) == Cost(n + 1) - Cost(n)
  {
    hide SlotVal;
    assert Val(fs, i, Leaf(n)) != INVALID <==> Needed(Leaf(n), n);
    assert Val(fs, i, Single) != INVALID <==> Needed(Single, n);
    assert Val(fs, i, Double) != INVALID <==> Needed(Double, n);
    if n >= DOUBLE_START {
      var q := (n - DOUBLE_START) / PTRS_PER_BLOCK;
      assert Val(fs, i, Level(q)) != INVALID <==> Needed(Level(q), n);
    }
  }

  lemma StillNeeded(s: Slot, a: nat, b: nat)
    requires a <= b
    ensures Needed(s, a) ==> Needed(s, b)
  {
  }

  /** Going from n to n + 1 blocks, the newly needed slots are those on the path to block n. */
  lemma NeededNext(s: Slot, n: nat)
    ensures Needed(s, n + 1) ==> Needed(s, n) || OnPath(s, n)
    ensures OnPath(s, n) ==> Needed(s, n + 1)
  {
  }

  // ---- contents ----

  /** Byte p of inode i as stored, 0 where no block is present. */
  function ByteAt(fs: Fs, i: nat, p: nat): byte
    requires i < |fs.inodes|
  {
    var b := Val(fs, i, Leaf(p / BLOCK_SIZE));
    if b in fs.data then fs.data[b][p % BLOCK_SIZE] else 0
  }

  /** The byte sequence a reader sees. */
  function Content(fs: Fs, i: nat): (c: Bytes)
    requires i < |fs.inodes|
    ensures |c| == fs.inodes[i].size
  {
    seq(fs.inodes[i].size, p requires 0 <= p < fs.inodes[i].size => ByteAt(fs, i, p))
  }

  /** Nothing is left behind the end of the file in its last block. */
  ghost predicate TailZero(fs: Fs, i: nat)
    requires i < |fs.inodes|
  {
    forall p :: fs.inodes[i].size <= p < BLOCK_SIZE * fs.inodes[i].blockCount ==> ByteAt(fs, i, p) == 0
  }

  ghost predicate InodeOk(fs: Fs, i: nat) {
    && i < |fs.inodes|
    && fs.inodes[i].blockCount == CeilDiv(fs.inodes[i].size, BLOCK_SIZE) <= MAX_FILE_BLOCKS
    && Dense(fs, i, fs.inodes[i].blockCount)
    && TailZero(fs, i)
  }

  /** What every operation keeps: exact counters, exclusive ownership, and every allocated inode
      holding exactly the blocks its size calls for. */
  ghost predicate FsInv(fs: Fs, owner: Owner) {
    && Counted(fs) && Owned(fs, owner)
    && forall i: nat :: Allocated(fs, i) ==> InodeOk(fs, i)
  }

  lemma InvShape(fs: Fs, o: Owner)
    requires FsInv(fs, o)
    ensures Counted(fs) && WellFormed(fs) && Owned(fs, o)
    ensures forall i: nat :: Allocated(fs, i) ==> i < MAX_INODES && InodeOk(fs, i)
  {
    hide Owned, InodeOk;
  }

  lemma WellFormedInv(fs: Fs, o: Owner)
    requires FsInv(fs, o)
    ensures WellFormed(fs) && Counted(fs) && Owned(fs, o)
  {
    hide Owned, InodeOk, FreeSet, FreeInodes;
  }

  /** Same-inode views: pointers, size and leaf data agree. */
  lemma ContentFrame(fs: Fs, o: Owner, fs': Fs, o': Owner, i: nat)
    requires Owned(fs, o) && Owned(fs', o') && Allocated(fs, i) && Allocated(fs', i)
    requires forall lb :: Val(fs', i, Leaf(lb)) == Val(fs, i, Leaf(lb))
    requires forall b :: b in o && o[b].inum == i && o[b].slot.Leaf? ==> fs'.data[b] == fs.data[b]
    ensures forall p :: ByteAt(fs', i, p) == ByteAt(fs, i, p)
    ensures fs'.inodes[i].size == fs.inodes[i].size ==> Content(fs', i) == Content(fs, i)
  {
    hide SlotVal;
    forall p: nat ensures ByteAt(fs', i, p) == ByteAt(fs, i, p) {
      var lb := p / BLOCK_SIZE;
      PtrOwned(fs, o, i, Leaf(lb));
      assert Val(fs', i, Leaf(lb)) == Val(fs, i, Leaf(lb));
    }
  }

  /** An inode none of whose blocks or fields changed keeps its content and its order. */
  lemma InodeFrame(fs: Fs, o: Owner, fs': Fs, o': Owner, i: nat)
    requires Owned(fs, o) && Owned(fs', o') && Allocated(fs, i) && Allocated(fs', i)
    requires fs'.inodes[i].size == fs.inodes[i].size && fs'.inodes[i].blockCount == fs.inodes[i].blockCount
    requires forall s :: Val(fs', i, s) == Val(fs, i, s)
    requires forall b :: b in o && o[b].inum == i && o[b].slot.Leaf? ==> fs'.data[b] == fs.data[b]
    ensures InodeOk(fs, i) ==> InodeOk(fs', i)
    ensures Content(fs', i) == Content(fs, i)
  {
    hide SlotVal, Owned, ByteAt;
    InodeBounds(fs, i);
    ContentFrame(fs, o, fs', o', i);
    if InodeOk(fs, i) {
      assert Dense(fs', i, fs'.inodes[i].blockCount);
    }
  }

  lemma InodeBounds(fs: Fs, i: nat)
    requires Allocated(fs, i)
    ensures i < |fs.inodes|
  {
  }

  /** The slots of every inode but i are determined by the part of the owner map that is not i's. */
  lemma OthersKept(fs: Fs, o: Owner, fs': Fs, o': Owner, i: nat, j: nat)
    requires Owned(fs, o) && Owned(fs', o') && j != i && Allocated(fs, j) && Allocated(fs', j)
    requires forall b :: b in o && o[b].inum == j ==> b in o' && o'[b] == o[b]
    requires forall b :: b in o' && o'[b].inum == j ==> b in o && o[b] == o'[b]
    ensures forall s :: Val(fs', j, s) == Val(fs, j, s)
  {
    hide SlotVal;
    forall s ensures Val(fs', j, s) == Val(fs, j, s) {
      PtrOwned(fs, o, j, s);
      PtrOwned(fs', o', j, s);
    }
  }

  /** Between (fs, o) and (fs', o') only inode i was worked on. */
  ghost predicate OnlyInode(fs: Fs, o: Owner, fs': Fs, o': Owner, i: nat) {
    && WellFormed(fs) && WellFormed(fs') && fs'.ibits == fs.ibits
    && (forall j :: 0 <= j < MAX_INODES && j != i ==> fs'.inodes[j] == fs.inodes[j])
    && (forall b :: b in o && o[b].inum != i ==> b in o' && o'[b] == o[b])
    && (forall b :: b in o' && o'[b].inum != i ==> b in o && o[b] == o'[b])
    && (forall b :: b in o && o[b].inum != i && o[b].slot.Leaf? && InData(b) ==> fs'.data[b] == fs.data[b])
  }

  /** All other inodes keep their content. */
  ghost predicate OtherContents(fs: Fs, fs': Fs, i: nat) {
    && |fs'.inodes| == |fs.inodes|
    && forall j: nat :: Allocated(fs, j) && j != i ==> Content(fs', j) == Content(fs, j)
  }

  lemma OthersFine(fs: Fs, o: Owner, fs': Fs, o': Owner, i: nat)
    requires FsInv(fs, o) && Owned(fs', o') && OnlyInode(fs, o, fs', o', i)
    ensures forall j: nat :: Allocated(fs', j) && j != i ==> InodeOk(fs', j)
    ensures OtherContents(fs, fs', i)
  {
    hide SlotVal, InodeOk, Content, Owned, Counted;
    InvShape(fs, o);
    forall j: nat | Allocated(fs', j) && j != i ensures InodeOk(fs', j) && Content(fs', j) == Content(fs, j) {
      OwnerClaims(fs, o);
      OthersKept(fs, o, fs', o', i, j);
      InodeFrame(fs, o, fs', o', j);
    }
  }

  lemma OwnerClaims(fs: Fs, o: Owner)
    requires Owned(fs, o)
    ensures forall b :: b in o ==> InData(b)
  {
    hide SlotVal;
  }
}
