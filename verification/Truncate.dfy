/** ufs_truncate_inode (src/userfs_storage.c): sequence resize, with growth that is undone exactly
    when the disk is too full. */
module Truncate {
  import opened Layout
  import opened Encoding
  import opened Context
  import opened Allocator
  import opened Ownership
  import opened TreeSteps
  import opened PointerTree
  import opened Trim
  import opened FileContent

  /** Cut to n bytes, or extend with zeros. */
  function Resize(c: Bytes, n: nat): (r: Bytes)
    ensures |r| == n
  {
    if n <= |c| then c[..n] else c + seq(n - |c|, _ => 0)
  }

  // ---- dense growth, block by block ----

  /** From (m0, o0) inode i has grown from n0 to n blocks: the old blocks are untouched, the new
      ones read as zero, and each needed block and pointer block cost one free block. */
  ghost predicate Extended(m0: Fs, o0: Owner, m: Fs, o: Owner, i: nat, n0: nat, n: nat) {
    && Owned(m0, o0) && Owned(m, o) && Allocated(m0, i) && i < MAX_INODES && n0 <= n
    && m.ibits == m0.ibits && m.freeInodes == m0.freeInodes && ReservedSame(m0, m)
    && m.inodes == m0.inodes[i := m0.inodes[i].(direct := m.inodes[i].direct, single := m.inodes[i].single,
                                                double := m.inodes[i].double)]
    && (forall b :: b in o0 ==> b in o && o[b] == o0[b])
    && (forall b :: b in o && b !in o0 ==> o[b].inum == i && !Needed(o[b].slot, n0))
    && (forall b :: b in o0 && o0[b].slot.Leaf? ==> m.data[b] == m0.data[b])
    && (forall b :: b in o && b !in o0 && o[b].slot.Leaf? ==> m.data[b] == ZeroBlock())
    && Dense(m0, i, n0) && Dense(m, i, n)
    && m.freeBlocks + Cost(n) == m0.freeBlocks + Cost(n0)
  }

  lemma ExtendedRefl(m: Fs, o: Owner, i: nat, n: nat)
    requires Owned(m, o) && Allocated(m, i) && i < MAX_INODES && Dense(m, i, n)
    ensures Extended(m, o, m, o, i, n, n)
  {
    hide SlotVal, ZeroBlock, Cost, Dense;
    OwnedBits(m, o);
    assert m.inodes[i := m.inodes[i].(direct := m.inodes[i].direct)] == m.inodes;
  }

  lemma DenseNext(m: Fs, o: Owner, m': Fs, o': Owner, i: nat, n: nat)
    requires Owned(m, o) && Owned(m', o') && Allocated(m, i) && Dense(m, i, n)
    requires Grown(m, o, m', o', i, n) && Missing(m', i, n) == 0
    ensures Dense(m', i, n + 1)
  {
    hide SlotVal, Owned, Grown;
    GrownSlots(m, o, m', o', i, n);
    GrownShape(m, o, m', o', i, n);
    forall s ensures Val(m', i, s) != INVALID <==> Needed(s, n + 1) {
      NeededNext(s, n);
      if Needed(s, n) {
        StillNeeded(s, n, n + 1);
      }
    }
  }

  lemma GrownShape(m: Fs, o: Owner, m': Fs, o': Owner, i: nat, n: nat)
    requires Grown(m, o, m', o', i, n)
    ensures i < |m'.inodes| && i < |m.inodes|
    ensures m'.freeBlocks - Missing(m', i, n) == m.freeBlocks - Missing(m, i, n)
  {
    hide Missing;
  }

  /** New slots on the path to block n were absent, hence not needed before. */
  lemma NewSlotsOwned(m0: Fs, o0: Owner, m: Fs, o: Owner, m': Fs, o': Owner, i: nat, n0: nat, n: nat)
    requires Extended(m0, o0, m, o, i, n0, n) && Grown(m, o, m', o', i, n) && Owned(m', o')
    ensures forall b :: b in o0 ==> b in o' && o'[b] == o0[b]
    ensures forall b :: b in o' && b !in o0 ==> o'[b].inum == i && !Needed(o'[b].slot, n0)
    ensures forall b :: b in o0 && o0[b].slot.Leaf? ==> m'.data[b] == m0.data[b]
    ensures forall b :: b in o' && b !in o0 && o'[b].slot.Leaf? ==> m'.data[b] == ZeroBlock()
  {
    hide SlotVal, ZeroBlock, Cost, Missing;
    GrownSlots(m, o, m', o', i, n);
    forall b | b in o' && b !in o ensures !Needed(o'[b].slot, n0) {
      var s := o'[b].slot;
      OwnerVal(m', o', b);
      PtrOwned(m, o, i, s);
      assert Val(m, i, s) == INVALID;
      StillNeeded(s, n0, n);
    }
  }

  lemma ExtendStep(m0: Fs, o0: Owner, m: Fs, o: Owner, m': Fs, o': Owner, i: nat, n0: nat, n: nat)
    requires Extended(m0, o0, m, o, i, n0, n) && Grown(m, o, m', o', i, n) && Owned(m', o')
    requires Missing(m', i, n) == 0
    ensures Extended(m0, o0, m', o', i, n0, n + 1)
  {
    hide SlotVal, ZeroBlock, Cost, Missing, Owned, Dense, Needed, OnPath;
    NewSlotsOwned(m0, o0, m, o, m', o', i, n0, n);
    DenseNext(m, o, m', o', i, n);
    NextBlockCost(m, i, n);
  }

  // ---- undoing a growth ----

  /** Two file systems that differ at most in blocks nobody owns. */
  ghost predicate SameStore(fs: Fs, fs': Fs, o: Owner) {
    && WellFormed(fs) && WellFormed(fs')
    && fs'.bits == fs.bits && fs'.ibits == fs.ibits && fs'.inodes == fs.inodes
    && fs'.freeBlocks == fs.freeBlocks && fs'.freeInodes == fs.freeInodes
    && forall b :: b in o && InData(b) ==> fs'.data[b] == fs.data[b]
  }

  /** After a failed growth, trimming back to the old block count restores the owner map. */
  lemma RollbackOwner(m0: Fs, o0: Owner, m: Fs, o: Owner, m': Fs, o': Owner, i: nat, n0: nat)
    requires Owned(m0, o0) && Allocated(m0, i) && Dense(m0, i, n0)
    requires forall b :: b in o0 ==> b in o && o[b] == o0[b]
    requires forall b :: b in o && b !in o0 ==> o[b].inum == i && !Needed(o[b].slot, n0)
    requires Trimmed(m, o, m', o', i, KeepNeeded(n0))
    ensures o' == o0
  {
    hide SlotVal, Needed;
    forall b | b in o0 && o0[b].inum == i ensures Needed(o0[b].slot, n0) {
      assert Val(m0, i, o0[b].slot) == b;
    }
    assert o'.Keys == o0.Keys;
  }

  /** With the same owner map, every pointer is the same. */
  lemma SameOwnerSameVal(m0: Fs, m: Fs, o: Owner, i: nat)
    requires Owned(m0, o) && Owned(m, o) && Allocated(m0, i) && Allocated(m, i)
    ensures forall s :: Val(m, i, s) == Val(m0, i, s)
  {
    hide SlotVal;
    forall s ensures Val(m, i, s) == Val(m0, i, s) {
      PtrOwned(m0, o, i, s);
      PtrOwned(m, o, i, s);
    }
  }

  /** A pointer block's bytes are determined by the pointers of its inode. */
  lemma SameOwnerSameBlock(m0: Fs, m: Fs, o: Owner, b: nat)
    requires Owned(m0, o) && Owned(m, o) && m.ibits == m0.ibits && b in o && !o[b].slot.Leaf?
    ensures InData(b) && m.data[b] == m0.data[b]
  {
    hide SlotVal, BlockWords, WordsBlock, Owned;
    OwnedBits(m0, o);
    OwnedBits(m, o);
    var i, p := o[b].inum, o[b].slot;
    OwnerVal(m0, o, b);
    OwnerVal(m, o, b);
    LevelInRange(m0, i, p);
    SameOwnerSameVal(m0, m, o, i);
    var w0, w := BlockWords(m0.data[b]), BlockWords(m.data[b]);
    forall k | 0 <= k < PTRS_PER_BLOCK ensures w[k] == w0[k] {
      ChildVal(m0.data, m0.inodes[i], p, k);
      ChildVal(m.data, m.inodes[i], p, k);
      assert Val(m, i, Child(p, k)) == Val(m0, i, Child(p, k));
    }
    assert w == w0;
    WordsBlockRoundTrip(m0.data[b]);
    WordsBlockRoundTrip(m.data[b]);
  }

  lemma LevelInRange(m: Fs, i: nat, p: Slot)
    requires i < |m.inodes| && Val(m, i, p) != INVALID
    ensures p.Level? ==> p.k < PTRS_PER_BLOCK
  {
  }

  /** So an undone growth is undone exactly. */
  lemma Rollback(m0: Fs, o: Owner, m: Fs, i: nat, size: u64, blockCount: u32)
    requires Counted(m0) && Counted(m) && Owned(m0, o) && Owned(m, o) && Allocated(m0, i) && i < MAX_INODES
    requires m.ibits == m0.ibits && m.freeInodes == m0.freeInodes && ReservedSame(m0, m)
    requires m.inodes == m0.inodes[i := m0.inodes[i].(direct := m.inodes[i].direct, single := m.inodes[i].single,
                                                      double := m.inodes[i].double)]
    requires forall b :: b in o && o[b].slot.Leaf? && InData(b) ==> m.data[b] == m0.data[b]
    ensures SameStore(m0, m, o)
  {
    hide SlotVal, FreeSet, FreeInodes, Owned;
    OwnedBits(m0, o);
    OwnedBits(m, o);
    assert m.bits == m0.bits by {
      forall b | 0 <= b < TOTAL_BLOCKS ensures m.bits[b] == m0.bits[b] {
        assert b in o <==> InData(b) && m.bits[b];
        assert b in o <==> InData(b) && m0.bits[b];
      }
    }
    forall b | b in o && InData(b) ensures m.data[b] == m0.data[b] {
      if !o[b].slot.Leaf? {
        SameOwnerSameBlock(m0, m, o, b);
      }
    }
    SameOwnerSamePointers(m0, m, o, i);
    assert m.inodes[i] == m0.inodes[i];
    assert m.inodes == m0.inodes;
  }

  lemma SameOwnerSamePointers(m0: Fs, m: Fs, o: Owner, i: nat)
    requires Owned(m0, o) && Owned(m, o) && Allocated(m0, i) && Allocated(m, i)
    ensures i < |m.inodes| && i < |m0.inodes| && SamePointers(m.inodes[i], m0.inodes[i])
  {
    hide Owned, BlockWords;
    InodeBounds(m, i);
    InodeBounds(m0, i);
    SameOwnerSameVal(m0, m, o, i);
    assert Val(m, i, Single) == Val(m0, i, Single) && Val(m, i, Double) == Val(m0, i, Double);
    forall k | 0 <= k < DIRECT_BLOCKS ensures m.inodes[i].direct[k] == m0.inodes[i].direct[k] {
      assert Val(m, i, Leaf(k)) == Val(m0, i, Leaf(k));
    }
    assert m.inodes[i].direct == m0.inodes[i].direct;
  }

  // ---- the growth loop ----

  /** Grow from oldBlocks to newBlocks, or undo. */
  method GrowBlocks(u: Ufs, inum: u32, ino: Inode, oldBlocks: nat, newBlocks: nat, ghost o: Owner)
    returns (ok: bool, ino': Inode, ghost o': Owner)
    requires u.Valid() && Holding(u.fs, inum, ino, o) && u.fs.inodes[inum] == ino
    requires oldBlocks <= newBlocks <= MAX_FILE_BLOCKS && Dense(u.fs, inum, oldBlocks)
    modifies u`fs, u`sb, u.disk
    ensures u.Valid()
    ensures ok <==> Cost(newBlocks) - Cost(oldBlocks) <= old(u.fs).freeBlocks
    ensures ok ==> Holding(u.fs, inum, ino', o')
                   && Extended(old(u.fs), o, WithMem(u.fs, inum, ino'), o', inum, oldBlocks, newBlocks)
    ensures !ok ==> Counted(u.fs) && Owned(u.fs, o) && o' == o && ino' == ino && SameStore(old(u.fs), u.fs, o)
  {
    hide Ufs.Valid, Owned, Counted, SlotVal, Val, Holding, Extended, Grown, Growth, Cost, Dense, Missing;
    HoldingShape(u.fs, inum, ino, o);
    ghost var fs0 := u.fs;
    assert WithMem(fs0, inum, ino) == fs0;
    ino', o' := ino, o;
    HoldingOwned(fs0, inum, ino, o);
    ExtendedRefl(fs0, o, inum, oldBlocks);
    for lb := oldBlocks to newBlocks
      invariant u.Valid() && Holding(u.fs, inum, ino', o') && inum < |u.fs.inodes|
      invariant Extended(fs0, o, WithMem(u.fs, inum, ino'), o', inum, oldBlocks, lb)
    {
      ghost var fs1, ino1, o1 := u.fs, ino', o';
      var r;
      r, ino', o' := EnsureInodeDataBlock(u, inum, ino', lb, o');
      ReachHolding(fs1, ino1, o1, u.fs, ino', o', inum, lb);
      HoldingShape(u.fs, inum, ino', o');
      GrowStep(fs0, o, fs1, ino1, o1, u.fs, ino', o', inum, oldBlocks, lb, r.Ok?);
      if r.Err? {
        CostMonotone(lb + 1, newBlocks);
        ghost var fs2, ino2, o2 := u.fs, ino', o';
        ino', o' := FreeInodeBlocksAfter(u, inum, ino', oldBlocks, o');
        HoldingShape(u.fs, inum, ino', o');
        UndoGrowth(fs0, o, fs1, ino1, o1, fs2, ino2, o2, u.fs, ino', o', inum, oldBlocks, lb);
        var _ := u.WriteInode(inum, ino'.(size := ino.size));
        return false, ino, o;
      }
    }
    ok := true;
    CostDone(fs0, o, u.fs, ino', o', inum, oldBlocks, newBlocks);
  }

  lemma HoldingOwned(fs: Fs, inum: nat, ino: Inode, o: Owner)
    requires Holding(fs, inum, ino, o) && fs.inodes[inum] == ino
    ensures Owned(fs, o) && Counted(fs)
  {
    assert WithMem(fs, inum, ino) == fs;
  }

  lemma CostDone(fs0: Fs, o: Owner, fs: Fs, ino: Inode, o': Owner, inum: nat, n0: nat, n: nat)
    requires inum < |fs.inodes| && Extended(fs0, o, WithMem(fs, inum, ino), o', inum, n0, n)
    ensures Cost(n) - Cost(n0) <= fs0.freeBlocks
  {
    hide SlotVal, Cost, Owned, Dense;
  }

  /** One turn of the loop: either a dense file one block longer, or too few free blocks. */
  lemma GrowStep(fs0: Fs, o: Owner, fs1: Fs, ino1: Inode, o1: Owner, fs2: Fs, ino2: Inode, o2: Owner,
                 inum: nat, n0: nat, lb: nat, ok: bool)
    requires inum < |fs1.inodes| && Extended(fs0, o, WithMem(fs1, inum, ino1), o1, inum, n0, lb)
    requires Growth(fs1, ino1, o1, fs2, ino2, o2, inum, lb)
    requires ok <==> Missing(WithMem(fs1, inum, ino1), inum, lb) <= fs1.freeBlocks
    requires ok ==> SlotVal(fs2.data, ino2, Leaf(lb)) != INVALID
    requires lb < MAX_FILE_BLOCKS
    ensures inum < |fs2.inodes|
    ensures ok ==> Extended(fs0, o, WithMem(fs2, inum, ino2), o2, inum, n0, lb + 1)
    ensures !ok ==> Cost(lb + 1) - Cost(n0) > fs0.freeBlocks
  {
    hide SlotVal, Owned, Counted, Grown, Missing, Cost, Dense, FreeSet, FreeInodes;
    var m1 := WithMem(fs1, inum, ino1);
    HoldingShape(fs2, inum, ino2, o2);
    NextBlockCost(m1, inum, lb);
    if ok {
      LeafPresent(fs2, ino2, o2, inum, lb);
      ExtendStep(fs0, o, m1, o1, WithMem(fs2, inum, ino2), o2, inum, n0, lb);
    }
  }

  /** If the leaf is present so is the path to it. */
  lemma LeafPresent(fs: Fs, ino: Inode, o: Owner, inum: nat, lb: nat)
    requires Holding(fs, inum, ino, o) && SlotVal(fs.data, ino, Leaf(lb)) != INVALID && lb < MAX_FILE_BLOCKS
    ensures inum < |fs.inodes| && Missing(WithMem(fs, inum, ino), inum, lb) == 0
  {
    hide SlotVal, Owned, Counted;
    HoldingShape(fs, inum, ino, o);
    var m := WithMem(fs, inum, ino);
    assert Val(m, inum, Leaf(lb)) == SlotVal(fs.data, ino, Leaf(lb));
    if lb >= SINGLE_START {
      AbsentAbove(fs, inum, ino, o, lb);
      assert Val(m, inum, Single) == SlotVal(fs.data, ino, Single);
      assert Val(m, inum, Double) == SlotVal(fs.data, ino, Double);
      if lb >= DOUBLE_START {
        var q := Level((lb - DOUBLE_START) / PTRS_PER_BLOCK);
        assert Val(m, inum, q) == SlotVal(fs.data, ino, q);
      }
    }
  }

  /** Failure at block lb, then free_inode_blocks_after(old): the store is as it was. */
  lemma UndoGrowth(fs0: Fs, o: Owner, fs1: Fs, ino1: Inode, o1: Owner, fs2: Fs, ino2: Inode, o2: Owner,
                   fs3: Fs, ino3: Inode, o3: Owner, inum: nat, n0: nat, lb: nat)
    requires inum < |fs1.inodes| && Extended(fs0, o, WithMem(fs1, inum, ino1), o1, inum, n0, lb)
    requires Growth(fs1, ino1, o1, fs2, ino2, o2, inum, lb)
    requires inum < |fs2.inodes| && inum < |fs3.inodes| && Holding(fs3, inum, ino3, o3) && Counted(fs0)
    requires Trimmed(WithMem(fs2, inum, ino2), o2, WithMem(fs3, inum, ino3), o3, inum, KeepNeeded(n0))
    ensures o3 == o && ino3 == fs0.inodes[inum]
    ensures SameStore(fs0, WithMem(fs3, inum, ino3), o)
    ensures Counted(WithMem(fs3, inum, ino3)) && Owned(WithMem(fs3, inum, ino3), o)
  {
    hide SlotVal, Owned, Missing, Cost, Dense, FreeSet, FreeInodes, Needed;
    var m1, m2, m3 := WithMem(fs1, inum, ino1), WithMem(fs2, inum, ino2), WithMem(fs3, inum, ino3);
    NewSlotsOwned(fs0, o, m1, o1, m2, o2, inum, n0, lb);
    RollbackOwner(fs0, o, m2, o2, m3, o3, inum, n0);
    assert m3.inodes == fs0.inodes[inum := fs0.inodes[inum].(direct := ino3.direct, single := ino3.single,
                                                             double := ino3.double)];
    Rollback(fs0, o, m3, inum, ino3.size, ino3.blockCount);
  }

  // ---- the two directions of truncate ----

  function WithSize(ino: Inode, size: u64, blockCount: u32): Inode { ino.(size := size, blockCount := blockCount) }

  /** The bytes of an extended file: the old ones, then zeros. */
  lemma ExtendedBytes(m0: Fs, o0: Owner, m: Fs, o: Owner, i: nat, n0: nat, n: nat, p: nat)
    requires Extended(m0, o0, m, o, i, n0, n) && p < BLOCK_SIZE * n
    ensures i < |m.inodes| && i < |m0.inodes|
    ensures ByteAt(m, i, p) == if p < BLOCK_SIZE * n0 then ByteAt(m0, i, p) else 0
  {
    hide SlotVal, Cost;
    var s := Leaf(p / BLOCK_SIZE);
    PtrOwned(m, o, i, s);
    PtrOwned(m0, o0, i, s);
    assert Val(m, i, s) != INVALID;
    assert Val(m0, i, s) != INVALID <==> Needed(s, n0);
    if p < BLOCK_SIZE * n0 {
      assert o0[Val(m0, i, s)] == o[Val(m0, i, s)] == Claim(i, s);
      SameClaim(m, o, i, s, Val(m0, i, s));
    } else {
      assert Val(m, i, s) !in o0;
    }
  }

  lemma SameClaim(m: Fs, o: Owner, i: nat, s: Slot, b: nat)
    requires Owned(m, o) && b in o && o[b] == Claim(i, s)
    ensures i < |m.inodes| && Val(m, i, s) == b
  {
    hide SlotVal;
  }

  lemma ExtendedShape(m0: Fs, o0: Owner, m: Fs, o: Owner, i: nat, n0: nat, n: nat)
    requires Extended(m0, o0, m, o, i, n0, n)
    ensures Owned(m, o) && Dense(m, i, n) && WellFormed(m0) && WellFormed(m) && i < MAX_INODES
    ensures m.ibits == m0.ibits && m.inodes[i].size == m0.inodes[i].size
    ensures OnlyInode(m0, o0, m, o, i)
  {
    hide SlotVal, Cost, Dense, Needed;
    OwnedBits(m0, o0);
    OwnedBits(m, o);
  }

  lemma SizedSame(m: Fs, o: Owner, i: nat, size: u64, blockCount: u32)
    requires Owned(m, o) && i < |m.inodes|
    ensures var fs := WithMem(m, i, WithSize(m.inodes[i], size, blockCount));
            Owned(fs, o) && forall j: nat, s :: Allocated(m, j) ==> Val(fs, j, s) == Val(m, j, s)
  {
    hide SlotVal, Owned;
    OwnedBits(m, o);
    OwnedKeep(m, o, WithMem(m, i, WithSize(m.inodes[i], size, blockCount)));
  }

  /** Growing a file appends zeros and keeps the invariant. */
  lemma GrowFinish(m0: Fs, o0: Owner, m: Fs, o: Owner, i: nat, n0: nat, n: nat, size: u64)
    requires FsInv(m0, o0) && Counted(m) && Extended(m0, o0, m, o, i, n0, n) && Allocated(m0, i)
    requires n0 == m0.inodes[i].blockCount && n == CeilDiv(size, BLOCK_SIZE) <= MAX_FILE_BLOCKS
    requires size > m0.inodes[i].size
    ensures i < |m.inodes|
    ensures var fs := WithMem(m, i, WithSize(m.inodes[i], size, n));
            FsInv(fs, o) && Content(fs, i) == Resize(Content(m0, i), size) && OtherContents(m0, fs, i)
  {
    hide SlotVal, Owned, Extended, FreeSet, FreeInodes, ByteAt, Val, Dense;
    InvShape(m0, o0);
    ExtendedShape(m0, o0, m, o, i, n0, n);
    var fs := WithMem(m, i, WithSize(m.inodes[i], size, n));
    SizedSame(m, o, i, size, n);
    SizedOnly(m0, o0, m, o, i, size, n);
    OthersFine(m0, o0, fs, o, i);
    forall p: nat | p < BLOCK_SIZE * n
      ensures ByteAt(fs, i, p) == if p < BLOCK_SIZE * n0 then ByteAt(m0, i, p) else 0
    {
      ExtendedBytes(m0, o0, m, o, i, n0, n, p);
      SizedBytes(m, fs, i, p);
    }
    SizedDense(m, fs, i, n);
    assert Content(fs, i) == Resize(Content(m0, i), size);
    assert InodeOk(fs, i);
  }

  lemma SizedOnly(m0: Fs, o0: Owner, m: Fs, o: Owner, i: nat, size: u64, blockCount: u32)
    requires OnlyInode(m0, o0, m, o, i) && i < |m.inodes|
    ensures OnlyInode(m0, o0, WithMem(m, i, WithSize(m.inodes[i], size, blockCount)), o, i)
  {
  }

  lemma SizedBytes(m: Fs, fs: Fs, i: nat, p: nat)
    requires i < |m.inodes| && i < |fs.inodes| && Allocated(m, i)
    requires fs.data == m.data
    requires forall j: nat, s :: Allocated(m, j) && j < |fs.inodes| ==> Val(fs, j, s) == Val(m, j, s)
    ensures ByteAt(fs, i, p) == ByteAt(m, i, p)
  {
    hide SlotVal;
  }

  lemma SizedDense(m: Fs, fs: Fs, i: nat, n: nat)
    requires i < |m.inodes| && i < |fs.inodes| && Allocated(m, i) && Dense(m, i, n)
    requires forall j: nat, s :: Allocated(m, j) && j < |fs.inodes| ==> Val(fs, j, s) == Val(m, j, s)
    ensures Dense(fs, i, n)
  {
    hide SlotVal;
  }

  // shrinking

  lemma TrimmedShape(m0: Fs, o0: Owner, m: Fs, o: Owner, i: nat, keep: nat)
    requires Owned(m0, o0) && Owned(m, o) && Trimmed(m0, o0, m, o, i, KeepNeeded(keep))
    ensures WellFormed(m0) && WellFormed(m) && OnlyInode(m0, o0, m, o, i) && i < MAX_INODES
    ensures m.ibits == m0.ibits
  {
    hide Owned;
  }

  /** Trimming a dense file of n0 blocks to n leaves a dense file of n blocks with the same bytes. */
  lemma TrimmedDense(m0: Fs, o0: Owner, m: Fs, o: Owner, i: nat, n0: nat, n: nat)
    requires Owned(m0, o0) && Owned(m, o) && Trimmed(m0, o0, m, o, i, KeepNeeded(n)) && Allocated(m0, i)
    requires Dense(m0, i, n0) && n <= n0
    ensures i < |m.inodes| && i < |m0.inodes| && Dense(m, i, n)
    ensures forall p: nat :: p < BLOCK_SIZE * n ==> ByteAt(m, i, p) == ByteAt(m0, i, p)
  {
    hide SlotVal, Owned;
    TrimmedShape(m0, o0, m, o, i, n);
    forall s ensures Val(m, i, s) == if Needed(s, n) then Val(m0, i, s) else INVALID {
      TrimmedSlot(m0, o0, m, o, i, n, s);
    }
    forall s ensures Val(m, i, s) != INVALID <==> Needed(s, n) {
      StillNeeded(s, n, n0);
    }
    forall p: nat | p < BLOCK_SIZE * n ensures ByteAt(m, i, p) == ByteAt(m0, i, p) {
      var s := Leaf(p / BLOCK_SIZE);
      assert Val(m, i, s) == Val(m0, i, s);
      PtrOwned(m0, o0, i, s);
      PtrOwned(m, o, i, s);
    }
  }

  lemma TrimmedSlot(m0: Fs, o0: Owner, m: Fs, o: Owner, i: nat, n: nat, s: Slot)
    requires Owned(m0, o0) && Owned(m, o) && Trimmed(m0, o0, m, o, i, KeepNeeded(n)) && Allocated(m0, i)
    ensures i < |m.inodes| && i < |m0.inodes|
    ensures Val(m, i, s) == if Needed(s, n) then Val(m0, i, s) else INVALID
  {
    hide SlotVal, Needed;
    PtrOwned(m0, o0, i, s);
    PtrOwned(m, o, i, s);
  }

  /** Overwriting one data block of inode i. */
  lemma LeafWrite(m: Fs, o: Owner, i: nat, lb: nat, blk: Block)
    requires Owned(m, o) && Allocated(m, i) && Val(m, i, Leaf(lb)) != INVALID
    ensures InData(Val(m, i, Leaf(lb)))
    ensures var m' := m.(data := m.data[Val(m, i, Leaf(lb)) as nat := blk]);
            && WellFormed(m') && Owned(m', o) && OnlyInode(m, o, m', o, i)
            && (forall j: nat, s :: Allocated(m, j) ==> Val(m', j, s) == Val(m, j, s))
            && forall p: nat :: ByteAt(m', i, p)
                 == if p / BLOCK_SIZE == lb then blk[p % BLOCK_SIZE] else ByteAt(m, i, p)
  {
    hide SlotVal, Owned;
    PtrOwned(m, o, i, Leaf(lb));
    OwnedBits(m, o);
    var b: nat := Val(m, i, Leaf(lb));
    var m' := m.(data := m.data[b := blk]);
    OwnedKeep(m, o, m');
    forall p: nat ensures ByteAt(m', i, p) == if p / BLOCK_SIZE == lb then blk[p % BLOCK_SIZE] else ByteAt(m, i, p) {
      var q := p / BLOCK_SIZE;
      assert Val(m', i, Leaf(q)) == Val(m, i, Leaf(q));
      if Val(m, i, Leaf(q)) == b {
        Exclusive(m, o, i, Leaf(q), i, Leaf(lb));
      }
    }
  }

  /** Shrinking a file keeps the prefix and the invariant. */
  lemma ShrinkFinish(m0: Fs, o0: Owner, m: Fs, o: Owner, m': Fs, i: nat, n: nat, size: u64)
    requires FsInv(m0, o0) && Counted(m') && Owned(m, o) && Owned(m', o) && Allocated(m0, i)
    requires Trimmed(m0, o0, m, o, i, KeepNeeded(n))
    requires n == CeilDiv(size, BLOCK_SIZE) <= MAX_FILE_BLOCKS && size < m0.inodes[i].size
    requires OnlyInode(m, o, m', o, i) && m'.inodes == m.inodes
    requires forall s :: Allocated(m, i) && i < |m'.inodes| ==> Val(m', i, s) == Val(m, i, s)
    requires forall p: nat :: i < |m'.inodes| && p < BLOCK_SIZE * n ==>
               ByteAt(m', i, p) == if p < size then ByteAt(m, i, p) else 0
    ensures i < |m'.inodes|
    ensures var fs := WithMem(m', i, WithSize(m'.inodes[i], size, n));
            FsInv(fs, o) && Content(fs, i) == Resize(Content(m0, i), size) && OtherContents(m0, fs, i)
  {
    hide SlotVal, Owned, FreeSet, FreeInodes, ByteAt, Val, Trimmed, Needed;
    InvShape(m0, o0);
    TrimmedShape(m0, o0, m, o, i, n);
    TrimmedDense(m0, o0, m, o, i, m0.inodes[i].blockCount, n);
    OnlyTrans(m0, o0, m, o, m', o, i);
    var fs := WithMem(m', i, WithSize(m'.inodes[i], size, n));
    SizedSame(m', o, i, size, n);
    SizedOnly(m0, o0, m', o, i, size, n);
    OthersFine(m0, o0, fs, o, i);
    forall p: nat | p < BLOCK_SIZE * n ensures ByteAt(fs, i, p) == if p < size then ByteAt(m0, i, p) else 0 {
      SizedBytes(m', fs, i, p);
    }
    assert Dense(m', i, n);
    SizedDense(m', fs, i, n);
    assert Content(fs, i) == Resize(Content(m0, i), size);
    assert InodeOk(fs, i);
  }

  lemma OnlyTrans(a: Fs, oa: Owner, b: Fs, ob: Owner, c: Fs, oc: Owner, i: nat)
    requires OnlyInode(a, oa, b, ob, i) && OnlyInode(b, ob, c, oc, i)
    ensures OnlyInode(a, oa, c, oc, i)
  {
  }

  /** A store that differs only in unowned blocks has the same contents. */
  lemma SameStoreInv(fs: Fs, fs': Fs, o: Owner)
    requires FsInv(fs, o) && SameStore(fs, fs', o) && Owned(fs', o)
    ensures FsInv(fs', o)
    ensures forall j: nat :: Allocated(fs, j) ==> Content(fs', j) == Content(fs, j)
  {
    hide SlotVal, Owned, FreeSet, FreeInodes, InodeOk, Content;
    InvShape(fs, o);
    OwnerClaims(fs, o);
    forall j: nat | Allocated(fs, j) ensures InodeOk(fs', j) && Content(fs', j) == Content(fs, j) {
      SameOwnerSameVal(fs, fs', o, j);
      InodeFrame(fs, o, fs', o, j);
    }
  }

  /** The part of a truncation result that does not mention contents. */
  ghost predicate Resized(fs: Fs, fs': Fs, inum: nat, ino: Inode, ino': Inode, newSize: nat) {
    && WellFormed(fs) && WellFormed(fs') && inum < MAX_INODES
    && fs'.ibits == fs.ibits && fs'.freeInodes == fs.freeInodes
    && fs'.inodes == fs.inodes[inum := ino']
    && ino' == ino.(direct := ino'.direct, single := ino'.single, double := ino'.double,
                    size := ino'.size, blockCount := ino'.blockCount)
    && ino'.size == newSize && ino'.blockCount == CeilDiv(newSize, BLOCK_SIZE)
  }

  /** What a successful truncation to newSize has to deliver. */
  ghost predicate Done(fs: Fs, fs': Fs, o': Owner, inum: nat, ino: Inode, ino': Inode, newSize: nat)
    requires inum < |fs.inodes|
  {
    && FsInv(fs', o') && Resized(fs, fs', inum, ino, ino', newSize)
    && Content(fs', inum) == Resize(Content(fs, inum), newSize)
    && OtherContents(fs, fs', inum)
  }

  lemma StartTruncate(fs: Fs, o: Owner, inum: nat, ino: Inode)
    requires FsInv(fs, o) && Allocated(fs, inum) && fs.inodes[inum] == ino
    ensures inum < MAX_INODES && WellFormed(fs) && Holding(fs, inum, ino, o) && WithMem(fs, inum, ino) == fs
    ensures Dense(fs, inum, ino.blockCount) && ino.blockCount == CeilDiv(ino.size, BLOCK_SIZE) <= MAX_FILE_BLOCKS
  {
    hide Owned, FreeSet, FreeInodes, Dense;
    InvShape(fs, o);
    assert fs.inodes[inum := ino] == fs.inodes;
    assert WithMem(fs, inum, ino) == fs;
  }

  lemma CostOrder(a: nat, b: nat)
    ensures a <= b ==> Cost(a) <= Cost(b)
    ensures b <= a ==> Cost(b) <= Cost(a)
  {
  }

  lemma MemTwice(fs: Fs, i: nat, a: Inode, b: Inode)
    requires i < |fs.inodes|
    ensures WithMem(WithMem(fs, i, a), i, b) == WithMem(fs, i, b)
    ensures Counted(fs) ==> Counted(WithMem(fs, i, a))
  {
    hide FreeSet, FreeInodes;
  }

  lemma ExtendedResized(fs: Fs, o: Owner, m: Fs, o': Owner, i: nat, n0: nat, n: nat, size: u64)
    requires Extended(fs, o, m, o', i, n0, n) && n == CeilDiv(size, BLOCK_SIZE) <= MAX_FILE_BLOCKS
    ensures i < |m.inodes| && i < |fs.inodes|
    ensures var ino' := WithSize(m.inodes[i], size, n);
            Resized(fs, WithMem(m, i, ino'), i, fs.inodes[i], ino', size)
  {
    hide SlotVal, Dense, Cost, Needed;
    OwnedBits(fs, o);
    OwnedBits(m, o');
  }

  /** The growing branch, up to the final inode write. */
  method GrowFile(u: Ufs, inum: u32, ino: Inode, newSize: u64, newBlocks: u32, ghost o: Owner)
    returns (ok: bool, ino': Inode, ghost o': Owner)
    requires u.Valid() && FsInv(u.fs, o) && Allocated(u.fs, inum) && u.fs.inodes[inum] == ino
    requires newSize > ino.size && newBlocks == CeilDiv(newSize, BLOCK_SIZE) <= MAX_FILE_BLOCKS
    modifies u`fs, u`sb, u.disk
    ensures u.Valid() && inum < |u.fs.inodes|
    ensures ok <==> Cost(newBlocks) - Cost(ino.blockCount) <= old(u.fs).freeBlocks
    ensures ok ==> Done(old(u.fs), WithMem(u.fs, inum, WithSize(ino', newSize, newBlocks)), o', inum, ino,
                        WithSize(ino', newSize, newBlocks), newSize)
    ensures !ok ==> FsInv(u.fs, o) && o' == o && ino' == ino && SameStore(old(u.fs), u.fs, o)
  {
    hide Ufs.Valid, Owned, Counted, SlotVal, Val, InodeOk, Content, Extended, Cost, Dense, FsInv, Holding,
      SameStore, OtherContents, Resize, Resized;
    ghost var fs0 := u.fs;
    StartTruncate(fs0, o, inum, ino);
    ok, ino', o' := GrowBlocks(u, inum, ino, ino.blockCount, newBlocks, o);
    if ok {
      HoldingShape(u.fs, inum, ino', o');
      ghost var m := WithMem(u.fs, inum, ino');
      MemTwice(u.fs, inum, ino', WithSize(ino', newSize, newBlocks));
      ExtendedResized(fs0, o, m, o', inum, ino.blockCount, newBlocks, newSize);
      GrowFinish(fs0, o, m, o', inum, ino.blockCount, newBlocks, newSize);
    } else {
      SameStoreInv(fs0, u.fs, o);
      SameStoreShape(fs0, u.fs, o);
    }
  }

  lemma SameStoreShape(fs: Fs, fs': Fs, o: Owner)
    requires SameStore(fs, fs', o)
    ensures WellFormed(fs') && |fs'.inodes| == MAX_INODES
  {
  }

  /** Zero the tail of the new last block, so a later growth sees clean bytes. */
  method ZeroTail(u: Ufs, inum: u32, ino: Inode, newSize: u64, newBlocks: u32, ghost o: Owner)
    requires u.Valid() && Holding(u.fs, inum, ino, o) && newBlocks == CeilDiv(newSize, BLOCK_SIZE) <= MAX_FILE_BLOCKS
    requires Dense(WithMem(u.fs, inum, ino), inum, newBlocks)
    modifies u`fs, u.disk
    ensures u.Valid() && Holding(u.fs, inum, ino, o)
    ensures u.fs.inodes == old(u.fs).inodes && u.fs.freeInodes == old(u.fs).freeInodes
    ensures var m, m' := WithMem(old(u.fs), inum, ino), WithMem(u.fs, inum, ino);
            && OnlyInode(m, o, m', o, inum)
            && (forall s :: Val(m', inum, s) == Val(m, inum, s))
            && forall p: nat :: p < BLOCK_SIZE * newBlocks ==>
                 ByteAt(m', inum, p) == if p < newSize then ByteAt(m, inum, p) else 0
  {
    hide Ufs.Valid, Owned, SlotVal, FreeSet, FreeInodes, Dense, OnlyInode, ByteAt;
    HoldingShape(u.fs, inum, ino, o);
    ghost var m := WithMem(u.fs, inum, ino);
    OnlyRefl(m, o, inum);
    if newSize > 0 && newSize % BLOCK_SIZE != 0 {
      var phys := GetInodeDataBlock(u, ino, newBlocks - 1, inum, o);
      LastPresent(m, inum, newBlocks);
      assert phys.value == Val(m, inum, Leaf(newBlocks - 1)) != INVALID;
      Follow(u.fs, inum, ino, o, Leaf(newBlocks - 1));
      var buf := u.ReadData(phys.value);
      var off := newSize % BLOCK_SIZE;
      var blk := Splice(buf, off, seq(BLOCK_SIZE - off, _ => 0));
      LeafWrite(m, o, inum, newBlocks - 1, blk);
      u.WriteData(phys.value, blk);
      assert WithMem(u.fs, inum, ino) == m.(data := m.data[phys.value as nat := blk]);
      forall p: nat | p < BLOCK_SIZE * newBlocks
        ensures ByteAt(WithMem(u.fs, inum, ino), inum, p) == if p < newSize then ByteAt(m, inum, p) else 0
      {
        if p / BLOCK_SIZE == newBlocks - 1 {
          StoredByte(m, inum, p, buf);
        }
      }
    }
  }

  lemma OnlyRefl(m: Fs, o: Owner, i: nat)
    requires WellFormed(m)
    ensures OnlyInode(m, o, m, o, i)
  {
  }

  lemma LastPresent(m: Fs, i: nat, n: nat)
    requires Dense(m, i, n) && n > 0
    ensures Val(m, i, Leaf(n - 1)) != INVALID
  {
    hide SlotVal;
    assert Needed(Leaf(n - 1), n);
  }

  lemma StoredByte(m: Fs, i: nat, p: nat, blk: Block)
    requires i < |m.inodes| && Val(m, i, Leaf(p / BLOCK_SIZE)) as nat in m.data
    requires m.data[Val(m, i, Leaf(p / BLOCK_SIZE)) as nat] == blk
    ensures ByteAt(m, i, p) == blk[p % BLOCK_SIZE]
  {
    hide SlotVal;
  }

  /** The shrinking branch, up to the final inode write. */
  method ShrinkFile(u: Ufs, inum: u32, ino: Inode, newSize: u64, newBlocks: u32, ghost o: Owner)
    returns (ino': Inode, ghost o': Owner)
    requires u.Valid() && FsInv(u.fs, o) && Allocated(u.fs, inum) && u.fs.inodes[inum] == ino
    requires newSize < ino.size && newBlocks == CeilDiv(newSize, BLOCK_SIZE)
    modifies u`fs, u`sb, u.disk
    ensures u.Valid() && inum < |u.fs.inodes|
    ensures Done(old(u.fs), WithMem(u.fs, inum, WithSize(ino', newSize, newBlocks)), o', inum, ino,
                 WithSize(ino', newSize, newBlocks), newSize)
  {
    hide Ufs.Valid, Owned, Counted, SlotVal, Val, InodeOk, Content, Trimmed, Dense, FsInv, Holding,
      OtherContents, Resize, Resized, OnlyInode, ByteAt;
    ghost var fs0 := u.fs;
    StartTruncate(fs0, o, inum, ino);
    ino', o' := FreeInodeBlocksAfter(u, inum, ino, newBlocks, o);
    HoldingShape(u.fs, inum, ino', o');
    ghost var m := WithMem(u.fs, inum, ino');
    InvShape(fs0, o);
    HoldingParts(u.fs, inum, ino', o');
    TrimmedDense(fs0, o, m, o', inum, ino.blockCount, newBlocks);
    ZeroTail(u, inum, ino', newSize, newBlocks, o');
    ghost var m' := WithMem(u.fs, inum, ino');
    HoldingShape(u.fs, inum, ino', o');
    HoldingParts(u.fs, inum, ino', o');
    MemTwice(u.fs, inum, ino', WithSize(ino', newSize, newBlocks));
    ShrinkFinish(fs0, o, m, o', m', inum, newBlocks, newSize);
    ShrunkResized(fs0, o, m, o', m', inum, newBlocks, newSize);
  }

  lemma HoldingParts(fs: Fs, inum: nat, ino: Inode, o: Owner)
    requires Holding(fs, inum, ino, o)
    ensures Owned(WithMem(fs, inum, ino), o) && Counted(WithMem(fs, inum, ino))
  {
    hide Owned, FreeSet, FreeInodes;
  }

  lemma ShrunkResized(fs: Fs, o: Owner, m: Fs, o': Owner, m': Fs, i: nat, n: nat, size: u64)
    requires Owned(fs, o) && Owned(m, o') && Trimmed(fs, o, m, o', i, KeepNeeded(n)) && OnlyInode(m, o', m', o', i)
    requires m'.inodes == m.inodes && m'.freeInodes == m.freeInodes && n == CeilDiv(size, BLOCK_SIZE) <= MAX_FILE_BLOCKS
    ensures i < |m'.inodes| && i < |fs.inodes|
    ensures var ino' := WithSize(m'.inodes[i], size, n);
            Resized(fs, WithMem(m', i, ino'), i, fs.inodes[i], ino', size)
  {
    hide SlotVal, Needed, Owned;
  }

  lemma SameSize(fs: Fs, o: Owner, inum: nat, ino: Inode)
    requires FsInv(fs, o) && Allocated(fs, inum) && fs.inodes[inum] == ino && inum < MAX_INODES
    ensures Done(fs, fs, o, inum, ino, ino, ino.size)
  {
    hide Owned, FreeSet, FreeInodes, Content, Dense;
    InvShape(fs, o);
    assert fs.inodes[inum := ino] == fs.inodes;
    assert Content(fs, inum)[..ino.size] == Content(fs, inum);
  }

  /** Resize the file. Growth fails exactly when the extra data and pointer blocks do not fit, and
      then leaves nothing changed but the bytes of free blocks. */
  method TruncateInode(u: Ufs, inum: u32, ino: Inode, newSize: u64, ghost o: Owner)
    returns (r: Result<()>, ino': Inode, ghost o': Owner)
    requires u.Valid() && FsInv(u.fs, o) && Allocated(u.fs, inum) && u.fs.inodes[inum] == ino
    modifies u`fs, u`sb, u.disk
    ensures u.Valid() && FsInv(u.fs, o')
    ensures newSize > MAX_FILE_BLOCKS * BLOCK_SIZE ==> r == Err(EFBIG) && u.fs == old(u.fs) && ino' == ino && o' == o
    ensures newSize <= MAX_FILE_BLOCKS * BLOCK_SIZE ==>
              (r.Ok? <==> Cost(CeilDiv(newSize, BLOCK_SIZE)) - Cost(ino.blockCount) <= old(u.fs).freeBlocks)
    ensures r.Ok? ==> Resized(old(u.fs), u.fs, inum, ino, ino', newSize)
                      && Content(u.fs, inum) == Resize(Content(old(u.fs), inum), newSize)
                      && OtherContents(old(u.fs), u.fs, inum)
    ensures r.Err? && newSize <= MAX_FILE_BLOCKS * BLOCK_SIZE ==>
              r == Err(ENOSPC) && ino' == ino && o' == o && SameStore(old(u.fs), u.fs, o)
  {
    hide Ufs.Valid, Owned, Counted, SlotVal, Val, InodeOk, Content, Cost, Dense, FsInv, Holding,
      SameStore, OtherContents, Resize, Resized;
    ino', o' := ino, o;
    if newSize > MAX_FILE_BLOCKS * BLOCK_SIZE {
      return Err(EFBIG), ino, o;
    }
    ghost var fs0 := u.fs;
    var newBlocks: u32 := CeilDiv(newSize, BLOCK_SIZE);
    StartTruncate(fs0, o, inum, ino);
    CostOrder(ino.blockCount, newBlocks);
    if newSize > ino.size {
      var ok;
      ok, ino', o' := GrowFile(u, inum, ino, newSize, newBlocks, o);
      if !ok {
        return Err(ENOSPC), ino', o';
      }
    } else if newSize < ino.size {
      ino', o' := ShrinkFile(u, inum, ino, newSize, newBlocks, o);
    } else {
      SameSize(fs0, o, inum, ino);
    }
    ino' := WithSize(ino', newSize, newBlocks);
    var _ := u.WriteInode(inum, ino');
    assert u.fs == WithMem(u.fs, inum, ino');
    return Ok(()), ino', o';
  }
}
