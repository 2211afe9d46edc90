/** Logical-to-physical block translation with lazy allocation, and the loops that give blocks
    back (src/userfs_storage.c). */
module PointerTree {
  import opened Layout
  import opened Encoding
  import opened Context
  import opened Allocator
  import opened Ownership
  import opened TreeSteps

  /** The caller holds a copy of inode inum whose pointer tree is in order. */
  ghost predicate Holding(fs: Fs, inum: nat, ino: Inode, owner: Owner) {
    && Counted(fs) && Allocated(fs, inum) && inum < MAX_INODES
    && Owned(WithMem(fs, inum, ino), owner)
  }

  lemma HoldingShape(fs: Fs, inum: nat, ino: Inode, owner: Owner)
    requires Holding(fs, inum, ino, owner)
    ensures Counted(fs) && WellFormed(fs) && Allocated(fs, inum) && WellFormed(WithMem(fs, inum, ino))
    ensures Allocated(WithMem(fs, inum, ino), inum)
    ensures WithMem(fs, inum, ino).inodes[inum] == ino
    ensures forall s :: Val(WithMem(fs, inum, ino), inum, s) == SlotVal(fs.data, ino, s)
  {
    hide SlotVal;
  }

  /** Pointers a caller may follow lead into the data region. */
  lemma Follow(fs: Fs, inum: nat, ino: Inode, owner: Owner, s: Slot)
    requires Holding(fs, inum, ino, owner)
    ensures InData(SlotVal(fs.data, ino, s)) <==> SlotVal(fs.data, ino, s) != INVALID
  {
    hide SlotVal;
    PtrOwned(WithMem(fs, inum, ino), owner, inum, s);
  }

  /** get_inode_data_block: the pointer in the leaf slot, INVALID if any level is absent. */
  method GetInodeDataBlock(u: Ufs, ino: Inode, logical: u32, ghost inum: nat, ghost owner: Owner)
    returns (r: Result<u32>)
    requires u.Valid() && Holding(u.fs, inum, ino, owner)
    ensures r == if logical < MAX_FILE_BLOCKS then Ok(SlotVal(u.fs.data, ino, Leaf(logical))) else Err(EFBIG)
  {
    hide Ufs.Valid, BlockWords, Owned;
    Follow(u.fs, inum, ino, owner, Single);
    Follow(u.fs, inum, ino, owner, Double);
    if logical < SINGLE_START {
      return Ok(ino.direct[logical]);
    }
    if logical < DOUBLE_START {
      if ino.single == INVALID {
        return Ok(INVALID);
      }
      var blk := u.ReadData(ino.single);
      return Ok(BlockWords(blk)[logical - SINGLE_START]);
    }
    if logical >= MAX_FILE_BLOCKS {
      return Err(EFBIG);
    }
    if ino.double == INVALID {
      return Ok(INVALID);
    }
    var lb2 := logical - DOUBLE_START;
    var idx1, idx2 := lb2 / PTRS_PER_BLOCK, lb2 % PTRS_PER_BLOCK;
    var l1 := u.ReadData(ino.double);
    var next := BlockWords(l1)[idx1];
    assert next == SlotVal(u.fs.data, ino, Level(idx1));
    Follow(u.fs, inum, ino, owner, Level(idx1));
    if next == INVALID {
      return Ok(INVALID);
    }
    var l2 := u.ReadData(next);
    return Ok(BlockWords(l2)[idx2]);
  }

  // ---- growth ----

  /** What one allocation step, or the whole of ensure, does to the caller's view. */
  ghost predicate Growth(fs: Fs, ino: Inode, o: Owner, fs': Fs, ino': Inode, o': Owner, inum: nat, lb: nat) {
    && Holding(fs, inum, ino, o) && Holding(fs', inum, ino', o')
    && Grown(WithMem(fs, inum, ino), o, WithMem(fs', inum, ino'), o', inum, lb)
  }

  lemma GrowthRefl(fs: Fs, ino: Inode, o: Owner, inum: nat, lb: nat)
    requires Holding(fs, inum, ino, o)
    ensures Growth(fs, ino, o, fs, ino, o, inum, lb)
  {
    hide Grown, Owned;
    HoldingShape(fs, inum, ino, o);
    GrownRefl(WithMem(fs, inum, ino), o, inum, lb);
  }

  lemma GrowthTrans(fs: Fs, ino: Inode, o: Owner, fs': Fs, ino': Inode, o': Owner,
                    fs'': Fs, ino'': Inode, o'': Owner, inum: nat, lb: nat)
    requires Growth(fs, ino, o, fs', ino', o', inum, lb) && Growth(fs', ino', o', fs'', ino'', o'', inum, lb)
    ensures Growth(fs, ino, o, fs'', ino'', o'', inum, lb)
  {
    hide Grown, Owned;
    GrownTrans(WithMem(fs, inum, ino), o, WithMem(fs', inum, ino'), o', WithMem(fs'', inum, ino''), o'', inum, lb);
  }

  /** If a pointer of the inode is absent, give it a block; a pointer block starts all INVALID. */
  method NeedPtr(u: Ufs, inum: u32, ino: Inode, s: Slot, ghost lb: nat, ghost o: Owner)
    returns (ok: bool, dirty: bool, ino': Inode, ghost o': Owner)
    requires u.Valid() && Holding(u.fs, inum, ino, o) && InInode(s) && OnPath(s, lb)
    modifies u`fs, u`sb, u.disk
    ensures u.Valid() && Growth(old(u.fs), ino, o, u.fs, ino', o', inum, lb)
    ensures u.fs.inodes == old(u.fs).inodes && (!dirty ==> ino' == ino)
    ensures ok ==> SlotVal(u.fs.data, ino', s) != INVALID
    ensures !ok ==> u.fs == old(u.fs) && ino' == ino && o' == o && u.fs.freeBlocks == 0
                    && SlotVal(u.fs.data, ino, s) == INVALID
  {
    hide Ufs.Valid, BlockWords, WordsBlock, Owned, Grown, FreeSet, FreeInodes, ZeroBlock, InvalidBlock, OnPath;
    HoldingShape(u.fs, inum, ino, o);
    GrowthRefl(u.fs, ino, o, inum, lb);
    ino', dirty, o' := ino, false, o;
    var present := match s case Single => ino.single case Double => ino.double case Leaf(l) => ino.direct[l];
    if present != INVALID {
      return true, false, ino, o;
    }
    ghost var fs, m := u.fs, WithMem(u.fs, inum, ino);
    var nb := AllocateDataBlock(u);
    if nb.Err? {
      return false, false, ino, o;
    }
    if !s.Leaf? {
      u.WriteData(nb.value, InvalidBlock());
    }
    ino' := SetPtr(ino, s, nb.value);
    o' := o[nb.value := Claim(inum, s)];
    AttachPtr(m, o, inum, s, nb.value, lb);
    assert WithMem(u.fs, inum, ino') == PtrAttached(m, inum, s, nb.value);
    assert WithMem(u.fs, inum, ino').data == u.fs.data;
    assert Holding(u.fs, inum, ino', o');
    return true, true, ino', o';
  }

  /** If word k of the pointer block in slot p is absent, give it a block. */
  method NeedChild(u: Ufs, inum: u32, ino: Inode, p: Slot, k: nat, pb: u32, ghost lb: nat, ghost o: Owner)
    returns (r: Result<u32>, ghost o': Owner)
    requires u.Valid() && Holding(u.fs, inum, ino, o)
    requires !p.Leaf? && k < PTRS_PER_BLOCK && (p.Level? ==> p.k < PTRS_PER_BLOCK) && OnPath(Child(p, k), lb)
    requires pb == SlotVal(u.fs.data, ino, p) != INVALID
    modifies u`fs, u`sb, u.disk
    ensures u.Valid() && Growth(old(u.fs), ino, o, u.fs, ino, o', inum, lb)
    ensures u.fs.inodes == old(u.fs).inodes
    ensures r.Ok? ==> r.value == SlotVal(u.fs.data, ino, Child(p, k)) != INVALID
    ensures r.Err? ==> r == Err(ENOSPC) && u.fs == old(u.fs) && o' == o && u.fs.freeBlocks == 0
                       && SlotVal(u.fs.data, ino, Child(p, k)) == INVALID
  {
    hide Ufs.Valid, BlockWords, WordsBlock, Owned, Grown, FreeSet, FreeInodes, ZeroBlock, InvalidBlock, SlotVal, OnPath;
    HoldingShape(u.fs, inum, ino, o);
    GrowthRefl(u.fs, ino, o, inum, lb);
    Follow(u.fs, inum, ino, o, p);
    ChildVal(u.fs.data, ino, p, k);
    o' := o;
    var blk := u.ReadData(pb);
    var ptrs := BlockWords(blk);
    if ptrs[k] != INVALID {
      return Ok(ptrs[k]), o;
    }
    ghost var fs, m := u.fs, WithMem(u.fs, inum, ino);
    var nb := AllocateDataBlock(u);
    if nb.Err? {
      return Err(ENOSPC), o;
    }
    if p.Double? {
      u.WriteData(nb.value, InvalidBlock());
    }
    u.WriteData(pb, WordsBlock(ptrs[k := nb.value]));
    o' := o[nb.value := Claim(inum, Child(p, k))];
    AttachChild(m, o, inum, p, k, nb.value, lb);
    assert WithMem(u.fs, inum, ino) == ChildAttached(m, pb, k, nb.value, p.Double?);
    assert Val(WithMem(u.fs, inum, ino), inum, Child(p, k)) == SlotVal(u.fs.data, ino, Child(p, k));
    return Ok(nb.value), o';
  }

  /** ensure_inode_data_block. Succeeds exactly when enough blocks are free for the pointers that
      are missing; on failure the pointer blocks already taken stay with the caller's copy. */
  method EnsureInodeDataBlock(u: Ufs, inum: u32, ino: Inode, logical: u32, ghost o: Owner)
    returns (r: Result<u32>, ino': Inode, ghost o': Owner)
    requires u.Valid() && Holding(u.fs, inum, ino, o)
    modifies u`fs, u`sb, u.disk
    ensures u.Valid()
    ensures logical >= MAX_FILE_BLOCKS ==> r == Err(EFBIG) && u.fs == old(u.fs) && ino' == ino && o' == o
    ensures logical < MAX_FILE_BLOCKS ==>
              && Growth(old(u.fs), ino, o, u.fs, ino', o', inum, logical)
              && (r.Ok? <==> Missing(WithMem(old(u.fs), inum, ino), inum, logical) <= old(u.fs).freeBlocks)
              && (r.Ok? ==> r.value == SlotVal(u.fs.data, ino', Leaf(logical)) != INVALID)
              && (r.Err? ==> r == Err(ENOSPC) && SlotVal(u.fs.data, ino', Leaf(logical)) == INVALID)
    ensures forall j :: 0 <= j < MAX_INODES && j != inum ==> u.fs.inodes[j] == old(u.fs).inodes[j]
    ensures r.Err? ==> u.fs.inodes == old(u.fs).inodes
    ensures r.Ok? && ino' != ino ==> inum < |u.fs.inodes| && u.fs.inodes[inum] == ino'
  {
    hide Ufs.Valid, BlockWords, Owned, Grown, Counted, SlotVal, Holding, Growth;
    HoldingShape(u.fs, inum, ino, o);
    ino', o' := ino, o;
    if logical >= MAX_FILE_BLOCKS {
      return Err(EFBIG), ino, o;
    }
    ghost var fs := u.fs;
    var dirty := false;
    if logical < SINGLE_START {
      var ok;
      ok, dirty, ino', o' := NeedPtr(u, inum, ino, Leaf(logical), logical, o);
      r := if ok then Ok(ino'.direct[logical]) else Err(ENOSPC);
      LeafInInode(u.fs, ino', logical);
    } else if logical < DOUBLE_START {
      r, dirty, ino', o' := EnsureSingle(u, inum, ino, logical, o);
    } else {
      r, dirty, ino', o' := EnsureDouble(u, inum, ino, logical, o);
    }
    EnsureOutcome(fs, ino, o, u.fs, ino', o', inum, logical, r);
    ReachHolding(fs, ino, o, u.fs, ino', o', inum, logical);
    HoldingShape(u.fs, inum, ino', o');
    if r.Ok? && dirty {
      GrowthFlush(fs, ino, o, u.fs, ino', o', inum, logical);
      var _ := u.WriteInode(inum, ino');
    }
  }

  lemma LeafInInode(fs: Fs, ino: Inode, lb: nat)
    requires lb < SINGLE_START
    ensures SlotVal(fs.data, ino, Leaf(lb)) == ino.direct[lb]
  {
  }

  /** Writing the caller's copy to disk does not change the caller's view. */
  lemma GrowthFlush(fs: Fs, ino: Inode, o: Owner, fs': Fs, ino': Inode, o': Owner, inum: nat, lb: nat)
    requires Growth(fs, ino, o, fs', ino', o', inum, lb)
    ensures Growth(fs, ino, o, WithMem(fs', inum, ino'), ino', o', inum, lb)
  {
    hide Grown, Owned, FreeSet, FreeInodes;
    assert WithMem(WithMem(fs', inum, ino'), inum, ino') == WithMem(fs', inum, ino');
  }

  /** Success and failure are decided by the free count. */
  lemma EnsureOutcome(fs: Fs, ino: Inode, o: Owner, fs': Fs, ino': Inode, o': Owner, inum: nat, lb: nat,
                      r: Result<u32>)
    requires Growth(fs, ino, o, fs', ino', o', inum, lb)
    requires r.Ok? ==> SlotVal(fs'.data, ino', Leaf(lb)) != INVALID
                       && (SINGLE_START <= lb < DOUBLE_START ==> SlotVal(fs'.data, ino', Single) != INVALID)
                       && (lb >= DOUBLE_START ==>
                             SlotVal(fs'.data, ino', Double) != INVALID
                             && SlotVal(fs'.data, ino', Level((lb - DOUBLE_START) / PTRS_PER_BLOCK)) != INVALID)
    requires r.Err? ==> SlotVal(fs'.data, ino', Leaf(lb)) == INVALID && fs'.freeBlocks == 0
    ensures r.Ok? <==> Missing(WithMem(fs, inum, ino), inum, lb) <= fs.freeBlocks
  {
    hide SlotVal, Owned, Counted;
  }

  method EnsureSingle(u: Ufs, inum: u32, ino: Inode, logical: u32, ghost o: Owner)
    returns (r: Result<u32>, dirty: bool, ino': Inode, ghost o': Owner)
    requires u.Valid() && Holding(u.fs, inum, ino, o) && SINGLE_START <= logical < DOUBLE_START
    modifies u`fs, u`sb, u.disk
    ensures u.Valid() && Growth(old(u.fs), ino, o, u.fs, ino', o', inum, logical)
    ensures u.fs.inodes == old(u.fs).inodes && (!dirty ==> ino' == ino)
    ensures r.Ok? ==> r.value == SlotVal(u.fs.data, ino', Leaf(logical)) != INVALID
                      && SlotVal(u.fs.data, ino', Single) != INVALID
    ensures r.Err? ==> r == Err(ENOSPC) && SlotVal(u.fs.data, ino', Leaf(logical)) == INVALID && u.fs.freeBlocks == 0
  {
    hide Ufs.Valid, BlockWords, Owned, Grown, Counted, Holding, Growth;
    ghost var fs := u.fs;
    AbsentAbove(u.fs, inum, ino, o, logical);
    var ok;
    ok, dirty, ino', o' := NeedPtr(u, inum, ino, Single, logical, o);
    if !ok {
      return Err(ENOSPC), dirty, ino', o';
    }
    ghost var fs1, o1 := u.fs, o';
    ReachHolding(fs, ino, o, fs1, ino', o1, inum, logical);
    r, o' := NeedChild(u, inum, ino', Single, logical - SINGLE_START, ino'.single, logical, o1);
    GrowthTrans(fs, ino, o, fs1, ino', o1, u.fs, ino', o', inum, logical);
  }

  lemma ReachHolding(fs: Fs, ino: Inode, o: Owner, fs': Fs, ino': Inode, o': Owner, inum: nat, lb: nat)
    requires Growth(fs, ino, o, fs', ino', o', inum, lb)
    ensures Holding(fs', inum, ino', o')
  {
  }

  method EnsureDouble(u: Ufs, inum: u32, ino: Inode, logical: u32, ghost o: Owner)
    returns (r: Result<u32>, dirty: bool, ino': Inode, ghost o': Owner)
    requires u.Valid() && Holding(u.fs, inum, ino, o) && DOUBLE_START <= logical < MAX_FILE_BLOCKS
    modifies u`fs, u`sb, u.disk
    ensures u.Valid() && Growth(old(u.fs), ino, o, u.fs, ino', o', inum, logical)
    ensures u.fs.inodes == old(u.fs).inodes && (!dirty ==> ino' == ino)
    ensures r.Ok? ==> r.value == SlotVal(u.fs.data, ino', Leaf(logical)) != INVALID
                      && SlotVal(u.fs.data, ino', Double) != INVALID
                      && SlotVal(u.fs.data, ino', Level((logical - DOUBLE_START) / PTRS_PER_BLOCK)) != INVALID
    ensures r.Err? ==> r == Err(ENOSPC) && SlotVal(u.fs.data, ino', Leaf(logical)) == INVALID && u.fs.freeBlocks == 0
  {
    hide Ufs.Valid, BlockWords, Owned, Grown, Counted, Holding, Growth, LevelVal;
    ghost var fs := u.fs;
    var lb2 := logical - DOUBLE_START;
    var idx1, idx2 := lb2 / PTRS_PER_BLOCK, lb2 % PTRS_PER_BLOCK;
    assert Child(Level(idx1), idx2) == Leaf(logical);
    AbsentAbove(u.fs, inum, ino, o, logical);
    var ok;
    ok, dirty, ino', o' := NeedPtr(u, inum, ino, Double, logical, o);
    if !ok {
      return Err(ENOSPC), dirty, ino', o';
    }
    ghost var fs1, o1 := u.fs, o';
    ReachHolding(fs, ino, o, fs1, ino', o1, inum, logical);
    r, o' := NeedChild(u, inum, ino', Double, idx1, ino'.double, logical, o1);
    ghost var fs2, o2 := u.fs, o';
    GrowthTrans(fs, ino, o, fs1, ino', o1, fs2, ino', o2, inum, logical);
    ReachHolding(fs, ino, o, fs2, ino', o2, inum, logical);
    AbsentAbove(fs2, inum, ino', o2, logical);
    if r.Err? {
      return;
    }
    var l2 := r.value;
    ReachHolding(fs, ino, o, fs2, ino', o2, inum, logical);
    r, o' := NeedChild(u, inum, ino', Level(idx1), idx2, l2, logical, o2);
    GrowthTrans(fs, ino, o, fs2, ino', o2, u.fs, ino', o', inum, logical);
    StillThere(fs2, ino', o2, u.fs, ino', o', inum, logical, Level(idx1));
  }

  /** A leaf below an absent pointer is absent. */
  lemma AbsentAbove(fs: Fs, inum: nat, ino: Inode, o: Owner, lb: nat)
    requires Holding(fs, inum, ino, o) && SINGLE_START <= lb < MAX_FILE_BLOCKS
    ensures lb < DOUBLE_START && SlotVal(fs.data, ino, Single) == INVALID ==> SlotVal(fs.data, ino, Leaf(lb)) == INVALID
    ensures lb >= DOUBLE_START && SlotVal(fs.data, ino, Double) == INVALID ==>
              SlotVal(fs.data, ino, Level((lb - DOUBLE_START) / PTRS_PER_BLOCK)) == INVALID
    ensures lb >= DOUBLE_START && SlotVal(fs.data, ino, Level((lb - DOUBLE_START) / PTRS_PER_BLOCK)) == INVALID ==>
              SlotVal(fs.data, ino, Leaf(lb)) == INVALID
  {
    hide BlockWords, Owned, FreeSet, FreeInodes;
    assert INVALID !in fs.data;
  }

  /** Growth never removes a pointer. */
  lemma StillThere(fs: Fs, ino: Inode, o: Owner, fs': Fs, ino': Inode, o': Owner, inum: nat, lb: nat, s: Slot)
    requires Growth(fs, ino, o, fs', ino', o', inum, lb)
    ensures SlotVal(fs.data, ino, s) != INVALID ==> SlotVal(fs'.data, ino', s) == SlotVal(fs.data, ino, s)
  {
    hide Grown, SlotVal, Counted, Owned;
    HoldingShape(fs, inum, ino, o);
    HoldingShape(fs', inum, ino', o');
    GrownSlots(WithMem(fs, inum, ino), o, WithMem(fs', inum, ino'), o', inum, lb);
    assert Val(WithMem(fs, inum, ino), inum, s) == SlotVal(fs.data, ino, s);
    assert Val(WithMem(fs', inum, ino'), inum, s) == SlotVal(fs'.data, ino', s);
  }
}
