/** What the storage primitives do to the tree of nodes: every operation of the upper layers is put
    together from these steps. */
module Effects {
  import opened Layout
  import opened Encoding
  import opened Context
  import opened Allocator
  import opened Ownership
  import opened TreeSteps
  import opened FileContent
  import opened Truncate
  import opened Directory
  import opened FileTree

  /** Only inode i differs between the two file systems. */
  ghost predicate OnlyNode(fs: Fs, fs': Fs, i: nat) {
    && |fs.inodes| == |fs'.inodes| == MAX_INODES && |fs.ibits| == |fs'.ibits| == MAX_INODES && i < MAX_INODES
    && (forall j :: 0 <= j < MAX_INODES && j != i ==> fs'.ibits[j] == fs.ibits[j] && fs'.inodes[j] == fs.inodes[j])
    && OtherContents(fs, fs', i)
  }

  lemma TreeUpdate(fs: Fs, fs': Fs, i: nat)
    requires OnlyNode(fs, fs', i)
    ensures TreeOf(fs') == if Allocated(fs', i) then TreeOf(fs)[i := NodeOf(fs', i)] else TreeOf(fs) - {i}
  {
    hide Content, Slots, EntryMap;
    var t, t' := TreeOf(fs), TreeOf(fs');
    forall j: nat | j in t' && j != i ensures j in t && t'[j] == t[j] {
      assert Content(fs', j) == Content(fs, j);
    }
    forall j: nat | j in t && j != i ensures j in t' {
    }
  }

  lemma DirsUpdate(fs: Fs, fs': Fs, i: nat)
    requires OnlyNode(fs, fs', i) && DirsOk(fs)
    requires Allocated(fs', i) && fs'.inodes[i].itype == TYPE_DIR ==> DirOk(fs', i)
    ensures DirsOk(fs')
  {
    hide Content, Slots, UniqueNames;
    forall d: nat | Allocated(fs', d) && fs'.inodes[d].itype == TYPE_DIR ensures DirOk(fs', d) {
      if d != i {
        assert Content(fs', d) == Content(fs, d);
      }
    }
  }

  // ---- generations ----

  /** A slot's generation changes only when the slot is handed out, and then to the next one. */
  ghost predicate GenStep(fs: Fs, fs': Fs) {
    && |fs.inodes| == |fs'.inodes| == MAX_INODES
    && forall i: nat :: i < MAX_INODES ==>
         var g, g' := fs.inodes[i].generation, fs'.inodes[i].generation;
         && (g' == g || (!Allocated(fs, i) && g' == NextGeneration(g)))
         && (!Allocated(fs, i) && Allocated(fs', i) ==> g' == NextGeneration(g))
  }

  /** No slot is handed out. */
  ghost predicate GenSame(fs: Fs, fs': Fs) {
    && |fs.inodes| == |fs'.inodes| == MAX_INODES
    && forall i: nat :: i < MAX_INODES ==>
         fs'.inodes[i].generation == fs.inodes[i].generation && (Allocated(fs', i) ==> Allocated(fs, i))
  }

  lemma GenSameStep(a: Fs, b: Fs)
    requires GenSame(a, b)
    ensures GenStep(a, b)
  {
    hide NextGeneration;
  }

  lemma GenThen(a: Fs, b: Fs, c: Fs)
    requires GenStep(a, b) && GenSame(b, c)
    ensures GenStep(a, c)
  {
    hide NextGeneration;
  }

  // ---- writing an inode ----

  ghost predicate SameShape(a: Inode, b: Inode) {
    SamePointers(a, b) && a.size == b.size && a.blockCount == b.blockCount
  }

  /** Changing only type, links, times or owner of an inode. */
  lemma MetaWrite(fs: Fs, o: Owner, i: nat, ino: Inode)
    requires FsInv(fs, o) && Allocated(fs, i) && i < |fs.inodes| && SameShape(ino, fs.inodes[i])
    ensures i < MAX_INODES
    ensures var fs' := fs.(inodes := fs.inodes[i := ino]);
            FsInv(fs', o) && OnlyNode(fs, fs', i) && Content(fs', i) == Content(fs, i)
  {
    hide SlotVal, Owned, FreeSet, FreeInodes, InodeOk, Content, Val;
    InvShape(fs, o);
    var fs' := fs.(inodes := fs.inodes[i := ino]);
    OwnedKeep(fs, o, fs');
    forall j: nat | Allocated(fs, j) ensures InodeOk(fs', j) && Content(fs', j) == Content(fs, j) {
      InodeFrame(fs, o, fs', o, j);
    }
  }

  /** Rewriting an inode with other links or times. */
  lemma MetaTree(fs: Fs, o: Owner, i: nat, ino: Inode)
    requires FsInv(fs, o) && DirsOk(fs) && Allocated(fs, i) && i < |fs.inodes| && SameShape(ino, fs.inodes[i])
    requires ino.itype == fs.inodes[i].itype && ino.generation == fs.inodes[i].generation
    ensures i < MAX_INODES
    ensures var fs' := fs.(inodes := fs.inodes[i := ino]);
            FsInv(fs', o) && DirsOk(fs') && GenSame(fs, fs')
            && TreeOf(fs') == WithLinks(TreeOf(fs), i, ino.links)
  {
    hide FsInv, Content, Slots, UniqueNames, EntryMap, OtherContents;
    MetaWrite(fs, o, i, ino);
    var fs' := fs.(inodes := fs.inodes[i := ino]);
    DirsUpdate(fs, fs', i);
    TreeUpdate(fs, fs', i);
    NodeIn(fs, i);
  }

  lemma SameLinks(t: Tree, i: nat)
    requires i in t
    ensures WithLinks(t, i, t[i].links) == t
  {
  }

  /** Touching the time stamps of an inode. */
  method TouchInode(u: Ufs, inum: u32, times: Times, ghost o: Owner)
    requires u.Valid() && FsInv(u.fs, o) && DirsOk(u.fs) && Allocated(u.fs, inum)
    modifies u`fs, u.disk
    ensures u.Valid() && FsInv(u.fs, o) && DirsOk(u.fs) && TreeOf(u.fs) == TreeOf(old(u.fs)) && GenSame(old(u.fs), u.fs)
  {
    hide Ufs.Valid, FsInv, Content, NodeOf, GenSame, DirsOk;
    InodeLimit(u.fs, o, inum);
    var r := u.ReadInode(inum);
    MetaTree(u.fs, o, inum, r.value.(times := times));
    NodeLinks(u.fs, inum);
    SameLinks(TreeOf(u.fs), inum);
    var _ := u.WriteInode(inum, r.value.(times := times));
  }

  lemma NodeLinks(fs: Fs, i: nat)
    requires Allocated(fs, i)
    ensures i < |fs.inodes| && i in TreeOf(fs) && TreeOf(fs)[i].links == fs.inodes[i].links
    ensures TreeOf(fs)[i].kind == fs.inodes[i].itype && TreeOf(fs)[i].generation == fs.inodes[i].generation
    ensures fs.inodes[i].itype == TYPE_DIR ==> TreeOf(fs)[i].entries == Dir(fs, i)
    ensures fs.inodes[i].itype != TYPE_DIR ==> TreeOf(fs)[i].content == Content(fs, i)
  {
    hide Content, Dir;
    NodeIn(fs, i);
  }

  // ---- directories ----

  /** A directory operation, on the tree. */
  lemma DirTree(fs: Fs, fs': Fs, o': Owner, d: nat)
    requires DirsOk(fs) && DirOk(fs, d) && DirChanged(fs, fs', d) && FsInv(fs', o') && DirOk(fs', d)
    ensures d in TreeOf(fs) && DirsOk(fs') && GenSame(fs, fs')
    ensures TreeOf(fs') == TreeOf(fs)[d := TreeOf(fs)[d].(entries := Dir(fs', d))]
  {
    hide FsInv, Content, Slots, UniqueNames, EntryMap, OtherContents;
    DirsUpdate(fs, fs', d);
    TreeUpdate(fs, fs', d);
    NodeIn(fs, d);
  }

  // ---- taking and giving back inodes ----

  lemma FreshPointers(data: Data, ino: Inode, s: Slot)
    requires ino.direct == seq(DIRECT_BLOCKS, _ => INVALID) && ino.single == ino.double == INVALID
             && INVALID as nat !in data
    ensures SlotVal(data, ino, s) == INVALID
  {
    hide BlockWords;
  }

  /** An inode slot just handed out holds no block. */
  lemma TakenInode(fs: Fs, o: Owner, i: nat)
    requires FsInv(fs, o) && WellFormed(fs) && 1 <= i < MAX_INODES && !fs.ibits[i] && fs.freeInodes > 0
    ensures var fs' := InodeTaken(fs, i);
            && FsInv(fs', o) && OnlyNode(fs, fs', i) && GenStep(fs, fs') && Content(fs', i) == []
  {
    hide SlotVal, FreeSet, FreeInodes, Content, NextGeneration, ByteAt, BlockWords;
    InvShape(fs, o);
    var fs' := InodeTaken(fs, i);
    FreeInodesTake(fs.ibits, i);
    TakenOwned(fs, o, fs', i);
    forall j: nat | Allocated(fs, j) ensures InodeOk(fs', j) && Content(fs', j) == Content(fs, j) {
      OthersVal(fs, fs', i, j);
      InodeFrame(fs, o, fs', o, j);
    }
    EmptyInode(fs', i);
  }

  lemma OthersVal(fs: Fs, fs': Fs, i: nat, j: nat)
    requires WellFormed(fs) && WellFormed(fs') && j < MAX_INODES && j != i && fs'.data == fs.data
             && fs'.inodes[j] == fs.inodes[j]
    ensures forall s :: Val(fs', j, s) == Val(fs, j, s)
  {
    hide SlotVal;
  }

  lemma EmptyInode(fs: Fs, i: nat)
    requires WellFormed(fs) && i < MAX_INODES && fs.inodes[i].size == 0 && fs.inodes[i].blockCount == 0
    requires forall s :: Val(fs, i, s) == INVALID
    ensures InodeOk(fs, i) && Content(fs, i) == []
  {
    hide SlotVal, ByteAt;
  }

  lemma TakenOwned(fs: Fs, o: Owner, fs': Fs, i: nat)
    requires Owned(fs, o) && 1 <= i < MAX_INODES && WellFormed(fs) && !fs.ibits[i]
    requires fs'.data == fs.data && fs'.bits == fs.bits && fs'.ibits == fs.ibits[i := true]
    requires WellFormed(fs') && forall j :: 0 <= j < MAX_INODES && j != i ==> fs'.inodes[j] == fs.inodes[j]
    requires fs'.inodes[i].direct == seq(DIRECT_BLOCKS, _ => INVALID)
    requires fs'.inodes[i].single == fs'.inodes[i].double == INVALID
    ensures Owned(fs', o) && forall s :: Val(fs', i, s) == INVALID
  {
    hide SlotVal;
    forall s ensures Val(fs', i, s) == INVALID {
      FreshPointers(fs'.data, fs'.inodes[i], s);
    }
    forall j: nat, s | Allocated(fs', j) && Val(fs', j, s) != INVALID
      ensures Val(fs', j, s) in o && o[Val(fs', j, s)] == Claim(j, s)
    {
      assert Val(fs', j, s) == Val(fs, j, s);
    }
    forall b | b in o ensures Allocated(fs', o[b].inum) && Val(fs', o[b].inum, o[b].slot) == b {
      assert Val(fs, o[b].inum, o[b].slot) == b;
    }
  }

  /** The file system after an inode without blocks is given back. */
  function InodeFreed(fs: Fs, i: nat): Fs
    requires WellFormed(fs) && i < MAX_INODES && fs.freeInodes < MAX_INODES
  {
    fs.(ibits := fs.ibits[i := false], freeInodes := fs.freeInodes + 1,
        inodes := fs.inodes[i := InitInode(TYPE_FREE).(generation := fs.inodes[i].generation)])
  }

  lemma FreedInode(fs: Fs, o: Owner, i: nat)
    requires FsInv(fs, o) && Allocated(fs, i) && 1 <= i < MAX_INODES && WellFormed(fs) && fs.inodes[i].blockCount == 0
    ensures fs.freeInodes < MAX_INODES - 1
    ensures var fs' := InodeFreed(fs, i); FsInv(fs', o) && OnlyNode(fs, fs', i) && GenSame(fs, fs')
  {
    hide SlotVal, FreeSet, FreeInodes, Content, InitInode, BlockWords, Dense, TailZero;
    InvShape(fs, o);
    FreeInodesGive(fs.ibits, i);
    FreeInodesBounds(fs.ibits[i := false]);
    var fs' := InodeFreed(fs, i);
    NothingHeld(fs, i);
    FreedOwned(fs, o, fs', i);
    forall j: nat | Allocated(fs', j) ensures InodeOk(fs', j) && Content(fs', j) == Content(fs, j) {
      OthersVal(fs, fs', i, j);
      InodeFrame(fs, o, fs', o, j);
    }
  }

  lemma NothingHeld(fs: Fs, i: nat)
    requires InodeOk(fs, i) && fs.inodes[i].blockCount == 0
    ensures forall s :: Val(fs, i, s) == INVALID
  {
    hide SlotVal, TailZero;
    forall s ensures Val(fs, i, s) == INVALID {
      assert !Needed(s, 0);
    }
  }

  lemma FreedOwned(fs: Fs, o: Owner, fs': Fs, i: nat)
    requires Owned(fs, o) && i < MAX_INODES && WellFormed(fs) && (forall s :: Val(fs, i, s) == INVALID)
    requires fs'.data == fs.data && fs'.bits == fs.bits && fs'.ibits == fs.ibits[i := false] && WellFormed(fs')
    requires forall j :: 0 <= j < MAX_INODES && j != i ==> fs'.inodes[j] == fs.inodes[j]
    ensures Owned(fs', o)
  {
    hide SlotVal;
    OwnerClaims(fs, o);
    forall j: nat, s | Allocated(fs', j) && Val(fs', j, s) != INVALID
      ensures Val(fs', j, s) in o && o[Val(fs', j, s)] == Claim(j, s)
    {
      assert Val(fs', j, s) == Val(fs, j, s);
    }
    forall b | b in o ensures Allocated(fs', o[b].inum) && Val(fs', o[b].inum, o[b].slot) == b {
      assert Val(fs, o[b].inum, o[b].slot) == b;
    }
  }

  // ---- files ----

  /** A change of one file's bytes, on the tree. */
  lemma FileTreeStep(fs: Fs, fs': Fs, i: nat)
    requires DirsOk(fs) && Allocated(fs, i) && fs.inodes[i].itype != TYPE_DIR
    requires WellFormed(fs) && WellFormed(fs') && fs'.ibits == fs.ibits && OtherContents(fs, fs', i)
    requires i < MAX_INODES && fs'.inodes == fs.inodes[i := fs'.inodes[i]]
    requires fs'.inodes[i].itype == fs.inodes[i].itype && fs'.inodes[i].links == fs.inodes[i].links
    requires fs'.inodes[i].generation == fs.inodes[i].generation
    ensures DirsOk(fs') && GenSame(fs, fs')
    ensures i in TreeOf(fs) && TreeOf(fs') == TreeOf(fs)[i := TreeOf(fs)[i].(content := Content(fs', i))]
  {
    hide Content, Dir, DirOk, OtherContents;
    DirsUpdate(fs, fs', i);
    TreeUpdate(fs, fs', i);
    NodeIn(fs, i);
  }

  /** Stores that differ only in free blocks are the same tree. */
  lemma SameStoreTree(fs: Fs, fs': Fs, o: Owner)
    requires FsInv(fs, o) && FsInv(fs', o) && SameStore(fs, fs', o) && DirsOk(fs)
    ensures DirsOk(fs') && TreeOf(fs') == TreeOf(fs) && GenSame(fs, fs')
  {
    hide FsInv, Content, Slots, EntryMap, UniqueNames, Counted, Owned, InodeOk;
    WellFormedInv(fs', o);
    SameStoreInv(fs, fs', o);
    forall d: nat | Allocated(fs', d) && fs'.inodes[d].itype == TYPE_DIR ensures DirOk(fs', d) {
      assert DirOk(fs, d);
    }
    forall j: nat | j in TreeOf(fs') ensures TreeOf(fs')[j] == TreeOf(fs)[j] {
    }
  }

  /** free_inode: give back the blocks, then the slot; its generation stays. */
  method FreeInode(u: Ufs, inum: u32, ghost o: Owner) returns (r: Result<()>, ghost o': Owner)
    requires u.Valid() && FsInv(u.fs, o) && DirsOk(u.fs)
    modifies u`fs, u`sb, u.disk
    ensures u.Valid() && FsInv(u.fs, o') && DirsOk(u.fs) && GenSame(old(u.fs), u.fs)
    ensures r == if inum >= MAX_INODES then Err(EINVAL) else if inum == ROOT_INODE then Err(EBUSY) else Ok(())
    ensures TreeOf(u.fs) == if r.Ok? then TreeOf(old(u.fs)) - {inum as nat} else TreeOf(old(u.fs))
  {
    hide Ufs.Valid, FsInv, Content, NodeOf, Bits, InitInode, DirOk, GenSame, Cost, SameStore, Counted, Bit,
      OtherContents;
    o' := o;
    ghost var fs := u.fs;
    WellFormedInv(fs, o);
    GenReflexive(fs);
    if inum >= MAX_INODES {
      return Err(EINVAL), o;
    }
    if inum == ROOT_INODE {
      return Err(EBUSY), o;
    }
    var bm := new byte[BLOCK_SIZE](_ => 0);
    ReadInodeBitmap(u, bm);
    BitOfBits(bm, inum);
    if !BitmapTest(bm, inum) {
      assert TreeOf(fs) - {inum as nat} == TreeOf(fs);
      return Ok(()), o;
    }
    ghost var bits := Bits(bm[..]);
    var ri := u.ReadInode(inum);
    var ino := ri.value;
    ShrinkCosts(ino.blockCount);
    var rt, emptied;
    rt, emptied, o' := TruncateInode(u, inum, ino, 0, o);
    ghost var fs1 := u.fs;
    WellFormedInv(fs1, o');
    FreedInode(fs1, o', inum);
    SbFields(u);
    var _ := u.WriteInode(inum, InitInode(TYPE_FREE).(generation := emptied.generation));
    BitmapClear(bm, inum);
    assert bits[inum as nat := false][..MAX_INODES] == bits[..MAX_INODES][inum as nat := false];
    WriteInodeBitmap(u, bm);
    SbFields(u);
    u.FlushSuperblock(u.sb.(freeInodes := u.sb.freeInodes + 1));
    assert u.fs == InodeFreed(fs1, inum);
    FreedTree(fs, fs1, u.fs, inum);
    return Ok(()), o';
  }

  lemma GenReflexive(fs: Fs)
    requires WellFormed(fs)
    ensures GenSame(fs, fs)
  {
  }

  lemma ShrinkCosts(n: nat)
    ensures Cost(CeilDiv(0, BLOCK_SIZE)) <= Cost(n)
  {
    CostMonotone(0, n);
  }

  lemma FreedTree(fs: Fs, fs1: Fs, fs2: Fs, i: nat)
    requires DirsOk(fs) && OnlyNode(fs1, fs2, i) && !Allocated(fs2, i) && GenSame(fs1, fs2)
    requires WellFormed(fs) && WellFormed(fs1) && fs1.ibits == fs.ibits && OtherContents(fs, fs1, i)
    requires fs1.inodes == fs.inodes[i := fs1.inodes[i]] && fs1.inodes[i].generation == fs.inodes[i].generation
    ensures DirsOk(fs2) && GenSame(fs, fs2) && TreeOf(fs2) == TreeOf(fs) - {i}
  {
    hide Content, DirOk, NodeOf;
    forall j: nat | Allocated(fs, j) && j != i ensures Content(fs2, j) == Content(fs, j) {
      assert Allocated(fs1, j);
      assert Content(fs2, j) == Content(fs1, j) == Content(fs, j);
    }
    assert OnlyNode(fs, fs2, i);
    DirsUpdate(fs, fs2, i);
    TreeUpdate(fs, fs2, i);
  }
}
