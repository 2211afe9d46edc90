/** free_inode_blocks_after (src/userfs_storage.c): giving back every block beyond a block count.
    The loops free blocks while the pointer blocks that named them are still only changed in
    memory, so the tree that is in order is the disk overlaid with those copies. */
module Trim {
  import opened Layout
  import opened Encoding
  import opened Context
  import opened Allocator
  import opened Ownership
  import opened TreeSteps
  import opened PointerTree

  /** The disk with the caller's inode and the pointer blocks held in local buffers. */
  function MemView(fs: Fs, i: nat, ino: Inode, over: Data): Fs
    requires i < |fs.inodes|
  {
    fs.(inodes := fs.inodes[i := ino], data := fs.data + over)
  }

  ghost predicate InOrder(fs: Fs, inum: nat, ino: Inode, over: Data, owner: Owner) {
    && Counted(fs) && Allocated(fs, inum) && inum < MAX_INODES
    && (forall b :: b in over ==> InData(b))
    && Owned(MemView(fs, inum, ino, over), owner)
  }

  /** Only the caller's inode, bitmap bits and pointer blocks may change while trimming. */
  ghost predicate SameRest(fs: Fs, fs': Fs) {
    fs'.ibits == fs.ibits && fs'.inodes == fs.inodes && fs'.freeInodes == fs.freeInodes
  }

  lemma InOrderShape(fs: Fs, inum: nat, ino: Inode, over: Data, owner: Owner)
    requires InOrder(fs, inum, ino, over, owner)
    ensures Counted(fs) && WellFormed(fs) && Allocated(fs, inum) && inum < MAX_INODES
    ensures var m := MemView(fs, inum, ino, over);
            WellFormed(m) && Allocated(m, inum) && m.inodes[inum] == ino && Owned(m, owner)
    ensures forall b :: b in over ==> InData(b)
  {
    hide SlotVal;
  }

  lemma NoOverlay(fs: Fs, inum: nat, ino: Inode, owner: Owner)
    requires inum < |fs.inodes|
    ensures MemView(fs, inum, ino, map[]) == WithMem(fs, inum, ino)
    ensures InOrder(fs, inum, ino, map[], owner) <==> Holding(fs, inum, ino, owner)
  {
    hide Owned, Counted;
    assert fs.data + map[] == fs.data;
  }

  /** Is t below pointer slot p, at an index in lo..hi? */
  predicate Below(t: Slot, p: Slot, lo: nat, hi: nat) {
    match p
    case Single => t.Leaf? && SINGLE_START + lo <= t.lb < SINGLE_START + hi
    case Double => t.Level? && lo <= t.k < hi
    case Level(q) => t.Leaf? && DOUBLE_START + PTRS_PER_BLOCK * q + lo <= t.lb < DOUBLE_START + PTRS_PER_BLOCK * q + hi
    case Leaf(_) => false
  }

  function NotBelow(p: Slot, lo: nat, hi: nat): Slot -> bool { t => !Below(t, p, lo, hi) }

  /** A slot with no pointer owns nothing. */
  lemma NothingThere(m: Fs, o: Owner, i: nat, keep: Slot -> bool)
    requires Owned(m, o) && Allocated(m, i) && i < MAX_INODES
    requires forall t :: !keep(t) ==> Val(m, i, t) == INVALID
    ensures Trimmed(m, o, m, o, i, keep)
  {
    hide SlotVal;
    forall b | b in o && o[b].inum == i ensures keep(o[b].slot) {
      assert Val(m, i, o[b].slot) == b;
    }
    TrimmedRefl(m, o, i, keep);
  }

  // ---- the loop over one pointer block ----

  /** One index of the pointer loop. */
  method FreeEntry(u: Ufs, inum: u32, ghost ino: Inode, ghost over: Data, pb: u32, ghost p: Slot, ptrs: WordBlock,
                   k: nat, ghost o: Owner)
    returns (ptrs': WordBlock, ghost o': Owner)
    requires u.Valid() && InOrder(u.fs, inum, ino, over[pb as nat := WordsBlock(ptrs)], o)
    requires (p.Single? || (p.Level? && p.k < PTRS_PER_BLOCK)) && k < PTRS_PER_BLOCK && ptrs[k] != INVALID
    requires Val(MemView(u.fs, inum, ino, over[pb as nat := WordsBlock(ptrs)]), inum, p) == pb
    modifies u`fs, u`sb, u.disk
    ensures u.Valid() && SameRest(old(u.fs), u.fs) && u.fs.data == old(u.fs).data
    ensures ptrs' == ptrs[k := INVALID]
    ensures InOrder(u.fs, inum, ino, over[pb as nat := WordsBlock(ptrs')], o')
    ensures Val(MemView(u.fs, inum, ino, over[pb as nat := WordsBlock(ptrs')]), inum, p) == pb
    ensures Trimmed(MemView(old(u.fs), inum, ino, over[pb as nat := WordsBlock(ptrs)]), o,
                    MemView(u.fs, inum, ino, over[pb as nat := WordsBlock(ptrs')]), o', inum, t => t != Child(p, k))
  {
    hide Ufs.Valid, BlockWords, WordsBlock, Owned, Trimmed, SlotVal, FreeSet, FreeInodes;
    ghost var fs, over1 := u.fs, over[pb as nat := WordsBlock(ptrs)];
    ghost var m := MemView(fs, inum, ino, over1);
    InOrderShape(fs, inum, ino, over1, o);
    PtrOwned(m, o, inum, p);
    assert m.data[pb as nat] == WordsBlock(ptrs);
    BlockWordsRoundTrip(ptrs);
    ChildVal(m.data, ino, p, k);
    PtrOwned(m, o, inum, Child(p, k));
    OwnedBits(m, o);
    var _ := FreeDataBlock(u, ptrs[k]);
    ptrs' := ptrs[k := INVALID];
    o' := o - {ptrs[k] as nat};
    DetachChild(m, o, inum, p, k);
    assert MemView(u.fs, inum, ino, over[pb as nat := WordsBlock(ptrs')]) == ChildDetached(m, pb, k) by {
      assert fs.data + over[pb as nat := WordsBlock(ptrs')]
             == (fs.data + over1)[pb as nat := WordsBlock(ptrs')];
    }
    OtherVal(m, MemView(u.fs, inum, ino, over[pb as nat := WordsBlock(ptrs')]), inum, Child(p, k), p);
  }

  lemma OtherVal(m: Fs, m': Fs, i: nat, s: Slot, p: Slot)
    requires SlotSet(m, m', i, s, INVALID) && Allocated(m, i) && p != s
    ensures Val(m', i, p) == Val(m, i, p)
  {
    hide SlotVal;
  }

  /** Free everything from index start on; report whether anything changed or remains. */
  method FreeTail(u: Ufs, inum: u32, ghost ino: Inode, ghost over: Data, pb: u32, ghost p: Slot, ptrs0: WordBlock,
                  start: nat, ghost o: Owner)
    returns (ptrs: WordBlock, changed: bool, anyRemaining: bool, ghost o': Owner)
    requires u.Valid() && InOrder(u.fs, inum, ino, over[pb as nat := WordsBlock(ptrs0)], o)
    requires p.Single? || (p.Level? && p.k < PTRS_PER_BLOCK)
    requires Val(MemView(u.fs, inum, ino, over[pb as nat := WordsBlock(ptrs0)]), inum, p) == pb
    modifies u`fs, u`sb, u.disk
    ensures u.Valid() && SameRest(old(u.fs), u.fs) && u.fs.data == old(u.fs).data
    ensures forall k :: 0 <= k < PTRS_PER_BLOCK ==> ptrs[k] == if k < start then ptrs0[k] else INVALID
    ensures !changed ==> ptrs == ptrs0
    ensures anyRemaining <==> exists k :: 0 <= k < PTRS_PER_BLOCK && k < start && ptrs0[k] != INVALID
    ensures InOrder(u.fs, inum, ino, over[pb as nat := WordsBlock(ptrs)], o')
    ensures Val(MemView(u.fs, inum, ino, over[pb as nat := WordsBlock(ptrs)]), inum, p) == pb
    ensures Trimmed(MemView(old(u.fs), inum, ino, over[pb as nat := WordsBlock(ptrs0)]), o,
                    MemView(u.fs, inum, ino, over[pb as nat := WordsBlock(ptrs)]), o', inum,
                    NotBelow(p, start, PTRS_PER_BLOCK))
  {
    hide Ufs.Valid, WordsBlock, Owned, Trimmed, Val, Counted, InOrder;
    ptrs, changed, anyRemaining, o' := ptrs0, false, false, o;
    ghost var fs0 := u.fs;
    InOrderShape(fs0, inum, ino, over[pb as nat := WordsBlock(ptrs0)], o);
    ghost var m0 := MemView(fs0, inum, ino, over[pb as nat := WordsBlock(ptrs0)]);
    TrimmedRefl(m0, o, inum, NotBelow(p, start, start));
    for k := 0 to PTRS_PER_BLOCK
      invariant u.Valid() && SameRest(fs0, u.fs) && u.fs.data == fs0.data
      invariant |u.fs.inodes| == MAX_INODES
      invariant forall j :: 0 <= j < PTRS_PER_BLOCK ==> ptrs[j] == if start <= j < k then INVALID else ptrs0[j]
      invariant !changed ==> ptrs == ptrs0
      invariant anyRemaining <==> exists j :: 0 <= j < k && j < start && ptrs0[j] != INVALID
      invariant InOrder(u.fs, inum, ino, over[pb as nat := WordsBlock(ptrs)], o')
      invariant Val(MemView(u.fs, inum, ino, over[pb as nat := WordsBlock(ptrs)]), inum, p) == pb
      invariant Trimmed(m0, o, MemView(u.fs, inum, ino, over[pb as nat := WordsBlock(ptrs)]), o', inum,
                        NotBelow(p, start, Max(start, k)))
    {
      ghost var fs1, ptrs1, o1 := u.fs, ptrs, o';
      ghost var m1 := MemView(fs1, inum, ino, over[pb as nat := WordsBlock(ptrs1)]);
      if k >= start {
        if ptrs[k] != INVALID {
          ptrs, o' := FreeEntry(u, inum, ino, over, pb, p, ptrs, k, o');
          changed := true;
        } else {
          EntryAbsent(fs1, inum, ino, over[pb as nat := WordsBlock(ptrs1)], o1, pb, p, ptrs1, k);
        }
        ghost var m2 := MemView(u.fs, inum, ino, over[pb as nat := WordsBlock(ptrs)]);
        TrimmedTrans(m0, o, m1, o1, m2, o', inum, NotBelow(p, start, k), t => t != Child(p, k),
          NotBelow(p, start, k + 1));
      } else if ptrs[k] != INVALID {
        anyRemaining := true;
      }
    }
    ghost var m := MemView(u.fs, inum, ino, over[pb as nat := WordsBlock(ptrs)]);
    TrimmedSame(m0, o, m, o', inum, NotBelow(p, start, Max(start, PTRS_PER_BLOCK)), NotBelow(p, start, PTRS_PER_BLOCK));
  }

  lemma TrimmedSame(m: Fs, o: Owner, m': Fs, o': Owner, i: nat, k1: Slot -> bool, k2: Slot -> bool)
    requires Trimmed(m, o, m', o', i, k1) && forall s :: k1(s) <==> k2(s)
    ensures Trimmed(m, o, m', o', i, k2)
  {
  }

  lemma EntryAbsent(fs: Fs, inum: nat, ino: Inode, over: Data, o: Owner, pb: u32, p: Slot, ptrs: WordBlock, k: nat)
    requires InOrder(fs, inum, ino, over, o) && k < PTRS_PER_BLOCK && ptrs[k] == INVALID
    requires (p.Single? || (p.Level? && p.k < PTRS_PER_BLOCK)) && pb as nat in over
             && over[pb as nat] == WordsBlock(ptrs)
    requires Val(MemView(fs, inum, ino, over), inum, p) == pb
    ensures Trimmed(MemView(fs, inum, ino, over), o, MemView(fs, inum, ino, over), o, inum, t => t != Child(p, k))
  {
    hide Owned, Trimmed, WordsBlock, BlockWords, SlotVal, Counted;
    var m := MemView(fs, inum, ino, over);
    InOrderShape(fs, inum, ino, over, o);
    BlockWordsRoundTrip(ptrs);
    ChildVal(m.data, ino, p, k);
    NothingThere(m, o, inum, t => t != Child(p, k));
  }

  // ---- buffers and the disk ----

  lemma ViewRead(fs: Fs, inum: nat, ino: Inode, over: Data, pb: nat)
    requires inum < |fs.inodes| && pb in fs.data && pb !in over
    ensures MemView(fs, inum, ino, over[pb := fs.data[pb]]) == MemView(fs, inum, ino, over)
  {
    assert fs.data + over[pb := fs.data[pb]] == fs.data + over;
  }

  lemma ViewWrite(fs: Fs, inum: nat, ino: Inode, over: Data, pb: nat, blk: Block)
    requires inum < |fs.inodes| && pb !in over
    ensures MemView(fs.(data := fs.data[pb := blk]), inum, ino, over) == MemView(fs, inum, ino, over[pb := blk])
  {
    assert fs.data[pb := blk] + over == fs.data + over[pb := blk];
  }

  /** Which slots a trim keeps matters only where there are pointers. */
  lemma TrimmedOn(m: Fs, o: Owner, m': Fs, o': Owner, i: nat, k1: Slot -> bool, k2: Slot -> bool)
    requires Trimmed(m, o, m', o', i, k1) && Owned(m, o)
    requires forall t :: Allocated(m, i) && Val(m, i, t) != INVALID ==> (k1(t) <==> k2(t))
    ensures Trimmed(m, o, m', o', i, k2)
  {
    hide SlotVal;
    forall b | b in o && o[b].inum == i ensures k1(o[b].slot) <==> k2(o[b].slot) {
      assert Val(m, i, o[b].slot) == b;
    }
  }

  // ---- direct blocks ----

  function KeepDirect(n: nat, i: nat): Slot -> bool { (t: Slot) => !(t.Leaf? && n <= t.lb < i) }

  method FreeDirect(u: Ufs, inum: u32, ino: Inode, keep: nat, ghost o: Owner)
    returns (ino': Inode, dirty: bool, ghost o': Owner)
    requires u.Valid() && InOrder(u.fs, inum, ino, map[], o)
    modifies u`fs, u`sb, u.disk
    ensures u.Valid() && SameRest(old(u.fs), u.fs) && InOrder(u.fs, inum, ino', map[], o')
    ensures ino' == ino.(direct := ino'.direct) && (!dirty ==> ino' == ino)
    ensures Trimmed(MemView(old(u.fs), inum, ino, map[]), o, MemView(u.fs, inum, ino', map[]), o', inum,
                    KeepDirect(keep, SINGLE_START))
  {
    hide Ufs.Valid, Owned, Trimmed, SlotVal, Counted, InOrder;
    ino', dirty, o' := ino, false, o;
    ghost var fs0 := u.fs;
    InOrderShape(fs0, inum, ino, map[], o);
    ghost var m0 := MemView(fs0, inum, ino, map[]);
    var first := if keep < DIRECT_BLOCKS then keep else DIRECT_BLOCKS;
    TrimmedRefl(m0, o, inum, KeepDirect(keep, first));
    for i := first to DIRECT_BLOCKS
      invariant u.Valid() && SameRest(fs0, u.fs) && InOrder(u.fs, inum, ino', map[], o')
      invariant ino' == ino.(direct := ino'.direct) && (!dirty ==> ino' == ino)
      invariant Trimmed(m0, o, MemView(u.fs, inum, ino', map[]), o', inum, KeepDirect(keep, i))
    {
      ghost var fs1, ino1, o1 := u.fs, ino', o';
      ghost var m1 := MemView(fs1, inum, ino1, map[]);
      LeafInInode(m1, ino1, i);
      InOrderShape(fs1, inum, ino1, map[], o1);
      if ino'.direct[i] != INVALID {
        ino', o' := FreePtr(u, inum, ino', Leaf(i), o');
        dirty := true;
      } else {
        DirectAbsent(fs1, inum, ino1, o1, i);
      }
      TrimmedTrans(m0, o, m1, o1, MemView(u.fs, inum, ino', map[]), o', inum,
                   KeepDirect(keep, i), t => t != Leaf(i), KeepDirect(keep, i + 1));
    }
  }

  lemma DirectAbsent(fs: Fs, inum: nat, ino: Inode, o: Owner, i: nat)
    requires InOrder(fs, inum, ino, map[], o) && i < SINGLE_START && ino.direct[i] == INVALID
    ensures Trimmed(MemView(fs, inum, ino, map[]), o, MemView(fs, inum, ino, map[]), o, inum, t => t != Leaf(i))
  {
    hide Owned, Trimmed, Counted;
    InOrderShape(fs, inum, ino, map[], o);
    NothingThere(MemView(fs, inum, ino, map[]), o, inum, t => t != Leaf(i));
  }

  /** Free the block of a pointer in the inode; a pointer block must have no pointers left. */
  method FreePtr(u: Ufs, inum: u32, ino: Inode, s: Slot, ghost o: Owner) returns (ino': Inode, ghost o': Owner)
    requires u.Valid() && InOrder(u.fs, inum, ino, map[], o) && InInode(s)
    requires Val(MemView(u.fs, inum, ino, map[]), inum, s) != INVALID
    requires !s.Leaf? ==>
               NoPointers(MemView(u.fs, inum, ino, map[]).data, Val(MemView(u.fs, inum, ino, map[]), inum, s))
    modifies u`fs, u`sb, u.disk
    ensures u.Valid() && SameRest(old(u.fs), u.fs) && InOrder(u.fs, inum, ino', map[], o')
    ensures ino' == SetPtr(ino, s, INVALID)
    ensures Trimmed(MemView(old(u.fs), inum, ino, map[]), o, MemView(u.fs, inum, ino', map[]), o', inum, t => t != s)
  {
    hide Ufs.Valid, BlockWords, Owned, Trimmed, FreeSet, FreeInodes, NoPointers;
    ghost var m := MemView(u.fs, inum, ino, map[]);
    InOrderShape(u.fs, inum, ino, map[], o);
    PtrOwned(m, o, inum, s);
    OwnedBits(m, o);
    var b := match s case Single => ino.single case Double => ino.double case Leaf(l) => ino.direct[l];
    var _ := FreeDataBlock(u, b);
    ino' := SetPtr(ino, s, INVALID);
    o' := o - {b as nat};
    DetachPtr(m, o, inum, s);
    assert MemView(u.fs, inum, ino', map[]) == PtrDetached(m, inum, s);
  }

  // ---- single indirect ----

  function KeepSingle(n: nat): Slot -> bool {
    (t: Slot) => (t.Single? || (t.Leaf? && SINGLE_START <= t.lb < DOUBLE_START)) ==> Needed(t, n)
  }

  method FreeSingle(u: Ufs, inum: u32, ino: Inode, keep: nat, ghost o: Owner)
    returns (ino': Inode, dirty: bool, ghost o': Owner)
    requires u.Valid() && InOrder(u.fs, inum, ino, map[], o)
    modifies u`fs, u`sb, u.disk
    ensures u.Valid() && SameRest(old(u.fs), u.fs) && InOrder(u.fs, inum, ino', map[], o')
    ensures ino' == ino.(single := ino'.single) && (!dirty ==> ino' == ino)
    ensures Trimmed(MemView(old(u.fs), inum, ino, map[]), o, MemView(u.fs, inum, ino', map[]), o', inum,
            KeepSingle(keep))
  {
    hide Ufs.Valid, BlockWords, WordsBlock, Owned, Trimmed, SlotVal, Counted, InOrder, NoPointers;
    ino', dirty, o' := ino, false, o;
    ghost var m0 := SingleShape(u.fs, inum, ino, o, keep);
    if ino.single == INVALID {
      return;
    }
    var pb := ino.single;
    var blk := u.ReadData(pb);
    WordsBlockRoundTrip(blk);
    ViewRead(u.fs, inum, ino, map[], pb);
    var start := if keep > SINGLE_START then keep - SINGLE_START else 0;
    InOrderView(u.fs, inum, ino, map[], map[pb as nat := blk], o);
    var ptrs, changed, any;
    ptrs, changed, any, o' := FreeTail(u, inum, ino, map[], pb, Single, BlockWords(blk), start, o);
    Flush(u, inum, ino, map[], pb, ptrs, changed, o');
    ghost var m1, o1 := MemView(u.fs, inum, ino, map[]), o';
    if !any && start == 0 {
      TailEmpty(m1.data, pb, ptrs);
      ino', o' := FreePtr(u, inum, ino, Single, o');
      dirty := true;
      TrimmedTrans(m0, o, m1, o1, MemView(u.fs, inum, ino', map[]), o', inum,
                   NotBelow(Single, start, PTRS_PER_BLOCK), t => t != Single, KeepSingle(keep));
    } else {
      TrimmedOn(m0, o, m1, o', inum, NotBelow(Single, start, PTRS_PER_BLOCK), KeepSingle(keep));
    }
  }

  lemma SingleShape(fs: Fs, inum: nat, ino: Inode, o: Owner, keep: nat) returns (m: Fs)
    requires InOrder(fs, inum, ino, map[], o)
    ensures WellFormed(fs) && Allocated(fs, inum) && inum < MAX_INODES && m == MemView(fs, inum, ino, map[])
    ensures Owned(m, o) && m.data == fs.data
    ensures Val(m, inum, Single) == ino.single && (ino.single != INVALID ==> InData(ino.single))
    ensures ino.single == INVALID ==> Trimmed(m, o, m, o, inum, KeepSingle(keep))
  {
    hide Owned, Trimmed, BlockWords;
    InOrderShape(fs, inum, ino, map[], o);
    m := MemView(fs, inum, ino, map[]);
    PtrOwned(m, o, inum, Single);
    if ino.single == INVALID {
      NothingThere(m, o, inum, KeepSingle(keep));
    }
    assert fs.data + map[] == fs.data;
  }

  lemma InOrderView(fs: Fs, inum: nat, ino: Inode, over: Data, over': Data, o: Owner)
    requires InOrder(fs, inum, ino, over, o) && MemView(fs, inum, ino, over') == MemView(fs, inum, ino, over)
    requires forall b :: b in over' ==> InData(b)
    ensures InOrder(fs, inum, ino, over', o)
  {
    hide Owned, Counted;
  }

  lemma TailEmpty(data: Data, pb: u32, ptrs: WordBlock)
    requires pb as nat in data && data[pb as nat] == WordsBlock(ptrs)
    requires forall k :: 0 <= k < PTRS_PER_BLOCK ==> ptrs[k] == INVALID
    ensures NoPointers(data, pb)
  {
    hide WordsBlock, BlockWords;
    BlockWordsRoundTrip(ptrs);
  }

  /** Write a pointer-block buffer back if it changed. */
  method Flush(u: Ufs, inum: u32, ghost ino: Inode, ghost over: Data, pb: u32, ptrs: WordBlock, changed: bool,
               ghost o: Owner)
    requires u.Valid() && InOrder(u.fs, inum, ino, over[pb as nat := WordsBlock(ptrs)], o) && pb as nat !in over
    requires InData(pb) && (!changed ==> u.fs.data[pb as nat] == WordsBlock(ptrs))
    modifies u`fs, u.disk
    ensures u.Valid() && SameRest(old(u.fs), u.fs) && InOrder(u.fs, inum, ino, over, o)
    ensures MemView(u.fs, inum, ino, over) == old(MemView(u.fs, inum, ino, over[pb as nat := WordsBlock(ptrs)]))
    ensures u.fs == old(u.fs).(data := old(u.fs).data[pb as nat := WordsBlock(ptrs)])
  {
    hide Ufs.Valid, Owned, FreeSet, FreeInodes, WordsBlock;
    InOrderShape(u.fs, inum, ino, over[pb as nat := WordsBlock(ptrs)], o);
    if changed {
      ViewWrite(u.fs, inum, ino, over, pb, WordsBlock(ptrs));
      u.WriteData(pb, WordsBlock(ptrs));
    } else {
      ViewRead(u.fs, inum, ino, over, pb);
      assert u.fs.data[pb as nat := WordsBlock(ptrs)] == u.fs.data;
    }
    assert forall b :: b in over ==> b in over[pb as nat := WordsBlock(ptrs)];
  }

  // ---- double indirect ----

  /** Entries 0..x of the first-level block have been dealt with. */
  function KeepLevels(n: nat, x: nat): Slot -> bool {
    (t: Slot) => ((t.Level? && t.k < x) || (t.Leaf? && DOUBLE_START <= t.lb < DOUBLE_START + PTRS_PER_BLOCK * x))
      ==> Needed(t, n)
  }

  /** Only entry q of the first-level block has been dealt with. */
  function KeepLevel(n: nat, q: nat): Slot -> bool {
    (t: Slot) => (t == Level(q) || Below(t, Level(q), 0, PTRS_PER_BLOCK)) ==> Needed(t, n)
  }

  /** The state while first-level pointers are in the buffer l1. */
  ghost predicate InLevels(fs: Fs, inum: nat, ino: Inode, l1: WordBlock, o: Owner) {
    && ino.double != INVALID
    && InOrder(fs, inum, ino, map[ino.double as nat := WordsBlock(l1)], o)
  }

  function LevelView(fs: Fs, inum: nat, ino: Inode, l1: WordBlock): Fs
    requires inum < |fs.inodes|
  {
    MemView(fs, inum, ino, map[ino.double as nat := WordsBlock(l1)])
  }

  lemma LevelShape(fs: Fs, inum: nat, ino: Inode, l1: WordBlock, o: Owner, q: nat)
    requires InLevels(fs, inum, ino, l1, o) && q < PTRS_PER_BLOCK
    ensures Counted(fs) && WellFormed(fs) && Allocated(fs, inum) && inum < MAX_INODES && InData(ino.double)
    ensures var m := LevelView(fs, inum, ino, l1);
            && Owned(m, o) && Allocated(m, inum) && m.inodes[inum] == ino
            && Val(m, inum, Double) == ino.double && Val(m, inum, Level(q)) == l1[q]
            && (l1[q] != INVALID ==>
                  InData(l1[q]) && l1[q] != ino.double && m.data[l1[q] as nat] == fs.data[l1[q] as nat])
  {
    hide Owned, WordsBlock, BlockWords, Counted;
    var over: Data := map[ino.double as nat := WordsBlock(l1)];
    InOrderShape(fs, inum, ino, over, o);
    assert ino.double as nat in over;
    var m := LevelView(fs, inum, ino, l1);
    BlockWordsRoundTrip(l1);
    PtrOwned(m, o, inum, Level(q));
    if l1[q] == ino.double {
      Exclusive(m, o, inum, Level(q), inum, Double);
    }
  }

  /** An absent or wholly kept entry needs nothing done. */
  lemma LevelKept(fs: Fs, inum: nat, ino: Inode, l1: WordBlock, o: Owner, q: nat, keep: nat)
    requires InLevels(fs, inum, ino, l1, o) && q < PTRS_PER_BLOCK
    requires l1[q] == INVALID || keep >= DOUBLE_START + PTRS_PER_BLOCK * (q + 1)
    ensures inum < |fs.inodes|
    ensures Trimmed(LevelView(fs, inum, ino, l1), o, LevelView(fs, inum, ino, l1), o, inum, KeepLevel(keep, q))
  {
    hide Owned, Trimmed, WordsBlock, BlockWords, Counted, InLevels, LevelView;
    LevelShape(fs, inum, ino, l1, o, q);
    var m := LevelView(fs, inum, ino, l1);
    if l1[q] == INVALID {
      forall t: Slot | !KeepLevel(keep, q)(t) ensures Val(m, inum, t) == INVALID {
        if t.Leaf? {
          assert (t.lb - DOUBLE_START) / PTRS_PER_BLOCK == q;
          OwnedBits(m, o);
          assert INVALID as nat !in m.data;
        }
      }
    }
    NothingThere(m, o, inum, KeepLevel(keep, q));
  }

  /** One entry of the first-level block: trim its second-level block, and free that block if the
      whole of it goes. */
  method FreeLevel(u: Ufs, inum: u32, ino: Inode, l1: WordBlock, q: nat, keep: nat, ghost o: Owner)
    returns (l1': WordBlock, remaining: bool, ghost o': Owner)
    requires u.Valid() && InLevels(u.fs, inum, ino, l1, o) && q < PTRS_PER_BLOCK
    modifies u`fs, u`sb, u.disk
    ensures u.Valid() && SameRest(old(u.fs), u.fs) && InLevels(u.fs, inum, ino, l1', o')
    ensures l1' == l1 || l1' == l1[q := INVALID]
    ensures remaining <==> l1'[q] != INVALID
    ensures l1'[q] != INVALID ==> keep > DOUBLE_START + PTRS_PER_BLOCK * q
    ensures u.fs.data[ino.double as nat] == old(u.fs).data[ino.double as nat]
    ensures Trimmed(LevelView(old(u.fs), inum, ino, l1), o, LevelView(u.fs, inum, ino, l1'), o', inum,
            KeepLevel(keep, q))
  {
    hide Ufs.Valid, BlockWords, WordsBlock, Owned, Trimmed, Counted, InOrder, InLevels, LevelView, Val, SlotVal,
      NoPointers;
    l1', o' := l1, o;
    LevelShape(u.fs, inum, ino, l1, o, q);
    if l1[q] == INVALID {
      LevelKept(u.fs, inum, ino, l1, o, q, keep);
      return l1, false, o;
    }
    var startLb2 := if keep > DOUBLE_START then keep - DOUBLE_START else 0;
    var blockStart := q * PTRS_PER_BLOCK;
    if blockStart + PTRS_PER_BLOCK <= startLb2 {
      LevelKept(u.fs, inum, ino, l1, o, q, keep);
      return l1, true, o;
    }
    var localStart := if startLb2 > blockStart then startLb2 - blockStart else 0;
    ghost var m0 := LevelView(u.fs, inum, ino, l1);
    var l2, any, o1 := TrimLevel(u, inum, ino, l1, q, localStart, o);
    ghost var fs1 := u.fs;
    ghost var m1 := LevelView(fs1, inum, ino, l1);
    LevelShape(fs1, inum, ino, l1, o1, q);
    LevelKeepers(q, keep, localStart);
    if !any && localStart == 0 {
      TailEmpty(m1.data, l1[q], l2);
      l1', o' := FreeLevelBlock(u, inum, ino, l1, q, o1);
      TrimmedTrans(m0, o, m1, o1, LevelView(u.fs, inum, ino, l1'), o', inum,
                   NotBelow(Level(q), localStart, PTRS_PER_BLOCK), t => t != Level(q), KeepLevel(keep, q));
      return l1', false, o';
    }
    TrimmedOn(m0, o, m1, o1, inum, NotBelow(Level(q), localStart, PTRS_PER_BLOCK), KeepLevel(keep, q));
    return l1, true, o1;
  }

  lemma LevelKeepers(q: nat, keep: nat, localStart: nat)
    requires localStart
             == if keep > DOUBLE_START + PTRS_PER_BLOCK * q then keep - DOUBLE_START - PTRS_PER_BLOCK * q else 0
    requires localStart < PTRS_PER_BLOCK
    ensures localStart == 0 ==> forall t: Slot ::
              KeepLevel(keep, q)(t) <==> NotBelow(Level(q), 0, PTRS_PER_BLOCK)(t) && t != Level(q)
    ensures localStart > 0 ==> forall t: Slot ::
              KeepLevel(keep, q)(t) <==> NotBelow(Level(q), localStart, PTRS_PER_BLOCK)(t)
  {
  }

  /** Read, trim and write back the second-level block of entry q. */
  method TrimLevel(u: Ufs, inum: u32, ino: Inode, l1: WordBlock, q: nat, localStart: nat, ghost o: Owner)
    returns (l2: WordBlock, any: bool, ghost o': Owner)
    requires u.Valid() && InLevels(u.fs, inum, ino, l1, o) && q < PTRS_PER_BLOCK && l1[q] != INVALID
    modifies u`fs, u`sb, u.disk
    ensures u.Valid() && SameRest(old(u.fs), u.fs) && InLevels(u.fs, inum, ino, l1, o')
    ensures localStart == 0 ==> !any && forall k :: 0 <= k < PTRS_PER_BLOCK ==> l2[k] == INVALID
    ensures InData(l1[q]) && InData(ino.double)
    ensures var m := LevelView(u.fs, inum, ino, l1); l1[q] as nat in m.data && m.data[l1[q] as nat] == WordsBlock(l2)
    ensures u.fs.data[ino.double as nat] == old(u.fs).data[ino.double as nat]
    ensures Trimmed(LevelView(old(u.fs), inum, ino, l1), o, LevelView(u.fs, inum, ino, l1), o', inum,
                    NotBelow(Level(q), localStart, PTRS_PER_BLOCK))
  {
    hide Ufs.Valid, BlockWords, WordsBlock, Owned, Trimmed, Counted, InOrder, Val;
    LevelShape(u.fs, inum, ino, l1, o, q);
    ghost var over: Data := map[ino.double as nat := WordsBlock(l1)];
    var pb := l1[q];
    var blk := u.ReadData(pb);
    WordsBlockRoundTrip(blk);
    ViewRead(u.fs, inum, ino, over, pb);
    InOrderView(u.fs, inum, ino, over, over[pb as nat := blk], o);
    var changed;
    l2, changed, any, o' := FreeTail(u, inum, ino, over, pb, Level(q), BlockWords(blk), localStart, o);
    Flush(u, inum, ino, over, pb, l2, changed, o');
    LevelShape(u.fs, inum, ino, l1, o', q);
  }

  /** Free an emptied second-level block. */
  method FreeLevelBlock(u: Ufs, inum: u32, ino: Inode, l1: WordBlock, q: nat, ghost o: Owner)
    returns (l1': WordBlock, ghost o': Owner)
    requires u.Valid() && InLevels(u.fs, inum, ino, l1, o) && q < PTRS_PER_BLOCK && l1[q] != INVALID
    requires inum < |u.fs.inodes| && NoPointers(LevelView(u.fs, inum, ino, l1).data, l1[q])
    modifies u`fs, u`sb, u.disk
    ensures u.Valid() && SameRest(old(u.fs), u.fs) && u.fs.data == old(u.fs).data
    ensures l1' == l1[q := INVALID] && InLevels(u.fs, inum, ino, l1', o')
    ensures Trimmed(LevelView(old(u.fs), inum, ino, l1), o, LevelView(u.fs, inum, ino, l1'), o', inum,
            t => t != Level(q))
  {
    hide Ufs.Valid, BlockWords, WordsBlock, Owned, Trimmed, SlotVal, FreeSet, FreeInodes, NoPointers;
    ghost var fs, m := u.fs, LevelView(u.fs, inum, ino, l1);
    LevelShape(fs, inum, ino, l1, o, q);
    BlockWordsRoundTrip(l1);
    PtrOwned(m, o, inum, Level(q));
    OwnedBits(m, o);
    var _ := FreeDataBlock(u, l1[q]);
    l1' := l1[q := INVALID];
    o' := o - {l1[q] as nat};
    DetachChild(m, o, inum, Double, q);
    assert LevelView(u.fs, inum, ino, l1') == ChildDetached(m, ino.double, q) by {
      assert fs.data + map[ino.double as nat := WordsBlock(l1')]
             == (fs.data + map[ino.double as nat := WordsBlock(l1)])[ino.double as nat := WordsBlock(l1')];
    }
  }

  function KeepDouble(n: nat): Slot -> bool {
    (t: Slot) => (t.Double? || t.Level? || (t.Leaf? && t.lb >= DOUBLE_START)) ==> Needed(t, n)
  }

  function KeepDeep(n: nat): Slot -> bool {
    (t: Slot) => (t.Level? || (t.Leaf? && t.lb >= DOUBLE_START)) ==> Needed(t, n)
  }

  /** There are no slots past the last index. */
  lemma KeptEntries(m: Fs, i: nat, keep: nat)
    requires i < |m.inodes|
    ensures forall t :: Val(m, i, t) != INVALID ==> (KeepLevels(keep, PTRS_PER_BLOCK)(t) <==> KeepDeep(keep)(t))
    ensures keep > DOUBLE_START ==>
              forall t :: Val(m, i, t) != INVALID ==> (KeepLevels(keep, PTRS_PER_BLOCK)(t) <==> KeepDouble(keep)(t))
  {
    hide BlockWords;
  }

  lemma DoubleShape(fs: Fs, inum: nat, ino: Inode, o: Owner, keep: nat) returns (m: Fs)
    requires InOrder(fs, inum, ino, map[], o)
    ensures WellFormed(fs) && Allocated(fs, inum) && inum < MAX_INODES && m == MemView(fs, inum, ino, map[])
    ensures Owned(m, o) && |m.inodes| == MAX_INODES
    ensures ino.double != INVALID ==> InData(ino.double)
    ensures ino.double == INVALID ==> Trimmed(m, o, m, o, inum, KeepDouble(keep))
  {
    hide Owned, Trimmed, BlockWords;
    InOrderShape(fs, inum, ino, map[], o);
    m := MemView(fs, inum, ino, map[]);
    PtrOwned(m, o, inum, Double);
    if ino.double == INVALID {
      assert INVALID as nat !in m.data;
      NothingThere(m, o, inum, KeepDouble(keep));
    }
  }

  lemma EnterLevels(fs: Fs, inum: nat, ino: Inode, o: Owner, blk: Block)
    requires InOrder(fs, inum, ino, map[], o) && ino.double != INVALID && inum < |fs.inodes|
    requires ino.double as nat in fs.data && fs.data[ino.double as nat] == blk
    ensures InLevels(fs, inum, ino, BlockWords(blk), o) && WordsBlock(BlockWords(blk)) == blk
    ensures LevelView(fs, inum, ino, BlockWords(blk)) == MemView(fs, inum, ino, map[])
  {
    hide Owned, WordsBlock, BlockWords, Counted;
    WordsBlockRoundTrip(blk);
    ViewRead(fs, inum, ino, map[], ino.double);
    var over: Data := map[ino.double as nat := blk];
    assert map[][ino.double as nat := blk] == over;
    OwnedBits(MemView(fs, inum, ino, map[]), o);
    PtrOwned(MemView(fs, inum, ino, map[]), o, inum, Double);
    assert Val(MemView(fs, inum, ino, map[]), inum, Double) == ino.double;
  }

  lemma LeaveLevels(fs: Fs, inum: nat, ino: Inode, l1: WordBlock, o: Owner)
    requires InLevels(fs, inum, ino, l1, o) && inum < |fs.inodes|
    ensures var over: Data := map[]; InOrder(fs, inum, ino, over[ino.double as nat := WordsBlock(l1)], o)
    ensures var over: Data := map[];
            MemView(fs, inum, ino, over[ino.double as nat := WordsBlock(l1)]) == LevelView(fs, inum, ino, l1)
  {
    hide Owned, WordsBlock, Counted;
    var over: Data := map[];
    assert over[ino.double as nat := WordsBlock(l1)] == map[ino.double as nat := WordsBlock(l1)];
  }

  lemma DoubleVal(fs: Fs, inum: nat, ino: Inode, o: Owner)
    requires InOrder(fs, inum, ino, map[], o)
    ensures inum < |fs.inodes| && Val(MemView(fs, inum, ino, map[]), inum, Double) == ino.double
    ensures MemView(fs, inum, ino, map[]).data == fs.data
  {
    hide Owned, Counted;
    InOrderShape(fs, inum, ino, map[], o);
    assert fs.data + map[] == fs.data;
  }

  /** The loop over the first-level block. */
  method FreeLevels(u: Ufs, inum: u32, ino: Inode, l1was: WordBlock, keep: nat, ghost o: Owner)
    returns (l1: WordBlock, changed: bool, anyRemaining: bool, ghost o': Owner)
    requires u.Valid() && InLevels(u.fs, inum, ino, l1was, o) && inum < |u.fs.inodes| && InData(ino.double)
    modifies u`fs, u`sb, u.disk
    ensures u.Valid() && SameRest(old(u.fs), u.fs) && InLevels(u.fs, inum, ino, l1, o')
    ensures !changed ==> l1 == l1was
    ensures anyRemaining <==> exists q :: 0 <= q < PTRS_PER_BLOCK && l1[q] != INVALID
    ensures anyRemaining ==> keep > DOUBLE_START
    ensures u.fs.data[ino.double as nat] == old(u.fs).data[ino.double as nat]
    ensures Trimmed(LevelView(old(u.fs), inum, ino, l1was), o, LevelView(u.fs, inum, ino, l1), o', inum,
                    KeepLevels(keep, PTRS_PER_BLOCK))
  {
    hide Ufs.Valid, BlockWords, WordsBlock, Owned, Trimmed, Val, Counted, InOrder, InLevels, LevelView;
    l1, changed, anyRemaining, o' := l1was, false, false, o;
    ghost var fs0 := u.fs;
    LevelShape(fs0, inum, ino, l1was, o, 0);
    ghost var m0 := LevelView(fs0, inum, ino, l1was);
    OwnedBits(m0, o);
    TrimmedRefl(m0, o, inum, KeepLevels(keep, 0));
    for q := 0 to PTRS_PER_BLOCK
      invariant u.Valid() && SameRest(fs0, u.fs) && InLevels(u.fs, inum, ino, l1, o')
      invariant !changed ==> l1 == l1was
      invariant ino.double as nat in u.fs.data && u.fs.data[ino.double as nat] == fs0.data[ino.double as nat]
      invariant anyRemaining <==> exists j :: 0 <= j < q && l1[j] != INVALID
      invariant anyRemaining ==> keep > DOUBLE_START
      invariant Trimmed(m0, o, LevelView(u.fs, inum, ino, l1), o', inum, KeepLevels(keep, q))
    {
      ghost var fs1, l1b, o1 := u.fs, l1, o';
      var remaining;
      var next;
      LevelShape(fs1, inum, ino, l1b, o1, q);
      next, remaining, o' := FreeLevel(u, inum, ino, l1, q, keep, o');
      changed := changed || next != l1;
      l1 := next;
      assert forall j :: 0 <= j < q ==> l1[j] == l1b[j];
      anyRemaining := anyRemaining || remaining;
      LevelShape(u.fs, inum, ino, l1, o', q);
      TrimmedTrans(m0, o, LevelView(fs1, inum, ino, l1b), o1, LevelView(u.fs, inum, ino, l1), o', inum,
                   KeepLevels(keep, q), KeepLevel(keep, q), KeepLevels(keep, q + 1));
    }
  }

  method FreeDouble(u: Ufs, inum: u32, ino: Inode, keep: nat, ghost o: Owner)
    returns (ino': Inode, dirty: bool, ghost o': Owner)
    requires u.Valid() && InOrder(u.fs, inum, ino, map[], o)
    modifies u`fs, u`sb, u.disk
    ensures u.Valid() && SameRest(old(u.fs), u.fs) && InOrder(u.fs, inum, ino', map[], o')
    ensures ino' == ino.(double := ino'.double) && (!dirty ==> ino' == ino)
    ensures Trimmed(MemView(old(u.fs), inum, ino, map[]), o, MemView(u.fs, inum, ino', map[]), o', inum,
            KeepDouble(keep))
  {
    hide Ufs.Valid, BlockWords, WordsBlock, Owned, Trimmed, SlotVal, Val, Counted, InOrder, InLevels, LevelView,
      MemView,
      NoPointers;
    ino', dirty, o' := ino, false, o;
    ghost var m0 := DoubleShape(u.fs, inum, ino, o, keep);
    if ino.double == INVALID {
      return;
    }
    var blk := u.ReadData(ino.double);
    EnterLevels(u.fs, inum, ino, o, blk);
    var l1, changed, anyL1;
    l1, changed, anyL1, o' := FreeLevels(u, inum, ino, BlockWords(blk), keep, o);
    LeaveLevels(u.fs, inum, ino, l1, o');
    Flush(u, inum, ino, map[], ino.double, l1, changed, o');
    ghost var m1, o1 := MemView(u.fs, inum, ino, map[]), o';
    DoubleVal(u.fs, inum, ino, o1);
    KeptEntries(m0, inum, keep);
    if !anyL1 && keep <= DOUBLE_START {
      TailEmpty(m1.data, ino.double, l1);
      ino', o' := FreePtr(u, inum, ino, Double, o');
      dirty := true;
      TrimmedOn(m0, o, m1, o1, inum, KeepLevels(keep, PTRS_PER_BLOCK), KeepDeep(keep));
      TrimmedTrans(m0, o, m1, o1, MemView(u.fs, inum, ino', map[]), o', inum,
                   KeepDeep(keep), t => t != Double, KeepDouble(keep));
    } else {
      TrimmedOn(m0, o, m1, o', inum, KeepLevels(keep, PTRS_PER_BLOCK), KeepDouble(keep));
    }
  }

  // ---- the whole ----

  function KeepNeeded(n: nat): Slot -> bool { (t: Slot) => Needed(t, n) }

  /** Afterwards inode inum owns exactly those of its blocks that a file of keep blocks needs;
      nothing of any other inode has changed. */
  method FreeInodeBlocksAfter(u: Ufs, inum: u32, ino: Inode, keep: nat, ghost o: Owner)
    returns (ino': Inode, ghost o': Owner)
    requires u.Valid() && Holding(u.fs, inum, ino, o)
    modifies u`fs, u`sb, u.disk
    ensures u.Valid() && Holding(u.fs, inum, ino', o')
    ensures ino' == ino.(direct := ino'.direct, single := ino'.single, double := ino'.double)
    ensures Trimmed(WithMem(old(u.fs), inum, ino), o, WithMem(u.fs, inum, ino'), o', inum, KeepNeeded(keep))
    ensures forall j :: 0 <= j < MAX_INODES && j != inum ==> u.fs.inodes[j] == old(u.fs).inodes[j]
    ensures ino' != ino ==> inum < |u.fs.inodes| && u.fs.inodes[inum] == ino'
  {
    hide Ufs.Valid, Owned, Trimmed, Val, Counted, InOrder, MemView, Holding;
    HoldingShape(u.fs, inum, ino, o);
    NoOverlay(u.fs, inum, ino, o);
    ghost var fs0, o0 := u.fs, o;
    InOrderShape(u.fs, inum, ino, map[], o);
    var ino1, d1, o1 := FreeDirect(u, inum, ino, keep, o);
    ghost var fs1 := u.fs;
    InOrderShape(u.fs, inum, ino1, map[], o1);
    var ino2, d2, o2 := FreeSingle(u, inum, ino1, keep, o1);
    ghost var fs2 := u.fs;
    InOrderShape(u.fs, inum, ino2, map[], o2);
    var ino3, d3, o3 := FreeDouble(u, inum, ino2, keep, o2);
    ino', o' := ino3, o3;
    NoOverlay(u.fs, inum, ino', o');
    HoldingShape(u.fs, inum, ino', o');
    TrimmedTrans(MemView(fs0, inum, ino, map[]), o, MemView(fs1, inum, ino1, map[]), o1,
      MemView(fs2, inum, ino2, map[]), o2,
                 inum, KeepDirect(keep, SINGLE_START), KeepSingle(keep), KeepTwo(keep));
    TrimmedTrans(MemView(fs0, inum, ino, map[]), o, MemView(fs2, inum, ino2, map[]), o2,
      MemView(u.fs, inum, ino', map[]), o',
                 inum, KeepTwo(keep), KeepDouble(keep), KeepNeeded(keep));
    if d1 || d2 || d3 {
      HoldingFlush(u.fs, inum, ino', o');
      var _ := u.WriteInode(inum, ino');
    }
  }

  function KeepTwo(n: nat): Slot -> bool {
    (t: Slot) => ((t.Leaf? && t.lb < DOUBLE_START) || t.Single?) ==> Needed(t, n)
  }

  /** Writing the caller's copy to disk does not change the caller's view. */
  lemma HoldingFlush(fs: Fs, inum: nat, ino: Inode, o: Owner)
    requires Holding(fs, inum, ino, o)
    ensures Holding(WithMem(fs, inum, ino), inum, ino, o)
    ensures WithMem(WithMem(fs, inum, ino), inum, ino) == WithMem(fs, inum, ino)
  {
    hide Owned, FreeSet, FreeInodes;
    assert WithMem(WithMem(fs, inum, ino), inum, ino) == WithMem(fs, inum, ino);
  }
}
