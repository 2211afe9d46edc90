/** The pointer tree of an inode and who owns which block (src/userfs_storage.c).
    A slot names one pointer of one inode; owner maps every allocated data-region block
    to the one slot that holds it. */
module Ownership {
  import opened Layout
  import opened Encoding
  import opened Context

  const SINGLE_START: nat := 8
  const DOUBLE_START: nat := 136

  datatype Slot = Leaf(lb: nat) | Single | Double | Level(k: nat)

  datatype Claim = Claim(inum: nat, slot: Slot)

  type Owner = map<nat, Claim>
  type Data = map<nat, Block>

  // ---- reading the tree ----

  /** Word k of pointer block b; INVALID for an absent block. */
  function WordAt(data: Data, b: u32, k: nat): u32
    requires k < PTRS_PER_BLOCK
  {
    if b in data then BlockWords(data[b])[k] else INVALID
  }

  function LevelVal(data: Data, ino: Inode, k: nat): u32 {
    if k < PTRS_PER_BLOCK then WordAt(data, ino.double, k) else INVALID
  }

  /** The pointer stored in a slot. */
  function SlotVal(data: Data, ino: Inode, s: Slot): u32 {
    match s
    case Single => ino.single
    case Double => ino.double
    case Level(k) => LevelVal(data, ino, k)
    case Leaf(lb) =>
      if lb < SINGLE_START then ino.direct[lb]
      else if lb < DOUBLE_START then WordAt(data, ino.single, lb - SINGLE_START)
      else if lb < MAX_FILE_BLOCKS then
        WordAt(data, LevelVal(data, ino, (lb - DOUBLE_START) / PTRS_PER_BLOCK), (lb - DOUBLE_START) % PTRS_PER_BLOCK)
      else INVALID
  }

  function Val(fs: Fs, i: nat, s: Slot): u32
    requires i < |fs.inodes|
  {
    SlotVal(fs.data, fs.inodes[i], s)
  }

  /** The slot whose pointer is word k of the block in pointer slot p. */
  function Child(p: Slot, k: nat): Slot
    requires !p.Leaf?
  {
    match p
    case Single => Leaf(SINGLE_START + k)
    case Double => Level(k)
    case Level(q) => Leaf(DOUBLE_START + PTRS_PER_BLOCK * q + k)
  }

  lemma ChildVal(data: Data, ino: Inode, p: Slot, k: nat)
    requires !p.Leaf? && k < PTRS_PER_BLOCK && (p.Level? ==> p.k < PTRS_PER_BLOCK)
    ensures SlotVal(data, ino, Child(p, k)) == WordAt(data, SlotVal(data, ino, p), k)
  {
    hide BlockWords;
    if p.Level? {
      var lb := PTRS_PER_BLOCK * p.k + k;
      assert lb / PTRS_PER_BLOCK == p.k && lb % PTRS_PER_BLOCK == k;
    }
  }

  // ---- exclusive ownership ----

  ghost predicate Allocated(fs: Fs, i: nat) { i < |fs.ibits| && i < |fs.inodes| && fs.ibits[i] }

  /** Every set data-region bit belongs to exactly one slot of one allocated inode, and every
      pointer of an allocated inode names a block it owns. */
  ghost predicate Owned(fs: Fs, owner: Owner) {
    && WellFormed(fs)
    && (forall b: nat :: b in owner <==> InData(b) && fs.bits[b])
    && (forall b :: b in owner ==> Allocated(fs, owner[b].inum) && Val(fs, owner[b].inum, owner[b].slot) == b)
    && (forall i: nat, s :: Allocated(fs, i) && Val(fs, i, s) != INVALID ==>
          Val(fs, i, s) in owner && owner[Val(fs, i, s)] == Claim(i, s))
  }

  /** No two slots hold the same block. */
  lemma Exclusive(fs: Fs, owner: Owner, i: nat, s: Slot, j: nat, t: Slot)
    requires Owned(fs, owner) && Allocated(fs, i) && Allocated(fs, j)
    requires Val(fs, i, s) == Val(fs, j, t) != INVALID
    ensures i == j && s == t
    ensures InData(Val(fs, i, s)) && fs.bits[Val(fs, i, s)]
  {
    hide SlotVal;
  }

  /** The owner map is determined by the disk: there is only one. */
  lemma OwnerUnique(fs: Fs, owner: Owner, owner': Owner)
    requires Owned(fs, owner) && Owned(fs, owner')
    ensures owner == owner'
  {
    hide SlotVal;
    assert owner.Keys == owner'.Keys;
    forall b | b in owner ensures owner[b] == owner'[b] {
      assert Val(fs, owner[b].inum, owner[b].slot) == b;
    }
  }

  lemma OwnedBits(m: Fs, o: Owner)
    requires Owned(m, o)
    ensures WellFormed(m) && forall b: nat :: b in o <==> InData(b) && m.bits[b]
  {
    hide SlotVal;
  }

  lemma OwnerVal(m: Fs, o: Owner, b: nat)
    requires Owned(m, o) && b in o
    ensures Allocated(m, o[b].inum) && o[b].inum < |m.inodes| && Val(m, o[b].inum, o[b].slot) == b
    ensures InData(b)
  {
    hide SlotVal;
  }

  lemma PtrOwned(fs: Fs, owner: Owner, i: nat, s: Slot)
    requires Owned(fs, owner) && Allocated(fs, i)
    ensures Val(fs, i, s) == INVALID || (Val(fs, i, s) in owner && owner[Val(fs, i, s)] == Claim(i, s))
    ensures InData(Val(fs, i, s)) <==> Val(fs, i, s) != INVALID
  {
    hide SlotVal;
  }

  // ---- frames ----

  ghost predicate SamePointers(a: Inode, b: Inode) {
    a.direct == b.direct && a.single == b.single && a.double == b.double
  }

  /** The pointers of inode j depend only on its inode and on the pointer blocks it owns. */
  lemma ValFrame(fs: Fs, owner: Owner, fs': Fs, j: nat)
    requires Owned(fs, owner) && Allocated(fs, j) && WellFormed(fs')
    requires SamePointers(fs'.inodes[j], fs.inodes[j])
    requires forall b :: b in owner && owner[b].inum == j && !owner[b].slot.Leaf? ==> fs'.data[b] == fs.data[b]
    ensures forall s :: Val(fs', j, s) == Val(fs, j, s)
  {
    hide BlockWords;
    PtrOwned(fs, owner, j, Single);
    PtrOwned(fs, owner, j, Double);
    forall k: nat ensures Val(fs', j, Level(k)) == Val(fs, j, Level(k)) {
      PtrOwned(fs, owner, j, Level(k));
    }
    forall s ensures Val(fs', j, s) == Val(fs, j, s) {
      if s.Leaf? && s.lb >= DOUBLE_START {
        PtrOwned(fs, owner, j, Level((s.lb - DOUBLE_START) / PTRS_PER_BLOCK));
      }
    }
  }

  // ---- one step of growth or shrinkage, seen through the slots ----

  /** fs' has value v in slot (i, s) and the slots of fs elsewhere. */
  ghost predicate SlotSet(fs: Fs, fs': Fs, i: nat, s: Slot, v: u32) {
    && WellFormed(fs) && WellFormed(fs') && fs'.ibits == fs.ibits
    && forall j: nat, t :: Allocated(fs, j) ==> Val(fs', j, t) == if j == i && t == s then v else Val(fs, j, t)
  }

  lemma OwnedAdd(fs: Fs, owner: Owner, fs': Fs, i: nat, s: Slot, nb: u32)
    requires Owned(fs, owner) && Allocated(fs, i) && InData(nb) && !fs.bits[nb]
    requires SlotSet(fs, fs', i, s, nb) && Val(fs, i, s) == INVALID && fs'.bits == fs.bits[nb := true]
    ensures Owned(fs', owner[nb := Claim(i, s)]) && nb !in owner
  {
    hide SlotVal;
    var owner' := owner[nb := Claim(i, s)];
    forall j: nat, t | Allocated(fs', j) && Val(fs', j, t) != INVALID
      ensures Val(fs', j, t) in owner' && owner'[Val(fs', j, t)] == Claim(j, t)
    {
      if j != i || t != s {
        assert Val(fs', j, t) == Val(fs, j, t);
      }
    }
    forall b | b in owner' ensures Allocated(fs', owner'[b].inum) && Val(fs', owner'[b].inum, owner'[b].slot) == b {
      if b != nb {
        assert Val(fs, owner[b].inum, owner[b].slot) == b;
      }
    }
  }

  lemma OwnedDrop(fs: Fs, owner: Owner, fs': Fs, i: nat, s: Slot)
    requires Owned(fs, owner) && Allocated(fs, i) && Val(fs, i, s) != INVALID
    requires SlotSet(fs, fs', i, s, INVALID) && fs'.bits == fs.bits[Val(fs, i, s) := false]
    ensures Owned(fs', owner - {Val(fs, i, s) as nat})
  {
    hide SlotVal;
    var w: nat := Val(fs, i, s);
    var owner' := owner - {w};
    forall j: nat, t | Allocated(fs', j) && Val(fs', j, t) != INVALID
      ensures Val(fs', j, t) in owner' && owner'[Val(fs', j, t)] == Claim(j, t)
    {
      assert Val(fs', j, t) == Val(fs, j, t);
    }
    forall b | b in owner' ensures Allocated(fs', owner'[b].inum) && Val(fs', owner'[b].inum, owner'[b].slot) == b {
      assert Val(fs, owner[b].inum, owner[b].slot) == b;
    }
  }

  /** Nothing the slots depend on has changed. */
  lemma OwnedKeep(fs: Fs, owner: Owner, fs': Fs)
    requires Owned(fs, owner) && WellFormed(fs') && fs'.bits == fs.bits && fs'.ibits == fs.ibits
    requires forall j: nat :: Allocated(fs, j) ==> SamePointers(fs'.inodes[j], fs.inodes[j])
    requires forall b :: b in owner && !owner[b].slot.Leaf? ==> fs'.data[b] == fs.data[b]
    ensures Owned(fs', owner)
    ensures forall j: nat, s :: Allocated(fs, j) ==> Val(fs', j, s) == Val(fs, j, s)
  {
    hide SlotVal;
    forall j: nat | Allocated(fs, j) ensures forall s :: Val(fs', j, s) == Val(fs, j, s) {
      ValFrame(fs, owner, fs', j);
    }
    forall b | b in owner ensures Allocated(fs', owner[b].inum) && Val(fs', owner[b].inum, owner[b].slot) == b {
      assert Val(fs, owner[b].inum, owner[b].slot) == b;
    }
    forall j: nat, s | Allocated(fs', j) && Val(fs', j, s) != INVALID
      ensures Val(fs', j, s) in owner && owner[Val(fs', j, s)] == Claim(j, s)
    {
      assert Val(fs', j, s) == Val(fs, j, s);
    }
  }

  // ---- pointers in the inode itself ----

  predicate InInode(s: Slot) { s.Single? || s.Double? || (s.Leaf? && s.lb < SINGLE_START) }

  function SetPtr(ino: Inode, s: Slot, v: u32): Inode
    requires InInode(s)
  {
    match s
    case Single => ino.(single := v)
    case Double => ino.(double := v)
    case Leaf(lb) => ino.(direct := ino.direct[lb := v])
  }

  function InvalidBlock(): Block { WordsBlock(seq(PTRS_PER_BLOCK, _ => INVALID)) }

  lemma InvalidWords(k: nat)
    requires k < PTRS_PER_BLOCK
    ensures BlockWords(InvalidBlock())[k] == INVALID
  {
    hide BlockWords, WordsBlock;
    BlockWordsRoundTrip(seq(PTRS_PER_BLOCK, _ => INVALID));
  }

  /** No word of block b is a pointer (or b is absent). */
  ghost predicate NoPointers(data: Data, b: u32) {
    forall k :: 0 <= k < PTRS_PER_BLOCK ==> WordAt(data, b, k) == INVALID
  }

  /** Setting or clearing a pointer of the inode. Pointer blocks gained or lost must be empty. */
  lemma InodeSlotSet(fs: Fs, owner: Owner, fs': Fs, i: nat, s: Slot, v: u32)
    requires Owned(fs, owner) && Allocated(fs, i) && InInode(s) && WellFormed(fs') && fs'.ibits == fs.ibits
    requires fs'.inodes == fs.inodes[i := SetPtr(fs.inodes[i], s, v)]
    requires forall b :: b in owner && !owner[b].slot.Leaf? ==> fs'.data[b] == fs.data[b]
    requires !s.Leaf? ==> NoPointers(fs.data, Val(fs, i, s)) && NoPointers(fs'.data, v)
    ensures SlotSet(fs, fs', i, s, v)
  {
    hide BlockWords;
    forall j: nat, t | Allocated(fs, j)
      ensures Val(fs', j, t) == if j == i && t == s then v else Val(fs, j, t)
    {
      if j != i {
        ValFrame(fs, owner, fs', j);
      } else {
        OtherSlots(fs, owner, fs', i, s, v, t);
      }
    }
  }

  lemma OtherSlots(fs: Fs, owner: Owner, fs': Fs, i: nat, s: Slot, v: u32, t: Slot)
    requires Owned(fs, owner) && Allocated(fs, i) && InInode(s) && WellFormed(fs')
    requires fs'.inodes[i] == SetPtr(fs.inodes[i], s, v)
    requires forall b :: b in owner && !owner[b].slot.Leaf? ==> fs'.data[b] == fs.data[b]
    requires !s.Leaf? ==> NoPointers(fs.data, Val(fs, i, s)) && NoPointers(fs'.data, v)
    ensures Val(fs', i, t) == if t == s then v else Val(fs, i, t)
  {
    hide BlockWords;
    PtrOwned(fs, owner, i, Single);
    PtrOwned(fs, owner, i, Double);
    match t
    case Single => {}
    case Double => {}
    case Level(k) => {}
    case Leaf(lb) => {
      if DOUBLE_START <= lb < MAX_FILE_BLOCKS {
        var k := (lb - DOUBLE_START) / PTRS_PER_BLOCK;
        PtrOwned(fs, owner, i, Level(k));
        assert Val(fs', i, Level(k)) == Val(fs, i, Level(k));
      }
    }
  }

  // ---- pointers in pointer blocks ----

  /** Rewriting one word of an owned pointer block sets one slot. */
  lemma BlockSlotSet(fs: Fs, owner: Owner, fs': Fs, i: nat, p: Slot, k: nat, v: u32)
    requires Owned(fs, owner) && Allocated(fs, i) && !p.Leaf? && Val(fs, i, p) != INVALID && k < PTRS_PER_BLOCK
    requires WellFormed(fs') && fs'.ibits == fs.ibits && fs'.inodes == fs.inodes
    requires forall b :: b in owner && !owner[b].slot.Leaf? && b != Val(fs, i, p) ==> fs'.data[b] == fs.data[b]
    requires BlockWords(fs'.data[Val(fs, i, p)]) == BlockWords(fs.data[Val(fs, i, p)])[k := v]
    requires p.Double? ==> NoPointers(fs.data, Val(fs, i, Level(k))) && NoPointers(fs'.data, v)
    ensures SlotSet(fs, fs', i, Child(p, k), v)
  {
    hide BlockWords;
    PtrOwned(fs, owner, i, p);
    forall j: nat, t | Allocated(fs, j)
      ensures Val(fs', j, t) == if j == i && t == Child(p, k) then v else Val(fs, j, t)
    {
      if j != i {
        ValFrame(fs, owner, fs', j);
      } else {
        OtherBlockSlots(fs, owner, fs', i, p, k, v, t);
      }
    }
  }

  lemma OtherBlockSlots(fs: Fs, owner: Owner, fs': Fs, i: nat, p: Slot, k: nat, v: u32, t: Slot)
    requires Owned(fs, owner) && Allocated(fs, i) && !p.Leaf? && Val(fs, i, p) != INVALID && k < PTRS_PER_BLOCK
    requires WellFormed(fs') && fs'.inodes == fs.inodes
    requires forall b :: b in owner && !owner[b].slot.Leaf? && b != Val(fs, i, p) ==> fs'.data[b] == fs.data[b]
    requires InData(Val(fs, i, p))
    requires BlockWords(fs'.data[Val(fs, i, p)]) == BlockWords(fs.data[Val(fs, i, p)])[k := v]
    requires p.Double? ==> NoPointers(fs.data, Val(fs, i, Level(k))) && NoPointers(fs'.data, v)
    ensures Val(fs', i, t) == if t == Child(p, k) then v else Val(fs, i, t)
  {
    hide BlockWords;
    PtrOwned(fs, owner, i, p);
    PtrOwned(fs, owner, i, Single);
    PtrOwned(fs, owner, i, Double);
    if t.Leaf? && DOUBLE_START <= t.lb < MAX_FILE_BLOCKS {
      var q := (t.lb - DOUBLE_START) / PTRS_PER_BLOCK;
      assert Val(fs', i, Level(q)) == if p.Double? && q == k then v else Val(fs, i, Level(q));
      DeepLeaf(fs, owner, fs', i, p, k, v, t.lb);
    }
  }

  lemma DeepLeaf(fs: Fs, owner: Owner, fs': Fs, i: nat, p: Slot, k: nat, v: u32, lb: nat)
    requires Owned(fs, owner) && Allocated(fs, i) && !p.Leaf? && Val(fs, i, p) != INVALID && k < PTRS_PER_BLOCK
    requires WellFormed(fs') && fs'.inodes == fs.inodes && DOUBLE_START <= lb < MAX_FILE_BLOCKS
    requires forall b :: b in owner && !owner[b].slot.Leaf? && b != Val(fs, i, p) ==> fs'.data[b] == fs.data[b]
    requires InData(Val(fs, i, p)) && BlockWords(fs'.data[Val(fs, i, p)]) == BlockWords(fs.data[Val(fs, i, p)])[k := v]
    requires p.Double? ==> NoPointers(fs.data, Val(fs, i, Level(k))) && NoPointers(fs'.data, v)
    requires var q := (lb - DOUBLE_START) / PTRS_PER_BLOCK;
             Val(fs', i, Level(q)) == if p.Double? && q == k then v else Val(fs, i, Level(q))
    ensures Val(fs', i, Leaf(lb)) == if Leaf(lb) == Child(p, k) then v else Val(fs, i, Leaf(lb))
  {
    hide BlockWords, LevelVal;
    var q, x := (lb - DOUBLE_START) / PTRS_PER_BLOCK, (lb - DOUBLE_START) % PTRS_PER_BLOCK;
    PtrOwned(fs, owner, i, p);
    PtrOwned(fs, owner, i, Level(q));
    assert Val(fs, i, Leaf(lb)) == WordAt(fs.data, Val(fs, i, Level(q)), x);
    assert Val(fs', i, Leaf(lb)) == WordAt(fs'.data, Val(fs', i, Level(q)), x);
  }
}
