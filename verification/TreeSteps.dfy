/** Attaching and detaching blocks one pointer at a time, and what a whole growth or trim of an
    inode's tree amounts to (src/userfs_storage.c). */
module TreeSteps {
  import opened Layout
  import opened Encoding
  import opened Context
  import opened Allocator
  import opened Ownership

  /** The file system with the caller's in-memory copy of inode i, which may be ahead of the disk. */
  function WithMem(fs: Fs, i: nat, ino: Inode): Fs
    requires i < |fs.inodes|
  {
    fs.(inodes := fs.inodes[i := ino])
  }

  // ---- which slots a file of n blocks needs ----

  predicate Needed(s: Slot, n: nat) {
    match s
    case Leaf(lb) => lb < n
    case Single => n > SINGLE_START
    case Double => n > DOUBLE_START
    case Level(k) => n > DOUBLE_START + PTRS_PER_BLOCK * k
  }

  /** The pointers walked to reach logical block lb. */
  predicate OnPath(s: Slot, lb: nat) {
    match s
    case Leaf(l) => l == lb
    case Single => SINGLE_START <= lb < DOUBLE_START
    case Double => lb >= DOUBLE_START
    case Level(k) => lb >= DOUBLE_START && k == (lb - DOUBLE_START) / PTRS_PER_BLOCK
  }

  function Absent(fs: Fs, i: nat, s: Slot): nat
    requires i < |fs.inodes|
  {
    if Val(fs, i, s) == INVALID then 1 else 0
  }

  /** How many blocks must be allocated before logical block lb is present. */
  function Missing(fs: Fs, i: nat, lb: nat): nat
    requires i < |fs.inodes|
  {
    Absent(fs, i, Leaf(lb))
    + (if SINGLE_START <= lb < DOUBLE_START then Absent(fs, i, Single) else 0)
    + (if lb >= DOUBLE_START then
         Absent(fs, i, Double) + Absent(fs, i, Level((lb - DOUBLE_START) / PTRS_PER_BLOCK))
       else 0)
  }

  /** The bits of the reserved region are never touched. */
  ghost predicate ReservedSame(m: Fs, m': Fs)
    requires WellFormed(m) && WellFormed(m')
  {
    forall b :: 0 <= b < DATA_START ==> m'.bits[b] == m.bits[b]
  }

  // ---- growth ----

  /** From (m, o) to (m', o') inode i gained some pointers on the path to lb, one free block each,
      and nothing else changed. */
  ghost predicate Grown(m: Fs, o: Owner, m': Fs, o': Owner, i: nat, lb: nat) {
    && WellFormed(m) && WellFormed(m') && i < MAX_INODES
    && m'.ibits == m.ibits && m'.freeInodes == m.freeInodes && ReservedSame(m, m')
    && m'.inodes == m.inodes[i := m.inodes[i].(direct := m'.inodes[i].direct, single := m'.inodes[i].single,
                                              double := m'.inodes[i].double)]
    && (forall b :: b in o ==> b in o' && o'[b] == o[b])
    && (forall b :: b in o' && b !in o ==> o'[b].inum == i && OnPath(o'[b].slot, lb))
    && (forall b :: b in o && o[b].slot.Leaf? && InData(b) ==> m'.data[b] == m.data[b])
    && (forall b :: b in o' && b !in o && o'[b].slot.Leaf? && InData(b) ==> m'.data[b] == ZeroBlock())
    && m'.freeBlocks - Missing(m', i, lb) == m.freeBlocks - Missing(m, i, lb)
  }

  lemma GrownRefl(m: Fs, o: Owner, i: nat, lb: nat)
    requires WellFormed(m) && i < MAX_INODES
    ensures Grown(m, o, m, o, i, lb)
  {
    hide SlotVal, ZeroBlock, Missing;
  }

  lemma GrownTrans(m: Fs, o: Owner, m': Fs, o': Owner, m'': Fs, o'': Owner, i: nat, lb: nat)
    requires Grown(m, o, m', o', i, lb) && Grown(m', o', m'', o'', i, lb)
    ensures Grown(m, o, m'', o'', i, lb)
  {
    hide SlotVal, ZeroBlock, Missing, OnPath;
  }

  /** In slot terms: every pointer that was there is still there, and new ones are on the path. */
  lemma GrownSlots(m: Fs, o: Owner, m': Fs, o': Owner, i: nat, lb: nat)
    requires Grown(m, o, m', o', i, lb) && Owned(m, o) && Owned(m', o')
    ensures forall j: nat, t :: Allocated(m, j) && Val(m, j, t) != INVALID ==> Val(m', j, t) == Val(m, j, t)
    ensures forall j: nat, t :: Allocated(m, j) && Val(m', j, t) != Val(m, j, t) ==> j == i && OnPath(t, lb)
  {
    hide SlotVal, ZeroBlock, Missing, OnPath;
    forall j: nat, t | Allocated(m, j) && Val(m, j, t) != INVALID ensures Val(m', j, t) == Val(m, j, t) {
      var b := Val(m, j, t);
      assert o[b] == Claim(j, t) && o'[b] == Claim(j, t);
    }
    forall j: nat, t | Allocated(m, j) && Val(m', j, t) != Val(m, j, t) ensures j == i && OnPath(t, lb) {
      var b := Val(m', j, t);
      assert o'[b] == Claim(j, t);
    }
  }

  /** The file system after a pointer in the inode itself is given a new block. */
  function PtrAttached(m: Fs, i: nat, s: Slot, nb: u32): Fs
    requires InInode(s) && WellFormed(m) && i < MAX_INODES && InData(nb) && m.freeBlocks > 0
  {
    var t := Taken(m, nb);
    t.(inodes := t.inodes[i := SetPtr(t.inodes[i], s, nb)],
       data := if s.Leaf? then t.data else t.data[nb := InvalidBlock()])
  }

  lemma AttachPtr(m: Fs, o: Owner, i: nat, s: Slot, nb: u32, lb: nat)
    requires Owned(m, o) && Allocated(m, i) && InInode(s) && OnPath(s, lb)
    requires Val(m, i, s) == INVALID && InData(nb) && !m.bits[nb] && m.freeBlocks > 0
    ensures var m' := PtrAttached(m, i, s, nb); var o' := o[nb := Claim(i, s)];
            Owned(m', o') && Grown(m, o, m', o', i, lb) && Val(m', i, s) == nb
  {
    hide SlotVal, ZeroBlock, BlockWords, InvalidBlock, Owned, Grown, SlotSet, OnPath;
    OwnedBits(m, o);
    PtrOwned(m, o, i, s);
    var m', o' := PtrAttached(m, i, s, nb), o[nb := Claim(i, s)];
    forall k | 0 <= k < PTRS_PER_BLOCK ensures WordAt(m.data, INVALID, k) == INVALID {
    }
    if !s.Leaf? {
      forall k | 0 <= k < PTRS_PER_BLOCK ensures WordAt(m'.data, nb, k) == INVALID {
        InvalidWords(k);
      }
    }
    InodeSlotSet(m, o, m', i, s, nb);
    OwnedAdd(m, o, m', i, s, nb);
    NewVal(m, m', i, s, nb);
    GrownOne(m, o, m', i, s, nb, lb);
  }

  lemma NewVal(m: Fs, m': Fs, i: nat, s: Slot, v: u32)
    requires SlotSet(m, m', i, s, v) && Allocated(m, i)
    ensures Val(m', i, s) == v
  {
    hide SlotVal;
  }

  /** One new pointer on the path is a growth. */
  lemma GrownOne(m: Fs, o: Owner, m': Fs, i: nat, s: Slot, nb: u32, lb: nat)
    requires Owned(m, o) && Allocated(m, i) && SlotSet(m, m', i, s, nb) && OnPath(s, lb)
    requires Val(m, i, s) == INVALID && InData(nb) && !m.bits[nb] && m.freeBlocks > 0
    requires m'.freeInodes == m.freeInodes && m'.freeBlocks == m.freeBlocks - 1 && ReservedSame(m, m')
    requires m'.inodes == m.inodes[i := m.inodes[i].(direct := m'.inodes[i].direct, single := m'.inodes[i].single,
                                                    double := m'.inodes[i].double)]
    requires forall b :: b in o && o[b].slot.Leaf? ==> m'.data[b] == m.data[b]
    requires s.Leaf? ==> m'.data[nb] == ZeroBlock()
    ensures Grown(m, o, m', o[nb := Claim(i, s)], i, lb)
  {
    hide SlotVal, ZeroBlock, Missing, OnPath;
    MissingSet(m, m', i, s, nb, lb);
  }

  /** Filling an absent slot on the path takes one off what is missing. */
  lemma MissingSet(m: Fs, m': Fs, i: nat, s: Slot, nb: u32, lb: nat)
    requires SlotSet(m, m', i, s, nb) && Allocated(m, i) && Val(m, i, s) == INVALID && nb != INVALID
    requires OnPath(s, lb)
    ensures Missing(m', i, lb) == Missing(m, i, lb) - 1
  {
    hide SlotVal;
    assert Val(m', i, Leaf(lb)) == if s == Leaf(lb) then nb else Val(m, i, Leaf(lb));
    assert Val(m', i, Single) == if s == Single then nb else Val(m, i, Single);
    assert Val(m', i, Double) == if s == Double then nb else Val(m, i, Double);
    if lb >= DOUBLE_START {
      var q := Level((lb - DOUBLE_START) / PTRS_PER_BLOCK);
      assert Val(m', i, q) == if s == q then nb else Val(m, i, q);
    }
  }

  /** The file system after word k of pointer block pb is given a new block; a new second-level
      pointer block starts with no pointers. */
  function ChildAttached(m: Fs, pb: u32, k: nat, nb: u32, level: bool): Fs
    requires WellFormed(m) && InData(pb) && InData(nb) && k < PTRS_PER_BLOCK && m.freeBlocks > 0
  {
    var t := Taken(m, nb);
    var d := if level then t.data[nb := InvalidBlock()] else t.data;
    t.(data := d[pb := WordsBlock(BlockWords(m.data[pb])[k := nb])])
  }

  lemma AttachChild(m: Fs, o: Owner, i: nat, p: Slot, k: nat, nb: u32, lb: nat)
    requires Owned(m, o) && Allocated(m, i) && !p.Leaf? && k < PTRS_PER_BLOCK && (p.Level? ==> p.k < PTRS_PER_BLOCK)
    requires OnPath(Child(p, k), lb) && Val(m, i, p) != INVALID
    requires Val(m, i, Child(p, k)) == INVALID && InData(nb) && !m.bits[nb] && m.freeBlocks > 0
    ensures InData(Val(m, i, p))
    ensures var m' := ChildAttached(m, Val(m, i, p), k, nb, p.Double?); var o' := o[nb := Claim(i, Child(p, k))];
            Owned(m', o') && Grown(m, o, m', o', i, lb) && Val(m', i, Child(p, k)) == nb
  {
    hide SlotVal, ZeroBlock, BlockWords, WordsBlock, InvalidBlock, OnPath, Owned, Grown, SlotSet;
    OwnedBits(m, o);
    PtrOwned(m, o, i, p);
    var pb, s := Val(m, i, p), Child(p, k);
    var m', o' := ChildAttached(m, pb, k, nb, p.Double?), o[nb := Claim(i, s)];
    BlockWordsRoundTrip(BlockWords(m.data[pb])[k := nb]);
    if p.Double? {
      forall x | 0 <= x < PTRS_PER_BLOCK
        ensures WordAt(m.data, INVALID, x) == INVALID && WordAt(m'.data, nb, x) == INVALID
      {
        InvalidWords(x);
      }
    }
    BlockSlotSet(m, o, m', i, p, k, nb);
    OwnedAdd(m, o, m', i, s, nb);
    NewVal(m, m', i, s, nb);
    assert m.inodes[i := m.inodes[i].(direct := m.inodes[i].direct)] == m.inodes;
    GrownOne(m, o, m', i, s, nb, lb);
  }

  // ---- trimming ----

  /** From (m, o) to (m', o') inode i lost exactly the slots in which keep is false. */
  ghost predicate Trimmed(m: Fs, o: Owner, m': Fs, o': Owner, i: nat, keep: Slot -> bool) {
    && WellFormed(m) && WellFormed(m') && i < MAX_INODES
    && m'.ibits == m.ibits && m'.freeInodes == m.freeInodes && ReservedSame(m, m')
    && m'.inodes == m.inodes[i := m.inodes[i].(direct := m'.inodes[i].direct, single := m'.inodes[i].single,
                                              double := m'.inodes[i].double)]
    && (forall b :: b in o' <==> b in o && (o[b].inum == i ==> keep(o[b].slot)))
    && (forall b :: b in o' ==> o'[b] == o[b])
    && (forall b :: b in o' && o[b].slot.Leaf? && InData(b) ==> m'.data[b] == m.data[b])
  }

  lemma TrimmedRefl(m: Fs, o: Owner, i: nat, keep: Slot -> bool)
    requires WellFormed(m) && i < MAX_INODES && forall b :: b in o && o[b].inum == i ==> keep(o[b].slot)
    ensures Trimmed(m, o, m, o, i, keep)
  {
    assert m.inodes[i := m.inodes[i].(direct := m.inodes[i].direct)] == m.inodes;
  }

  lemma TrimmedTrans(m: Fs, o: Owner, m': Fs, o': Owner, m'': Fs, o'': Owner, i: nat, k1: Slot -> bool,
      k2: Slot -> bool,
                     k3: Slot -> bool)
    requires Trimmed(m, o, m', o', i, k1) && Trimmed(m', o', m'', o'', i, k2)
    requires forall s :: k3(s) <==> k1(s) && k2(s)
    ensures Trimmed(m, o, m'', o'', i, k3)
  {
  }

  /** Dropping one block is a trim. */
  lemma TrimmedOne(m: Fs, o: Owner, m': Fs, i: nat, s: Slot)
    requires Owned(m, o) && Allocated(m, i) && Val(m, i, s) != INVALID && i < MAX_INODES
    requires WellFormed(m') && m'.ibits == m.ibits && m'.freeInodes == m.freeInodes
    requires WellFormed(m) && ReservedSame(m, m')
    requires m'.inodes == m.inodes[i := m.inodes[i].(direct := m'.inodes[i].direct, single := m'.inodes[i].single,
                                                    double := m'.inodes[i].double)]
    requires forall b :: b in o && o[b].slot.Leaf? ==> m'.data[b] == m.data[b]
    ensures Trimmed(m, o, m', o - {Val(m, i, s) as nat}, i, t => t != s)
  {
    hide SlotVal;
    forall b | b in o && o[b] == Claim(i, s) ensures b == Val(m, i, s) {
    }
  }

  function PtrDetached(m: Fs, i: nat, s: Slot): Fs
    requires InInode(s) && WellFormed(m) && i < MAX_INODES && Val(m, i, s) < TOTAL_BLOCKS && m.freeBlocks < DATA_BLOCKS
  {
    var t := Released(m, Val(m, i, s));
    t.(inodes := t.inodes[i := SetPtr(t.inodes[i], s, INVALID)])
  }

  /** Freeing the block of a pointer in the inode; a pointer block must be empty by then. */
  lemma DetachPtr(m: Fs, o: Owner, i: nat, s: Slot)
    requires Owned(m, o) && Allocated(m, i) && InInode(s) && Val(m, i, s) != INVALID && m.freeBlocks < DATA_BLOCKS
    requires !s.Leaf? ==> NoPointers(m.data, Val(m, i, s))
    ensures InData(Val(m, i, s))
    ensures var m' := PtrDetached(m, i, s); var o' := o - {Val(m, i, s) as nat};
            Owned(m', o') && Trimmed(m, o, m', o', i, t => t != s) && SlotSet(m, m', i, s, INVALID)
  {
    hide SlotVal, BlockWords, Owned, SlotSet, Trimmed;
    OwnedBits(m, o);
    PtrOwned(m, o, i, s);
    var m', o' := PtrDetached(m, i, s), o - {Val(m, i, s) as nat};
    forall k | 0 <= k < PTRS_PER_BLOCK ensures WordAt(m'.data, INVALID, k) == INVALID {
    }
    InodeSlotSet(m, o, m', i, s, INVALID);
    OwnedDrop(m, o, m', i, s);
    TrimmedOne(m, o, m', i, s);
  }

  /** The file system after word k of pointer block pb is cleared and its block freed. */
  function ChildDetached(m: Fs, pb: u32, k: nat): Fs
    requires WellFormed(m) && InData(pb) && k < PTRS_PER_BLOCK
    requires BlockWords(m.data[pb])[k] < TOTAL_BLOCKS && m.freeBlocks < DATA_BLOCKS
  {
    var t := Released(m, BlockWords(m.data[pb])[k]);
    t.(data := t.data[pb := WordsBlock(BlockWords(m.data[pb])[k := INVALID])])
  }

  lemma DetachChild(m: Fs, o: Owner, i: nat, p: Slot, k: nat)
    requires Owned(m, o) && Allocated(m, i) && !p.Leaf? && k < PTRS_PER_BLOCK && (p.Level? ==> p.k < PTRS_PER_BLOCK)
    requires Val(m, i, p) != INVALID && Val(m, i, Child(p, k)) != INVALID && m.freeBlocks < DATA_BLOCKS
    requires p.Double? ==> NoPointers(m.data, Val(m, i, Level(k)))
    ensures InData(Val(m, i, p)) && BlockWords(m.data[Val(m, i, p)])[k] == Val(m, i, Child(p, k)) < TOTAL_BLOCKS
    ensures var m' := ChildDetached(m, Val(m, i, p), k); var o' := o - {Val(m, i, Child(p, k)) as nat};
            && Owned(m', o') && Trimmed(m, o, m', o', i, t => t != Child(p, k))
            && SlotSet(m, m', i, Child(p, k), INVALID)
  {
    hide SlotVal, BlockWords, WordsBlock, Owned, SlotSet, Trimmed;
    OwnedBits(m, o);
    PtrOwned(m, o, i, p);
    PtrOwned(m, o, i, Child(p, k));
    ChildVal(m.data, m.inodes[i], p, k);
    var pb, s := Val(m, i, p), Child(p, k);
    var m', o' := ChildDetached(m, pb, k), o - {Val(m, i, s) as nat};
    BlockWordsRoundTrip(BlockWords(m.data[pb])[k := INVALID]);
    if p.Double? {
      forall x | 0 <= x < PTRS_PER_BLOCK ensures WordAt(m'.data, INVALID, x) == INVALID {
      }
    }
    BlockSlotSet(m, o, m', i, p, k, INVALID);
    OwnedDrop(m, o, m', i, s);
    assert m.inodes[i := m.inodes[i].(direct := m.inodes[i].direct)] == m.inodes;
    TrimmedOne(m, o, m', i, s);
  }
}
