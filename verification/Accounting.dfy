/** Exact accounting: where every data-region block is (src/userfs_storage.c). */
module Accounting {
  import opened Layout
  import opened Context
  import opened Allocator
  import opened Ownership
  import opened TreeSteps
  import opened FileContent

  /** Block n is the first one below a second-level pointer block. */
  predicate OpensLevel(n: nat) { n >= DOUBLE_START && (n - DOUBLE_START) % PTRS_PER_BLOCK == 0 }

  /** The slots that block n adds. */
  ghost function NewSlots(n: nat): set<Slot> {
    {Leaf(n)}
    + (if n == SINGLE_START then {Single} else {})
    + (if n == DOUBLE_START then {Double} else {})
    + (if OpensLevel(n) then {Level((n - DOUBLE_START) / PTRS_PER_BLOCK)} else {})
  }

  /** The slots a file of n blocks needs, as a set. */
  ghost function NeededSlots(n: nat): set<Slot> {
    if n == 0 then {} else NeededSlots(n - 1) + NewSlots(n - 1)
  }

  lemma NewSlotsAre(n: nat)
    ensures forall s :: s in NewSlots(n) <==> Needed(s, n + 1) && !Needed(s, n)
  {
  }

  /** What the next block costs. */
  function NextCost(n: nat): nat {
    1 + (if n == SINGLE_START then 1 else 0) + (if n == DOUBLE_START then 1 else 0) + (if OpensLevel(n) then 1 else 0)
  }

  lemma OptionalSlot(a: set<Slot>, s: Slot, there: bool)
    requires s !in a
    ensures |a + (if there then {s} else {})| == |a| + (if there then 1 else 0)
  {
    if !there {
      assert a + {} == a;
    }
  }

  lemma NewSlotsCount(n: nat)
    ensures |NewSlots(n)| == NextCost(n)
  {
    hide OpensLevel;
    var a: set<Slot> := {Leaf(n)};
    var b := a + (if n == SINGLE_START then {Single} else {});
    var c := b + (if n == DOUBLE_START then {Double} else {});
    OptionalSlot(a, Single, n == SINGLE_START);
    OptionalSlot(b, Double, n == DOUBLE_START);
    if OpensLevel(n) {
      LevelStart(n);
      OptionalSlot(c, Level((n - DOUBLE_START) / PTRS_PER_BLOCK), true);
    } else {
      assert c + {} == c;
    }
  }

  lemma LevelStart(n: nat)
    ensures OpensLevel(n) ==> n >= DOUBLE_START
  {
  }

  lemma NextCostIs(n: nat)
    ensures Cost(n + 1) == Cost(n) + NextCost(n)
  {
    if n >= DOUBLE_START {
      var q, r := (n - DOUBLE_START) / PTRS_PER_BLOCK, (n - DOUBLE_START) % PTRS_PER_BLOCK;
      assert n - DOUBLE_START == PTRS_PER_BLOCK * q + r;
      if n > DOUBLE_START {
        assert CeilDiv(n - DOUBLE_START, PTRS_PER_BLOCK) == if r == 0 then q else q + 1;
      }
      assert CeilDiv(n + 1 - DOUBLE_START, PTRS_PER_BLOCK) == q + 1;
    }
  }

  lemma NewSlotsSize(n: nat)
    ensures |NewSlots(n)| == Cost(n + 1) - Cost(n)
  {
    hide NewSlots, Cost, NextCost;
    NewSlotsCount(n);
    NextCostIs(n);
  }

  lemma OneMoreBlock(a: set<Slot>, n: nat)
    requires |a| == Cost(n) && forall s :: s in a <==> Needed(s, n)
    ensures |a + NewSlots(n)| == Cost(n + 1)
    ensures forall s :: s in a + NewSlots(n) <==> Needed(s, n + 1)
  {
    hide Needed, Cost, NewSlots;
    NewSlotsAre(n);
    NewSlotsSize(n);
    DisjointSize(a, NewSlots(n));
    forall s ensures s in a + NewSlots(n) <==> Needed(s, n + 1) {
      StillNeeded(s, n, n + 1);
    }
  }

  lemma {:induction false} NeededSlotsAre(n: nat)
    ensures forall s :: s in NeededSlots(n) <==> Needed(s, n)
    ensures |NeededSlots(n)| == Cost(n)
  {
    hide Needed, Cost, NewSlots;
    if n == 0 {
      NoBlocksNeeded();
    } else {
      NeededSlotsAre(n - 1);
      OneMoreBlock(NeededSlots(n - 1), n - 1);
    }
  }

  lemma NoBlocksNeeded()
    ensures Cost(0) == 0 && forall s :: !Needed(s, 0)
  {
  }

  lemma DisjointSize<T>(a: set<T>, b: set<T>)
    requires a !! b
    ensures |a + b| == |a| + |b|
  {
  }

  ghost predicate Injective(m: map<nat, Slot>) { forall a, b :: a in m && b in m && m[a] == m[b] ==> a == b }

  /** An injective map without one of its keys. */
  lemma WithoutKey(m: map<nat, Slot>, a: nat)
    requires a in m && Injective(m)
    ensures Injective(m - {a}) && m.Keys == (m - {a}).Keys + {a}
    ensures m.Values == (m - {a}).Values + {m[a]} && m[a] !in (m - {a}).Values
  {
    var rest := m - {a};
    forall v | v in m.Values && v != m[a] ensures v in rest.Values {
      var b :| b in m && m[b] == v;
      assert b in rest && rest[b] == v;
    }
    forall v | v in rest.Values ensures v in m.Values && v != m[a] {
      var b :| b in rest && rest[b] == v;
      assert m[b] == v;
    }
  }

  /** It has as many values as keys. */
  lemma {:induction false} InjectiveSize(m: map<nat, Slot>)
    requires Injective(m)
    ensures |m.Values| == |m.Keys|
    decreases |m.Keys|
  {
    if m.Keys == {} {
      assert m.Values == {};
    } else {
      hide Injective;
      var a :| a in m.Keys;
      var rest := m - {a};
      WithoutKey(m, a);
      InjectiveSize(rest);
    }
  }

  /** The blocks inode i owns. */
  ghost function BlocksOf(o: Owner, i: nat): set<nat> { set b | b in o && o[b].inum == i }

  /** A file of n blocks owns exactly its n data blocks and its pointer blocks. */
  lemma FileCost(fs: Fs, o: Owner, i: nat)
    requires FsInv(fs, o) && Allocated(fs, i)
    ensures i < |fs.inodes| && |BlocksOf(o, i)| == Cost(fs.inodes[i].blockCount)
  {
    hide SlotVal, Cost, Counted, NeededSlots, Needed, TailZero;
    InvShape(fs, o);
    var n := fs.inodes[i].blockCount;
    var m: map<nat, Slot> := map b | b in o && o[b].inum == i :: o[b].slot;
    assert m.Keys == BlocksOf(o, i);
    forall a, b | a in m && b in m && m[a] == m[b] ensures a == b {
      OwnerVal(fs, o, a);
      OwnerVal(fs, o, b);
    }
    InjectiveSize(m);
    NeededSlotsAre(n);
    forall s | s in m.Values ensures s in NeededSlots(n) {
      var b :| b in m && m[b] == s;
      OwnerVal(fs, o, b);
      PtrOwned(fs, o, i, s);
      assert Val(fs, i, s) == b;
    }
    forall s | s in NeededSlots(n) ensures s in m.Values {
      PtrOwned(fs, o, i, s);
      assert Val(fs, i, s) != INVALID;
      assert m[Val(fs, i, s)] == s;
    }
    assert m.Values == NeededSlots(n);
  }

  /** What the first k inodes cost. */
  ghost function CostUpTo(fs: Fs, k: nat): nat
    requires WellFormed(fs) && k <= MAX_INODES
  {
    if k == 0 then 0
    else CostUpTo(fs, k - 1) + if Allocated(fs, k - 1) then Cost(fs.inodes[k - 1].blockCount) else 0
  }

  ghost function OwnedBelow(o: Owner, k: nat): set<nat> { set b | b in o && o[b].inum < k }

  lemma {:induction false} OwnedBelowSize(fs: Fs, o: Owner, k: nat)
    requires FsInv(fs, o) && k <= MAX_INODES && WellFormed(fs)
    ensures |OwnedBelow(o, k)| == CostUpTo(fs, k)
  {
    hide Cost, Counted, Owned, InodeOk, WellFormed;
    if k == 0 {
      assert OwnedBelow(o, 0) == {};
    } else {
      OwnedBelowSize(fs, o, k - 1);
      assert OwnedBelow(o, k) == OwnedBelow(o, k - 1) + BlocksOf(o, k - 1);
      if Allocated(fs, k - 1) {
        FileCost(fs, o, k - 1);
      } else {
        NoBlocks(fs, o, k - 1);
      }
    }
  }

  lemma NoBlocks(fs: Fs, o: Owner, i: nat)
    requires FsInv(fs, o) && !Allocated(fs, i)
    ensures BlocksOf(o, i) == {}
  {
    hide SlotVal, InodeOk, Counted;
  }

  lemma AllOwned(fs: Fs, o: Owner)
    requires Owned(fs, o)
    ensures OwnedBelow(o, MAX_INODES) == o.Keys
  {
    hide SlotVal;
  }

  lemma RegionSplit(fs: Fs, o: Owner)
    requires Owned(fs, o)
    ensures |fs.bits| == TOTAL_BLOCKS && |FreeSet(fs.bits)| + |o.Keys| == DATA_BLOCKS
  {
    hide Owned, Range;
    OwnedBits(fs, o);
    var a, b := FreeSet(fs.bits), o.Keys;
    var r := Range(DATA_START, TOTAL_BLOCKS);
    RangeSize(DATA_START, TOTAL_BLOCKS);
    DisjointSize(a, b);
    SameMembers(r, a + b);
  }

  lemma SameMembers(a: set<nat>, b: set<nat>)
    requires forall x :: x in a <==> x in b
    ensures a == b
  {
  }

  /** Free blocks plus what the allocated inodes cost is the whole data region: nothing is lost and
      nothing counted twice. */
  lemma BlocksConserved(fs: Fs, o: Owner)
    requires FsInv(fs, o)
    ensures WellFormed(fs) && fs.freeBlocks + CostUpTo(fs, MAX_INODES) == DATA_BLOCKS
  {
    hide SlotVal, InodeOk, Cost, FreeInodes, FreeSet, Owned, CostUpTo, OwnedBelow;
    InvShape(fs, o);
    OwnedBelowSize(fs, o, MAX_INODES);
    AllOwned(fs, o);
    RegionSplit(fs, o);
  }
}
