/** Directories as tables of 64-byte entries in direct blocks (src/namespace.c), refining finite
    maps from names to entries. */
module Directory {
  import opened Layout
  import opened Encoding
  import opened Context
  import opened Allocator
  import opened Ownership
  import opened TreeSteps
  import opened PointerTree
  import opened FileContent
  import opened Truncate
  import opened RangeIo

  const SLOTS_PER_BLOCK: nat := 8

  datatype Entry = Entry(inum: u32, dtype: u32)

  // ---- entry tables and maps ----

  /** The entries of a directory's content. */
  function Slots(c: Bytes): (es: seq<Dirent>)
    ensures |es| == |c| / DIRENT_SIZE
  {
    seq(|c| / DIRENT_SIZE, k requires 0 <= k < |c| / DIRENT_SIZE =>
      DirentOfBytes(c[DIRENT_SIZE * k..DIRENT_SIZE * k + DIRENT_SIZE]))
  }

  ghost predicate UniqueNames(es: seq<Dirent>) {
    forall j, k :: 0 <= j < k < |es| && es[j].used && es[k].used ==> es[j].name != es[k].name
  }

  /** The map a table of entries stands for. */
  function EntryMap(es: seq<Dirent>): map<Bytes, Entry> {
    if es == [] then map[]
    else
      var m, e := EntryMap(es[..|es| - 1]), es[|es| - 1];
      if e.used then m[e.name := Entry(e.inum, e.dtype)] else m
  }

  lemma {:induction false} EntryMapHas(es: seq<Dirent>, j: nat)
    requires UniqueNames(es) && j < |es| && es[j].used
    ensures es[j].name in EntryMap(es) && EntryMap(es)[es[j].name] == Entry(es[j].inum, es[j].dtype)
  {
    if j < |es| - 1 {
      EntryMapHas(es[..|es| - 1], j);
    }
  }

  lemma {:induction false} EntryMapFrom(es: seq<Dirent>, name: Bytes) returns (j: nat)
    requires name in EntryMap(es)
    ensures j < |es| && es[j].used && es[j].name == name
  {
    var n := |es| - 1;
    if es[n].used && es[n].name == name {
      j := n;
    } else {
      j := EntryMapFrom(es[..n], name);
    }
  }

  /** Filling an unused slot with a new name inserts it in the map. */
  lemma EntryMapInsert(es: seq<Dirent>, j: nat, e: Dirent)
    requires UniqueNames(es) && j < |es| && !es[j].used && e.used && e.name !in EntryMap(es)
    ensures UniqueNames(es[j := e])
    ensures EntryMap(es[j := e]) == EntryMap(es)[e.name := Entry(e.inum, e.dtype)]
  {
    hide EntryMap;
    var es' := es[j := e];
    forall k | 0 <= k < |es| && es[k].used ensures es[k].name != e.name {
      EntryMapHas(es, k);
    }
    assert UniqueNames(es');
    forall k | 0 <= k < |es| && es[k].used
      ensures es[k].name in EntryMap(es) && EntryMap(es)[es[k].name] == Entry(es[k].inum, es[k].dtype)
    {
      EntryMapHas(es, k);
    }
    SameMap(es', EntryMap(es)[e.name := Entry(e.inum, e.dtype)], es, j);
  }

  /** Clearing a slot deletes its name from the map. */
  lemma EntryMapDelete(es: seq<Dirent>, j: nat, e: Dirent)
    requires UniqueNames(es) && j < |es| && es[j].used && !e.used
    ensures UniqueNames(es[j := e])
    ensures EntryMap(es[j := e]) == EntryMap(es) - {es[j].name}
  {
    hide EntryMap;
    forall k | 0 <= k < |es| && es[k].used
      ensures es[k].name in EntryMap(es) && EntryMap(es)[es[k].name] == Entry(es[k].inum, es[k].dtype)
    {
      EntryMapHas(es, k);
    }
    SameMap(es[j := e], EntryMap(es) - {es[j].name}, es, j);
  }

  /** Two tables that differ in one slot, and a map that accounts for the difference. */
  lemma SameMap(es': seq<Dirent>, m: map<Bytes, Entry>, es: seq<Dirent>, j: nat)
    requires j < |es| && |es'| == |es| && UniqueNames(es) && UniqueNames(es')
    requires forall k :: 0 <= k < |es| && k != j ==> es'[k] == es[k]
    requires es'[j].used ==> es'[j].name in m && m[es'[j].name] == Entry(es'[j].inum, es'[j].dtype)
    requires forall k :: 0 <= k < |es| && k != j && es[k].used ==>
               es[k].name in m && m[es[k].name] == Entry(es[k].inum, es[k].dtype)
    requires forall name :: name in m ==>
               (name in EntryMap(es) && !(es[j].used && name == es[j].name)) || (es'[j].used && name == es'[j].name)
    ensures EntryMap(es') == m
  {
    hide EntryMap;
    var m' := EntryMap(es');
    forall name | name in m' ensures name in m && m[name] == m'[name] {
      var k := EntryMapFrom(es', name);
      EntryMapHas(es', k);
      if k != j {
        EntryMapHas(es, k);
      }
    }
    forall name | name in m ensures name in m' {
      if es'[j].used && name == es'[j].name {
        EntryMapHas(es', j);
      } else {
        var k := EntryMapFrom(es, name);
        EntryMapHas(es', k);
      }
    }
  }

  lemma EntryMapAppend(es: seq<Dirent>, tail: seq<Dirent>)
    requires forall k :: 0 <= k < |tail| ==> !tail[k].used
    requires UniqueNames(es)
    ensures UniqueNames(es + tail) && EntryMap(es + tail) == EntryMap(es)
  {
    if tail == [] {
      assert es + tail == es;
    } else {
      var n := |tail| - 1;
      EntryMapAppend(es, tail[..n]);
      assert (es + tail)[..|es| + n] == es + tail[..n];
    }
  }

  lemma EmptyTable()
    ensures Slots([]) == [] && EntryMap([]) == map[] && UniqueNames([])
  {
    hide DirentOfBytes;
  }

  // ---- slots inside contents ----

  lemma SlotOf(c: Bytes, k: nat)
    requires k < |c| / DIRENT_SIZE
    ensures Slots(c)[k] == DirentOfBytes(c[DIRENT_SIZE * k..DIRENT_SIZE * k + DIRENT_SIZE])
  {
    hide DirentOfBytes;
  }

  /** Overwriting one entry's bytes. */
  lemma SlotWrite(c: Bytes, k: nat, part: Bytes)
    requires k < |c| / DIRENT_SIZE && |part| == DIRENT_SIZE
    ensures Slots(Splice(c, DIRENT_SIZE * k, part)) == Slots(c)[k := DirentOfBytes(part)]
  {
    hide DirentOfBytes;
    var c' := Splice(c, DIRENT_SIZE * k, part);
    forall x | 0 <= x < |c| / DIRENT_SIZE ensures Slots(c')[x] == Slots(c)[k := DirentOfBytes(part)][x] {
      var lo := DIRENT_SIZE * x;
      if x == k {
        assert c'[lo..lo + DIRENT_SIZE] == part;
      } else {
        assert c'[lo..lo + DIRENT_SIZE] == c[lo..lo + DIRENT_SIZE];
      }
    }
  }

  /** Appending a zeroed block appends unused entries. */
  lemma SlotsExtend(c: Bytes, n: nat)
    requires |c| % DIRENT_SIZE == 0 && n % DIRENT_SIZE == 0
    ensures var tail := seq(n / DIRENT_SIZE, _ => Dirent(false, 0, 0, []));
            Slots(c + seq(n, _ => 0)) == Slots(c) + tail
  {
    hide DirentOfBytes;
    var z := seq(n, _ => 0);
    var tail := seq(n / DIRENT_SIZE, _ => Dirent(false, 0, 0, []));
    forall x | 0 <= x < (|c| + n) / DIRENT_SIZE ensures Slots(c + z)[x] == (Slots(c) + tail)[x] {
      var lo := DIRENT_SIZE * x;
      var part := (c + z)[lo..lo + DIRENT_SIZE];
      if lo < |c| {
        assert part == c[lo..lo + DIRENT_SIZE];
      } else {
        ZeroDirent(part);
      }
    }
  }

  // ---- directories of the file system ----

  /** An inode that is a well-formed directory. */
  ghost predicate DirOk(fs: Fs, d: nat) {
    && Allocated(fs, d) && d < |fs.inodes| && fs.inodes[d].itype == TYPE_DIR
    && fs.inodes[d].size == BLOCK_SIZE * fs.inodes[d].blockCount && fs.inodes[d].blockCount <= DIRECT_BLOCKS
    && UniqueNames(Slots(Content(fs, d)))
  }

  ghost function Dir(fs: Fs, d: nat): map<Bytes, Entry>
    requires d < |fs.inodes|
  {
    EntryMap(Slots(Content(fs, d)))
  }

  /** Every entry slot of the directory's blocks is taken. */
  ghost predicate AllUsed(fs: Fs, d: nat)
    requires d < |fs.inodes|
  {
    var es := Slots(Content(fs, d));
    forall k :: 0 <= k < |es| ==> es[k].used
  }

  /** Entry number slot of a directory block. */
  function BlockSlot(block: Block, slot: nat): Dirent
    requires slot < SLOTS_PER_BLOCK
  {
    DirentOfBytes(block[DIRENT_SIZE * slot..DIRENT_SIZE * slot + DIRENT_SIZE])
  }

  /** Read block number logical of a directory: eight of its entries. */
  method ReadEntries(u: Ufs, dir: u32, ino: Inode, logical: nat, ghost o: Owner) returns (physical: u32, block: Block)
    requires u.Valid() && FsInv(u.fs, o) && DirOk(u.fs, dir) && ino == u.fs.inodes[dir] && logical < ino.blockCount
    ensures InData(physical) && physical == Val(u.fs, dir, Leaf(logical)) && block == u.fs.data[physical as nat]
    ensures |Slots(Content(u.fs, dir))| == SLOTS_PER_BLOCK * ino.blockCount
    ensures forall slot :: 0 <= slot < SLOTS_PER_BLOCK ==>
              BlockSlot(block, slot) == Slots(Content(u.fs, dir))[SLOTS_PER_BLOCK * logical + slot]
  {
    hide Ufs.Valid, FsInv, Val, SlotVal, DirentOfBytes, Holding, UniqueNames;
    DirHolding(u.fs, o, dir);
    var r := GetInodeDataBlock(u, ino, logical, dir, o);
    PositionPresent(u.fs, o, dir, BLOCK_SIZE * logical);
    assert BLOCK_SIZE * logical / BLOCK_SIZE == logical;
    physical := r.value;
    block := u.ReadData(physical);
    ghost var c := Content(u.fs, dir);
    ChunkRead(u.fs, o, dir, BLOCK_SIZE * logical, BLOCK_SIZE);
    assert block[0..BLOCK_SIZE] == block;
    forall slot | 0 <= slot < SLOTS_PER_BLOCK
      ensures BlockSlot(block, slot) == Slots(c)[SLOTS_PER_BLOCK * logical + slot]
    {
      SlotInBlock(c, block, logical, slot);
    }
  }

  lemma SlotInBlock(c: Bytes, block: Block, logical: nat, slot: nat)
    requires BLOCK_SIZE * logical + BLOCK_SIZE <= |c| && slot < SLOTS_PER_BLOCK
    requires block == c[BLOCK_SIZE * logical..BLOCK_SIZE * logical + BLOCK_SIZE]
    ensures SLOTS_PER_BLOCK * logical + slot < |c| / DIRENT_SIZE
    ensures BlockSlot(block, slot) == Slots(c)[SLOTS_PER_BLOCK * logical + slot]
  {
    hide DirentOfBytes;
    var k := SLOTS_PER_BLOCK * logical + slot;
    SlotOf(c, k);
    assert block[DIRENT_SIZE * slot..DIRENT_SIZE * slot + DIRENT_SIZE]
      == c[DIRENT_SIZE * k..DIRENT_SIZE * k + DIRENT_SIZE];
  }

  lemma DirHolding(fs: Fs, o: Owner, d: nat)
    requires FsInv(fs, o) && DirOk(fs, d)
    ensures d < MAX_INODES && WellFormed(fs) && Current(fs, d, fs.inodes[d], o) && Holding(fs, d, fs.inodes[d], o)
    ensures forall s :: SlotVal(fs.data, fs.inodes[d], s) == Val(fs, d, s)
  {
    hide FsInv, UniqueNames, Holding;
    CurrentHolding(fs, d, fs.inodes[d], o);
  }

  /** directory_find: map lookup. */
  method DirectoryFind(u: Ufs, dir: u32, name: Bytes, ghost o: Owner) returns (r: Result<u32>)
    requires u.Valid() && FsInv(u.fs, o) && Allocated(u.fs, dir) && dir < |u.fs.inodes|
    requires u.fs.inodes[dir].itype == TYPE_DIR ==> DirOk(u.fs, dir)
    ensures r == if u.fs.inodes[dir].itype != TYPE_DIR then Err(ENOTDIR)
                 else if name in Dir(u.fs, dir) then Ok(Dir(u.fs, dir)[name].inum) else Err(ENOENT)
  {
    hide Ufs.Valid, FsInv, Val, BlockSlot, Content;
    WellFormedInv(u.fs, o);
    var ri := u.ReadInode(dir);
    var ino := ri.value;
    if ino.itype != TYPE_DIR {
      return Err(ENOTDIR);
    }
    ghost var es := Slots(Content(u.fs, dir));
    for logical := 0 to ino.blockCount
      invariant forall k :: 0 <= k < SLOTS_PER_BLOCK * logical && k < |es| ==> !(es[k].used && es[k].name == name)
    {
      var physical, block := ReadEntries(u, dir, ino, logical, o);
      for slot := 0 to SLOTS_PER_BLOCK
        invariant forall k :: 0 <= k < SLOTS_PER_BLOCK * logical + slot && k < |es| ==>
                    !(es[k].used && es[k].name == name)
      {
        var e := BlockSlot(block, slot);
        assert e == es[SLOTS_PER_BLOCK * logical + slot];
        if e.used && e.name == name {
          EntryMapHas(es, SLOTS_PER_BLOCK * logical + slot);
          return Ok(e.inum);
        }
      }
    }
    DirCovered(u.fs, dir);
    if name in EntryMap(es) {
      ghost var k := EntryMapFrom(es, name);
    }
    return Err(ENOENT);
  }

  lemma DirCovered(fs: Fs, d: nat)
    requires DirOk(fs, d)
    ensures |Slots(Content(fs, d))| == SLOTS_PER_BLOCK * fs.inodes[d].blockCount
  {
    hide DirentOfBytes, UniqueNames;
  }

  /** directory_is_empty */
  method DirectoryIsEmpty(u: Ufs, dir: u32, ghost o: Owner) returns (r: Result<bool>)
    requires u.Valid() && FsInv(u.fs, o) && Allocated(u.fs, dir) && dir < |u.fs.inodes|
    requires u.fs.inodes[dir].itype == TYPE_DIR ==> DirOk(u.fs, dir)
    ensures r == if u.fs.inodes[dir].itype != TYPE_DIR then Err(ENOTDIR) else Ok(Dir(u.fs, dir) == map[])
  {
    hide Ufs.Valid, FsInv, Val, BlockSlot, Content;
    WellFormedInv(u.fs, o);
    var ri := u.ReadInode(dir);
    var ino := ri.value;
    if ino.itype != TYPE_DIR {
      return Err(ENOTDIR);
    }
    ghost var es := Slots(Content(u.fs, dir));
    for logical := 0 to ino.blockCount
      invariant forall k :: 0 <= k < SLOTS_PER_BLOCK * logical && k < |es| ==> !es[k].used
    {
      var physical, block := ReadEntries(u, dir, ino, logical, o);
      for slot := 0 to SLOTS_PER_BLOCK
        invariant forall k :: 0 <= k < SLOTS_PER_BLOCK * logical + slot && k < |es| ==> !es[k].used
      {
        var e := BlockSlot(block, slot);
        assert e == es[SLOTS_PER_BLOCK * logical + slot];
        if e.used {
          EntryMapHas(es, SLOTS_PER_BLOCK * logical + slot);
          return Ok(false);
        }
      }
    }
    DirCovered(u.fs, dir);
    NothingUsed(es);
    return Ok(true);
  }

  lemma {:induction false} NothingUsed(es: seq<Dirent>)
    requires forall k :: 0 <= k < |es| ==> !es[k].used
    ensures EntryMap(es) == map[]
  {
    if es != [] {
      NothingUsed(es[..|es| - 1]);
    }
  }

  // ---- changing a directory ----

  /** Only directory d was changed: its table, and its size if it grew. */
  ghost predicate DirChanged(fs: Fs, fs': Fs, d: nat) {
    && WellFormed(fs) && WellFormed(fs') && d < MAX_INODES
    && fs'.ibits == fs.ibits && fs'.freeInodes == fs.freeInodes
    && fs'.inodes == fs.inodes[d := fs.inodes[d].(direct := fs'.inodes[d].direct, size := fs'.inodes[d].size,
                                                  blockCount := fs'.inodes[d].blockCount)]
    && OtherContents(fs, fs', d)
  }

  /** Overwrite one entry of a directory block. */
  method WriteSlot(u: Ufs, dir: u32, ino: Inode, logical: nat, slot: nat, part: Bytes, ghost o: Owner)
    requires u.Valid() && FsInv(u.fs, o) && DirOk(u.fs, dir) && ino == u.fs.inodes[dir]
    requires logical < ino.blockCount && slot < SLOTS_PER_BLOCK && |part| == DIRENT_SIZE
    modifies u`fs, u.disk
    ensures u.Valid() && FsInv(u.fs, o) && DirChanged(old(u.fs), u.fs, dir) && u.fs == old(u.fs).(data := u.fs.data)
    ensures |Slots(Content(old(u.fs), dir))| == SLOTS_PER_BLOCK * ino.blockCount
    ensures Slots(Content(u.fs, dir))
            == Slots(Content(old(u.fs), dir))[SLOTS_PER_BLOCK * logical + slot := DirentOfBytes(part)]
  {
    hide Ufs.Valid, FsInv, Val, DirentOfBytes, Content, UniqueNames, OtherContents;
    ghost var fs0 := u.fs;
    WellFormedInv(fs0, o);
    var physical, block := ReadEntries(u, dir, ino, logical, o);
    ghost var position := BLOCK_SIZE * logical + DIRENT_SIZE * slot;
    assert position / BLOCK_SIZE == logical && position % BLOCK_SIZE == DIRENT_SIZE * slot;
    ChunkWritten(fs0, o, dir, position, part);
    u.WriteData(physical, Splice(block, DIRENT_SIZE * slot, part));
    SlotWrite(Content(fs0, dir), SLOTS_PER_BLOCK * logical + slot, part);
    assert fs0.inodes[dir := fs0.inodes[dir].(direct := fs0.inodes[dir].direct)] == fs0.inodes;
  }

  /** The first unused entry, if any block has one. */
  method FindFreeSlot(u: Ufs, dir: u32, ino: Inode, ghost o: Owner) returns (found: bool, logical: nat, slot: nat)
    requires u.Valid() && FsInv(u.fs, o) && DirOk(u.fs, dir) && ino == u.fs.inodes[dir]
    ensures found <==> !AllUsed(u.fs, dir)
    ensures found ==> logical < ino.blockCount && slot < SLOTS_PER_BLOCK
                      && SLOTS_PER_BLOCK * logical + slot < |Slots(Content(u.fs, dir))|
                      && !Slots(Content(u.fs, dir))[SLOTS_PER_BLOCK * logical + slot].used
  {
    hide Ufs.Valid, FsInv, Val, BlockSlot, Content, UniqueNames;
    found, logical, slot := false, 0, 0;
    ghost var es := Slots(Content(u.fs, dir));
    while logical < ino.blockCount
      invariant logical <= ino.blockCount
      invariant forall k :: 0 <= k < SLOTS_PER_BLOCK * logical && k < |es| ==> es[k].used
    {
      var physical, block := ReadEntries(u, dir, ino, logical, o);
      slot := 0;
      while slot < SLOTS_PER_BLOCK
        invariant slot <= SLOTS_PER_BLOCK
        invariant forall k :: 0 <= k < SLOTS_PER_BLOCK * logical + slot && k < |es| ==> es[k].used
      {
        assert BlockSlot(block, slot) == es[SLOTS_PER_BLOCK * logical + slot];
        if !BlockSlot(block, slot).used {
          return true, logical, slot;
        }
        slot := slot + 1;
      }
      logical := logical + 1;
    }
    DirCovered(u.fs, dir);
  }

  /** The bytes of a one-entry block. */
  function FirstEntryBlock(e: Dirent): Block
    requires |e.name| <= MAX_NAME
  {
    Splice(ZeroBlock(), 0, DirentBytes(e))
  }

  /** The file system after directory d takes block nb for one more block of entries. */
  function DirGrown(fs: Fs, d: nat, nb: u32, e: Dirent): Fs
    requires WellFormed(fs) && d < MAX_INODES && InData(nb) && fs.freeBlocks > 0 && |e.name| <= MAX_NAME
    requires fs.inodes[d].blockCount < DIRECT_BLOCKS
  {
    var t, ino := Taken(fs, nb), fs.inodes[d];
    t.(data := t.data[nb as nat := FirstEntryBlock(e)],
       inodes := t.inodes[d := ino.(direct := ino.direct[ino.blockCount as nat := nb], blockCount := ino.blockCount + 1,
                                    size := BLOCK_SIZE * (ino.blockCount as int + 1))])
  }

  /** The file system after inode d takes nb as its next direct block and size bytes. */
  function LeafGrown(fs: Fs, d: nat, nb: u32, size: u64): Fs
    requires WellFormed(fs) && d < MAX_INODES && InData(nb) && fs.freeBlocks > 0
    requires fs.inodes[d].blockCount < DIRECT_BLOCKS
  {
    var bc := fs.inodes[d].blockCount;
    var m := PtrAttached(fs, d, Leaf(bc), nb);
    WithMem(m, d, WithSize(m.inodes[d], size, bc + 1))
  }

  /** One more zeroed direct block, as truncation would give it. */
  lemma LeafGrow(fs: Fs, o: Owner, d: nat, nb: u32, size: u64)
    requires FsInv(fs, o) && Allocated(fs, d) && d < |fs.inodes| && fs.inodes[d].blockCount < DIRECT_BLOCKS
    requires InData(nb) && WellFormed(fs) && !fs.bits[nb] && fs.freeBlocks > 0
    requires size > fs.inodes[d].size && CeilDiv(size, BLOCK_SIZE) == fs.inodes[d].blockCount + 1
    ensures d < MAX_INODES
    ensures var bc := fs.inodes[d].blockCount;
            var m, o' := LeafGrown(fs, d, nb, size), o[nb as nat := Claim(d, Leaf(bc))];
            && FsInv(m, o') && OtherContents(fs, m, d) && Val(m, d, Leaf(bc)) == nb
            && Content(m, d) == Resize(Content(fs, d), size)
  {
    hide SlotVal, Owned, InodeOk, FreeSet, FreeInodes, Content, ZeroBlock, Grown, Extended, Missing;
    InvShape(fs, o);
    InodeShape(fs, d);
    var bc := fs.inodes[d].blockCount;
    var s := Leaf(bc);
    AbsentNext(fs, d, bc);
    AttachPtr(fs, o, d, s, nb, bc);
    var m, o' := PtrAttached(fs, d, s, nb), o[nb as nat := Claim(d, s)];
    ExtendedRefl(fs, o, d, bc);
    DirectMissing(m, d, bc);
    ExtendStep(fs, o, fs, o, m, o', d, bc, bc + 1 - 1);
    FreeSetTake(fs.bits, nb);
    GrowFinish(fs, o, m, o', d, bc, bc + 1, size);
    SizedSame(m, o', d, size, bc + 1);
    GrownOwned(fs, o, m, o', d, bc);
  }

  /** Growing by a zeroed block. */
  function DirZeroGrown(fs: Fs, d: nat, nb: u32): Fs
    requires WellFormed(fs) && d < MAX_INODES && InData(nb) && fs.freeBlocks > 0
    requires fs.inodes[d].blockCount < DIRECT_BLOCKS
  {
    LeafGrown(fs, d, nb, BLOCK_SIZE * (fs.inodes[d].blockCount as int + 1))
  }

  lemma ZeroGrow(fs: Fs, o: Owner, d: nat, nb: u32)
    requires FsInv(fs, o) && DirOk(fs, d) && fs.inodes[d].blockCount < DIRECT_BLOCKS
    requires InData(nb) && WellFormed(fs) && !fs.bits[nb] && fs.freeBlocks > 0
    ensures d < MAX_INODES
    ensures var bc := fs.inodes[d].blockCount;
            var m, o' := DirZeroGrown(fs, d, nb), o[nb as nat := Claim(d, Leaf(bc))];
            && FsInv(m, o') && OtherContents(fs, m, d) && Val(m, d, Leaf(bc)) == nb
            && Content(m, d) == Content(fs, d) + seq(BLOCK_SIZE, _ => 0)
  {
    hide SlotVal, FsInv, Content, UniqueNames, LeafGrown, OtherContents, Val;
    LeafGrow(fs, o, d, nb, BLOCK_SIZE * (fs.inodes[d].blockCount as int + 1));
  }

  lemma GrownOwned(fs: Fs, o: Owner, m: Fs, o': Owner, d: nat, lb: nat)
    requires Grown(fs, o, m, o', d, lb)
    ensures d < |m.inodes| && m.ibits == fs.ibits
  {
    hide Missing;
  }

  lemma InodeShape(fs: Fs, d: nat)
    requires InodeOk(fs, d)
    ensures d < |fs.inodes| && Dense(fs, d, fs.inodes[d].blockCount)
  {
    hide Dense, ByteAt;
  }

  lemma AbsentNext(fs: Fs, d: nat, n: nat)
    requires Dense(fs, d, n)
    ensures Val(fs, d, Leaf(n)) == INVALID
  {
    hide SlotVal;
    assert !Needed(Leaf(n), n);
  }

  lemma DirectMissing(m: Fs, d: nat, bc: nat)
    requires d < |m.inodes| && bc < DIRECT_BLOCKS && Val(m, d, Leaf(bc)) != INVALID
    ensures Missing(m, d, bc) == 0
  {
  }

  /** The entries after a directory of bc blocks is given one more block that starts with e. */
  function Extended8(es: seq<Dirent>, e: Dirent): seq<Dirent> {
    (es + seq(SLOTS_PER_BLOCK, _ => Dirent(false, 0, 0, [])))[|es| := e]
  }

  lemma GrownDirectory(fs: Fs, o: Owner, d: nat, nb: u32, e: Dirent)
    requires FsInv(fs, o) && DirOk(fs, d) && fs.inodes[d].blockCount < DIRECT_BLOCKS
    requires InData(nb) && WellFormed(fs) && !fs.bits[nb] && fs.freeBlocks > 0
    requires ValidName(e.name)
    ensures d < MAX_INODES
    ensures var fs' := DirGrown(fs, d, nb, e); var o' := o[nb as nat := Claim(d, Leaf(fs.inodes[d].blockCount))];
            && FsInv(fs', o') && OtherContents(fs, fs', d)
            && Slots(Content(fs', d)) == Extended8(Slots(Content(fs, d)), e)
  {
    hide SlotVal, Owned, InodeOk, FreeSet, FreeInodes, Content, UniqueNames, ZeroBlock, FsInv, Slots, DirentBytes,
      OtherContents,
      Val, DirentOfBytes, InData;
    var bc := fs.inodes[d].blockCount;
    ZeroGrow(fs, o, d, nb);
    var m, o' := DirZeroGrown(fs, d, nb), o[nb as nat := Claim(d, Leaf(bc))];
    var part := DirentBytes(e);
    var position := BLOCK_SIZE * bc;
    assert position / BLOCK_SIZE == bc && position % BLOCK_SIZE == 0;
    assert m.data[nb as nat] == ZeroBlock();
    ChunkWritten(m, o', d, position, part);
    var fs' := DirGrown(fs, d, nb, e);
    assert fs'.data == m.data[nb as nat := Splice(m.data[nb as nat], 0, part)];
    assert fs' == m.(data := m.data[nb as nat := Splice(m.data[nb as nat], 0, part)]);
    OthersTrans(fs, m, fs', d);
    SlotsExtend(Content(fs, d), BLOCK_SIZE);
    SlotWrite(Content(m, d), SLOTS_PER_BLOCK * bc, part);
    DirentRoundTrip(e);
  }

  predicate EntryType(dtype: u32) { dtype == TYPE_FILE || dtype == TYPE_DIR || dtype == TYPE_SYMLINK }

  /** When a name can be added, and why not. */
  ghost function AddOutcome(fs: Fs, d: nat, name: Bytes, dtype: u32): Result<()>
    requires d < |fs.inodes|
  {
    if name == [] || |name| > MAX_NAME || !EntryType(dtype) then Err(EINVAL)
    else if fs.inodes[d].itype != TYPE_DIR then Err(ENOTDIR)
    else if name in Dir(fs, d) then Err(EEXIST)
    else if AllUsed(fs, d) && (fs.inodes[d].blockCount >= DIRECT_BLOCKS || fs.freeBlocks == 0) then Err(ENOSPC)
    else Ok(())
  }

  lemma ExtendedMap(es: seq<Dirent>, e: Dirent)
    requires UniqueNames(es) && e.used && e.name !in EntryMap(es)
    ensures UniqueNames(Extended8(es, e))
    ensures EntryMap(Extended8(es, e)) == EntryMap(es)[e.name := Entry(e.inum, e.dtype)]
  {
    hide UniqueNames, EntryMap;
    var tail := seq(SLOTS_PER_BLOCK, _ => Dirent(false, 0, 0, []));
    EntryMapAppend(es, tail);
    EntryMapInsert(es + tail, |es|, e);
  }

  /** Append a block of entries that starts with e. */
  method GrowDirectory(u: Ufs, dir: u32, ino: Inode, e: Dirent, ghost o: Owner) returns (ok: bool, ghost o': Owner)
    requires u.Valid() && FsInv(u.fs, o) && DirOk(u.fs, dir) && ino == u.fs.inodes[dir]
    requires ino.blockCount < DIRECT_BLOCKS && ValidName(e.name)
    modifies u`fs, u`sb, u.disk
    ensures u.Valid() && FsInv(u.fs, o')
    ensures ok <==> old(u.fs).freeBlocks > 0
    ensures !ok ==> u.fs == old(u.fs) && o' == o
    ensures ok ==> DirChanged(old(u.fs), u.fs, dir)
                   && u.fs.inodes[dir].size == BLOCK_SIZE * u.fs.inodes[dir].blockCount
                   && u.fs.inodes[dir].blockCount == ino.blockCount + 1
                   && Slots(Content(u.fs, dir)) == Extended8(Slots(Content(old(u.fs), dir)), e)
  {
    hide Ufs.Valid, FsInv, Val, DirentOfBytes, Content, UniqueNames, OtherContents, Counted, Owned, ZeroBlock,
      FirstEntryBlock,
      Slots;
    ghost var fs := u.fs;
    WellFormedInv(fs, o);
    o' := o;
    var r := AllocateDataBlock(u);
    if r.Err? {
      return false, o;
    }
    GrownDirectory(fs, o, dir, r.value, e);
    u.WriteData(r.value, FirstEntryBlock(e));
    var grown := ino.(direct := ino.direct[ino.blockCount as nat := r.value], blockCount := ino.blockCount + 1,
                      size := BLOCK_SIZE * (ino.blockCount as int + 1));
    var _ := u.WriteInode(dir, grown);
    assert u.fs == DirGrown(fs, dir, r.value, e);
    o' := o[r.value as nat := Claim(dir, Leaf(ino.blockCount))];
    WellFormedInv(u.fs, o');
    return true, o';
  }

  /** directory_add: map insertion of a new name. */
  method DirectoryAdd(u: Ufs, dir: u32, name: Bytes, target: u32, dtype: u32, ghost o: Owner)
    returns (r: Result<()>, ghost o': Owner)
    requires u.Valid() && FsInv(u.fs, o) && Allocated(u.fs, dir) && dir < |u.fs.inodes| && NulFree(name)
    requires u.fs.inodes[dir].itype == TYPE_DIR ==> DirOk(u.fs, dir)
    modifies u`fs, u`sb, u.disk
    ensures u.Valid() && FsInv(u.fs, o')
    ensures r == AddOutcome(old(u.fs), dir, name, dtype)
    ensures r.Err? ==> u.fs == old(u.fs) && o' == o
    ensures r.Ok? ==> DirChanged(old(u.fs), u.fs, dir) && DirOk(u.fs, dir)
                      && Dir(u.fs, dir) == Dir(old(u.fs), dir)[name := Entry(target, dtype)]
  {
    hide Ufs.Valid, FsInv, Val, DirentBytes, DirentOfBytes, Content, UniqueNames, OtherContents, Slots, EntryMap,
      Extended8, AllUsed,
      NulFree;
    o' := o;
    if name == [] || |name| > MAX_NAME || !EntryType(dtype) {
      return Err(EINVAL), o;
    }
    ghost var fs := u.fs;
    WellFormedInv(fs, o);
    var ri := u.ReadInode(dir);
    var ino := ri.value;
    if ino.itype != TYPE_DIR {
      return Err(ENOTDIR), o;
    }
    var existing := DirectoryFind(u, dir, name, o);
    if existing.Ok? {
      return Err(EEXIST), o;
    }
    var e := Dirent(true, target, dtype, name);
    ghost var es := Slots(Content(fs, dir));
    var found, logical, slot := FindFreeSlot(u, dir, ino, o);
    if found {
      var at := SLOTS_PER_BLOCK * logical + slot;
      DirentRoundTrip(e);
      EntryMapInsert(es, at, e);
      WriteSlot(u, dir, ino, logical, slot, DirentBytes(e), o);
      return Ok(()), o;
    }
    if ino.blockCount >= DIRECT_BLOCKS {
      return Err(ENOSPC), o;
    }
    ExtendedMap(es, e);
    var ok;
    ok, o' := GrowDirectory(u, dir, ino, e, o);
    if !ok {
      return Err(ENOSPC), o;
    }
    return Ok(()), o';
  }

  /** The first used entry with the given name, if there is one. */
  method FindName(u: Ufs, dir: u32, ino: Inode, name: Bytes, ghost o: Owner) returns (found: bool, logical: nat,
      slot: nat)
    requires u.Valid() && FsInv(u.fs, o) && DirOk(u.fs, dir) && ino == u.fs.inodes[dir]
    ensures found <==> name in Dir(u.fs, dir)
    ensures found ==> logical < ino.blockCount && slot < SLOTS_PER_BLOCK
                      && SLOTS_PER_BLOCK * logical + slot < |Slots(Content(u.fs, dir))|
                      && Slots(Content(u.fs, dir))[SLOTS_PER_BLOCK * logical + slot].used
                      && Slots(Content(u.fs, dir))[SLOTS_PER_BLOCK * logical + slot].name == name
  {
    hide Ufs.Valid, FsInv, Val, BlockSlot, Content, EntryMap;
    found, logical, slot := false, 0, 0;
    ghost var es := Slots(Content(u.fs, dir));
    while logical < ino.blockCount
      invariant logical <= ino.blockCount
      invariant forall k :: 0 <= k < SLOTS_PER_BLOCK * logical && k < |es| ==> !(es[k].used && es[k].name == name)
    {
      var physical, block := ReadEntries(u, dir, ino, logical, o);
      slot := 0;
      while slot < SLOTS_PER_BLOCK
        invariant slot <= SLOTS_PER_BLOCK
        invariant forall k :: 0 <= k < SLOTS_PER_BLOCK * logical + slot && k < |es| ==>
                    !(es[k].used && es[k].name == name)
      {
        var e := BlockSlot(block, slot);
        assert e == es[SLOTS_PER_BLOCK * logical + slot];
        if e.used && e.name == name {
          EntryMapHas(es, SLOTS_PER_BLOCK * logical + slot);
          return true, logical, slot;
        }
        slot := slot + 1;
      }
      logical := logical + 1;
    }
    DirCovered(u.fs, dir);
    if name in EntryMap(es) {
      ghost var k := EntryMapFrom(es, name);
    }
  }

  function ZeroEntry(): (bs: Bytes)
    ensures |bs| == DIRENT_SIZE && DirentOfBytes(bs) == Dirent(false, 0, 0, [])
  {
    var bs := seq(DIRENT_SIZE, _ => 0);
    ZeroDirent(bs);
    bs
  }

  /** directory_remove: map deletion. */
  method DirectoryRemove(u: Ufs, dir: u32, name: Bytes, ghost o: Owner) returns (r: Result<()>)
    requires u.Valid() && FsInv(u.fs, o) && Allocated(u.fs, dir) && dir < |u.fs.inodes|
    requires u.fs.inodes[dir].itype == TYPE_DIR ==> DirOk(u.fs, dir)
    modifies u`fs, u.disk
    ensures u.Valid() && FsInv(u.fs, o)
    ensures r == if old(u.fs).inodes[dir].itype != TYPE_DIR then Err(ENOTDIR)
                 else if name in Dir(old(u.fs), dir) then Ok(()) else Err(ENOENT)
    ensures r.Err? ==> u.fs == old(u.fs)
    ensures r.Ok? ==> DirChanged(old(u.fs), u.fs, dir) && u.fs == old(u.fs).(data := u.fs.data) && DirOk(u.fs, dir)
                      && Dir(u.fs, dir) == Dir(old(u.fs), dir) - {name}
  {
    hide Ufs.Valid, FsInv, Val, DirentOfBytes, Content, UniqueNames, OtherContents, Slots, EntryMap, ZeroEntry;
    ghost var fs := u.fs;
    WellFormedInv(fs, o);
    var ri := u.ReadInode(dir);
    var ino := ri.value;
    if ino.itype != TYPE_DIR {
      return Err(ENOTDIR);
    }
    var found, logical, slot := FindName(u, dir, ino, name, o);
    if !found {
      return Err(ENOENT);
    }
    EntryMapDelete(Slots(Content(fs, dir)), SLOTS_PER_BLOCK * logical + slot, Dirent(false, 0, 0, []));
    WriteSlot(u, dir, ino, logical, slot, ZeroEntry(), o);
    return Ok(());
  }
}
