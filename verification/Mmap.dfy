/** Copy-backed memory mappings (src/mmap_io.c): a mapping is a byte array filled from a file when it
    is made and, if shared and writable, written back when it is synchronised. */
module Mmap {
  import opened Layout
  import opened Encoding
  import opened Context
  import opened Ownership
  import opened FileContent
  import opened Truncate
  import opened RangeIo
  import opened Resolve
  import opened FileTree
  import opened Effects
  import opened FileIo

  const MAX_MAPPINGS: nat := 32
  const PROT_READ: int := 1
  const PROT_WRITE: int := 2
  const MAP_SHARED: int := 1
  const MAP_PRIVATE: int := 2
  const MAX_MAPPED: nat := MAX_FILE_BLOCKS * BLOCK_SIZE

  /** A slot of the mapping table; the array stands for the mapped pages and is its own address. */
  datatype Mapping = Mapping(inUse: bool, memory: array?<byte>, offset: nat, inum: u32, generation: u32, prot: int,
      flags: int)

  const UNMAPPED := Mapping(false, null, 0, 0, 0, 0, 0)

  predicate Writable(prot: int) { prot / 2 % 2 == 1 }

  /** Writes to the memory are meant for the file. */
  predicate WritesBack(m: Mapping) { m.flags != MAP_PRIVATE && Writable(m.prot) }

  /** Slots in use hold distinct arrays of a mappable range. */
  ghost predicate SlotsOk(ms: seq<Mapping>) {
    && (forall k :: 0 <= k < |ms| && ms[k].inUse ==>
          ms[k].memory != null && 0 < ms[k].memory.Length && ms[k].offset + ms[k].memory.Length <= MAX_MAPPED)
    && forall j, k :: 0 <= j < k < |ms| && ms[j].inUse && ms[k].inUse ==> ms[j].memory != ms[k].memory
  }

  class Mappings {
    const table: array<Mapping>

    constructor ()
      ensures Valid() && fresh(table) && forall k :: 0 <= k < MAX_MAPPINGS ==> table[k] == UNMAPPED
    {
      table := new Mapping[MAX_MAPPINGS](_ => UNMAPPED);
    }

    ghost predicate Valid()
      reads this, table
    {
      table.Length == MAX_MAPPINGS && SlotsOk(table[..])
    }

    /** ufs_mmap_has_active */
    method HasActive() returns (active: bool)
      requires Valid()
      ensures active <==> exists k :: 0 <= k < MAX_MAPPINGS && table[k].inUse
    {
      for k := 0 to MAX_MAPPINGS
        invariant forall j :: 0 <= j < k ==> !table[j].inUse
      {
        if table[k].inUse {
          return true;
        }
      }
      return false;
    }

    /** ufs_mmap_inode_is_mapped */
    method InodeIsMapped(inum: u32) returns (mapped: bool)
      requires Valid()
      ensures mapped <==> exists k :: 0 <= k < MAX_MAPPINGS && table[k].inUse && table[k].inum == inum
    {
      for k := 0 to MAX_MAPPINGS
        invariant forall j :: 0 <= j < k ==> !(table[j].inUse && table[j].inum == inum)
      {
        if table[k].inUse && table[k].inum == inum {
          return true;
        }
      }
      return false;
    }

    /** find_mapping */
    method FindMapping(address: array?<byte>) returns (r: Result<nat>)
      requires Valid()
      ensures r.Ok? ==> r.value < MAX_MAPPINGS && table[r.value].inUse && table[r.value].memory == address
      ensures r.Err? ==> r == Err(EINVAL) && NotMapped(table[..], address)
    {
      for k := 0 to MAX_MAPPINGS
        invariant forall j :: 0 <= j < k && table[j].inUse ==> table[j].memory != address
      {
        if table[k].inUse && table[k].memory == address {
          return Ok(k);
        }
      }
      return Err(EINVAL);
    }

    method FreeSlot() returns (r: Result<nat>)
      requires Valid()
      ensures r.Ok? ==> r.value < MAX_MAPPINGS && !table[r.value].inUse
      ensures r.Err? ==> r == Err(ENOMEM) && forall k :: 0 <= k < MAX_MAPPINGS ==> table[k].inUse
    {
      for k := 0 to MAX_MAPPINGS
        invariant forall j :: 0 <= j < k ==> table[j].inUse
      {
        if !table[k].inUse {
          return Ok(k);
        }
      }
      return Err(ENOMEM);
    }
  }

  /** Every mapping refers to an allocated regular file with the recorded generation. */
  ghost predicate MappingsOk(t: Tree, ms: seq<Mapping>) {
    forall k :: 0 <= k < |ms| && ms[k].inUse ==>
      && ms[k].inum as nat in t && t[ms[k].inum as nat].kind == TYPE_FILE
      && t[ms[k].inum as nat].generation == ms[k].generation
  }

  ghost predicate NotMapped(ms: seq<Mapping>, address: array?<byte>) {
    forall k :: 0 <= k < |ms| && ms[k].inUse ==> ms[k].memory != address
  }

  /** What a mapping of length bytes at offset starts out holding: the file, then zeros. */
  function Window(c: Bytes, offset: nat, length: nat): (w: Bytes)
    ensures |w| == length
  {
    seq(length, k requires 0 <= k < length => if offset + k < |c| then c[offset + k] else 0)
  }

  lemma WindowIsRead(c: Bytes, offset: nat, length: nat)
    ensures var part := ReadSlice(c, offset, length);
            |part| <= length && Window(c, offset, length) == part + seq(length - |part|, _ => 0)
  {
  }

  /** Writing a window back where it came from only extends the file with zeros. */
  lemma WindowUntouched(c: Bytes, offset: nat, length: nat)
    ensures WriteAt(c, offset, Window(c, offset, length)) == Resize(c, Max(|c|, offset + length))
  {
    var r, w := Resize(c, Max(|c|, offset + length)), Window(c, offset, length);
    forall k | 0 <= k < length ensures w[k] == r[offset + k] {
    }
    assert w == r[offset..offset + length];
    SpliceSame(r, offset, length);
  }

  lemma SpliceSame(c: Bytes, at: nat, length: nat)
    requires at + length <= |c|
    ensures Splice(c, at, c[at..at + length]) == c
  {
  }

  // ---- mapping ----

  /** read_inode_range */
  method ReadInodeRange(u: Ufs, inum: u32, generation: u32, count: nat, offset: nat, relatime: bool, now: Times,
      ghost o: Owner)
    returns (r: Result<Bytes>)
    requires u.Valid() && SysInv(u.fs, o) && inum < |u.fs.inodes|
    requires u.fs.inodes[inum].itype == TYPE_FILE ==> Allocated(u.fs, inum)
    modifies u`fs, u.disk, u.clock
    ensures u.Valid() && SysInv(u.fs, o) && TreeOf(u.fs) == TreeOf(old(u.fs)) && GenSame(old(u.fs), u.fs)
    ensures r == if old(u.fs).inodes[inum].generation != generation then Err(ESTALE)
                 else if old(u.fs).inodes[inum].itype != TYPE_FILE then Err(EINVAL)
                 else Ok(ReadSlice(Content(old(u.fs), inum), offset, count))
  {
    hide Ufs.Valid, FsInv, Content, NodeOf, GenSame, DirsOk, TreeInv, Current;
    WellFormedInv(u.fs, o);
    GenReflexive(u.fs);
    var ri := u.ReadInode(inum);
    var ino := ri.value;
    if ino.generation != generation {
      return Err(ESTALE);
    }
    if ino.itype != TYPE_FILE {
      return Err(EINVAL);
    }
    if offset >= ino.size {
      return Ok([]);
    }
    var available := Min(count, ino.size - offset);
    SameCurrent(u.fs, inum, o);
    var data := ReadChunks(u, inum, ino, offset, available, o);
    if |data| > 0 && relatime {
      PersistTimes(u, inum, ino, now, o);
    }
    return Ok(data);
  }

  /** The arguments ufs_mmap accepts. */
  predicate MappableRange(length: nat, prot: int, flags: int, offset: int) {
    && 0 < length && 0 <= offset && offset + length <= MAX_MAPPED
    && prot in {PROT_READ, PROT_READ + PROT_WRITE} && flags in {MAP_SHARED, MAP_PRIVATE}
  }

  method CheckRange(length: nat, prot: int, flags: int, offset: int) returns (ok: bool)
    ensures ok <==> MappableRange(length, prot, flags, offset)
  {
    ok := !(length == 0 || offset < 0 || prot / 4 != 0 || prot % 2 != 1 || (flags != MAP_SHARED && flags != MAP_PRIVATE)
            || offset + length > MAX_MAPPED);
  }

  lemma MappingAdded(t: Tree, ms: seq<Mapping>, k: nat, m: Mapping)
    requires MappingsOk(t, ms) && k < |ms| && SlotsOk(ms)
    requires m.inum as nat in t && t[m.inum as nat].kind == TYPE_FILE && t[m.inum as nat].generation == m.generation
    requires m.memory != null && 0 < m.memory.Length && m.offset + m.memory.Length <= MAX_MAPPED && m.inUse
    requires forall j :: 0 <= j < |ms| && ms[j].inUse ==> ms[j].memory != m.memory
    ensures MappingsOk(t, ms[k := m]) && SlotsOk(ms[k := m])
  {
  }

  /** Why a range cannot be mapped, apart from a full table. */
  ghost function MapRefusal(fs: Fs, ds: seq<Descriptor>, fd: int, length: nat, prot: int, flags: int,
      offset: int): (r: Result<()>)
    requires TrustedAll(fs, ds)
    ensures r.Ok? ==> 0 <= fd < |ds| && ds[fd].inum < |fs.inodes| && Allocated(fs, ds[fd].inum)
                      && fs.inodes[ds[fd].inum].itype == TYPE_FILE
  {
    if !MappableRange(length, prot, flags, offset) then Err(EINVAL)
    else if fd < 0 || fd >= |ds| || !ds[fd].inUse then Err(EBADF)
    else if AccessMode(ds[fd].flags) == O_WRONLY
            || (Writable(prot) && flags == MAP_SHARED && AccessMode(ds[fd].flags) == O_RDONLY) then Err(EACCES)
    else if fs.inodes[ds[fd].inum].generation != ds[fd].generation then Err(EBADF)
    else Ok(())
  }

  /** ufs_mmap */
  method Map(u: Ufs, files: Files, maps: Mappings, fd: int, length: nat, prot: int, flags: int, offset: int,
             relatime: bool, now: Times, ghost o: Owner)
    returns (r: Result<array<byte>>)
    requires u.Valid() && SysInv(u.fs, o) && files.Valid() && maps.Valid() && TrustedAll(u.fs, files.table[..])
    requires MappingsOk(TreeOf(u.fs), maps.table[..])
    modifies u`fs, u.disk, u.clock, maps.table
    ensures u.Valid() && SysInv(u.fs, o) && TreeOf(u.fs) == TreeOf(old(u.fs)) && GenSame(old(u.fs), u.fs)
    ensures maps.Valid() && MappingsOk(TreeOf(u.fs), maps.table[..])
    ensures r.Err? ==> maps.table[..] == old(maps.table[..])
    ensures var no := MapRefusal(old(u.fs), old(files.table[..]), fd, length, prot, flags, offset);
            && (no.Err? ==> r.Err? && r.error == no.error)
            && (no.Ok? && r.Err? ==>
                  r.error == ENOMEM && forall k :: 0 <= k < MAX_MAPPINGS ==> old(maps.table[k]).inUse)
    ensures r.Ok? ==> MapRefusal(old(u.fs), old(files.table[..]), fd, length, prot, flags, offset).Ok?
                      && Mapped(old(u.fs), old(files.table[..]), fd, length, prot, flags, offset, r.value,
                                old(maps.table[..]), maps.table[..])
    ensures r.Ok? ==> fresh(r.value)
  {
    hide Ufs.Valid, SysInv, Content, NodeOf, GenSame, TreeOf, Window, MappingsOk, AccessMode, Writable, ReadSlice,
      SlotsOk;
    SysGen(u.fs, o);
    ghost var ms, ds := maps.table[..], files.table[..];
    var ok := CheckRange(length, prot, flags, offset);
    if !ok {
      return Err(EINVAL);
    }
    if !files.InUse(fd) {
      return Err(EBADF);
    }
    var d := files.table[fd];
    assert ds[fd] == d && Trusted(u.fs, ds[fd]);
    if AccessMode(d.flags) == O_WRONLY || (Writable(prot) && flags == MAP_SHARED && AccessMode(d.flags) == O_RDONLY) {
      return Err(EACCES);
    }
    var ri := u.ReadInode(d.inum);
    if ri.value.generation != d.generation {
      return Err(EBADF);
    }
    var slot := maps.FreeSlot();
    if slot.Err? {
      return Err(ENOMEM);
    }
    NodeLinks(u.fs, d.inum);
    ghost var c := Content(u.fs, d.inum);
    WindowIsRead(c, offset, length);
    var memory := new byte[length](_ => 0);
    var data := ReadInodeRange(u, d.inum, d.generation, length, offset, relatime, now, o);
    Fill(memory, data.value);
    var m := Mapping(true, memory, offset, d.inum, d.generation, prot, flags);
    MappingAdded(TreeOf(u.fs), ms, slot.value, m);
    maps.table[slot.value] := m;
    assert maps.table[..] == ms[slot.value := m];
    return Ok(memory);
  }

  /** The new slot and the new memory. */
  ghost predicate Mapped(fs: Fs, ds: seq<Descriptor>, fd: int, length: nat, prot: int, flags: int, offset: int,
                         memory: array<byte>, ms: seq<Mapping>, ms': seq<Mapping>)
    requires 0 <= fd < |ds| && ds[fd].inum < |fs.inodes|
    reads memory
  {
    && offset >= 0
    && memory[..] == Window(Content(fs, ds[fd].inum), offset, length)
    && exists slot :: 0 <= slot < |ms| && !ms[slot].inUse
                      && ms' == ms[slot := Mapping(true, memory, offset, ds[fd].inum, ds[fd].generation, prot, flags)]
  }

  lemma SysGen(fs: Fs, o: Owner)
    requires SysInv(fs, o)
    ensures WellFormed(fs) && GenSame(fs, fs) && FsInv(fs, o)
  {
    hide FsInv, DirsOk, TreeInv;
    WellFormedInv(fs, o);
    GenReflexive(fs);
  }

  /** Copy into the start of a zeroed array. */
  method Fill(memory: array<byte>, data: Bytes)
    requires |data| <= memory.Length && forall k :: 0 <= k < memory.Length ==> memory[k] == 0
    modifies memory
    ensures memory[..] == data + seq(memory.Length - |data|, _ => 0)
  {
    forall k | 0 <= k < |data| {
      memory[k] := data[k];
    }
  }

  // ---- synchronising ----

  /** write_inode_range */
  method WriteInodeRange(u: Ufs, inum: u32, generation: u32, data: Bytes, offset: nat, now: Times, ghost o: Owner)
    returns (r: Result<nat>, ghost o': Owner)
    requires u.Valid() && SysInv(u.fs, o) && inum < |u.fs.inodes|
    requires u.fs.inodes[inum].itype == TYPE_FILE ==> Allocated(u.fs, inum)
    modifies u`fs, u`sb, u.disk, u.clock
    ensures u.Valid() && SysInv(u.fs, o') && GenSame(old(u.fs), u.fs)
    ensures r == if offset + |data| > MAX_MAPPED then Err(EFBIG)
                 else if old(u.fs).inodes[inum].generation != generation then Err(ESTALE)
                 else if old(u.fs).inodes[inum].itype != TYPE_FILE then Err(EINVAL)
                 else WriteOutcome(old(u.fs), inum, offset, |data|)
    ensures r.Ok? ==> inum as nat in TreeOf(old(u.fs)) && u.Durable()
    ensures TreeOf(u.fs) == if r.Err? then TreeOf(old(u.fs))
                            else WithContent(TreeOf(old(u.fs)), inum, WriteAt(Content(old(u.fs), inum), offset, data))
  {
    hide Ufs.Valid, Ufs.Durable, SysInv, Content, NodeOf, GenSame, TreeOf, WriteAt, WriteOutcome;
    SysGen(u.fs, o);
    o' := o;
    if offset + |data| > MAX_MAPPED {
      return Err(EFBIG), o;
    }
    var ri := u.ReadInode(inum);
    var ino := ri.value;
    if ino.generation != generation {
      return Err(ESTALE), o;
    }
    if ino.itype != TYPE_FILE {
      return Err(EINVAL), o;
    }
    r, o' := WriteRange(u, inum, ino, offset, data, now, o);
  }

  /** What synchronising the first bytes of a mapping does to the tree. */
  ghost function SyncEffect(fs: Fs, m: Mapping, data: Bytes): (Result<()>, Tree)
    requires m.inum as nat in TreeOf(fs)
  {
    if !WritesBack(m) then (Ok(()), TreeOf(fs))
    else
      var r := WriteOutcome(fs, m.inum, m.offset, |data|);
      if r.Err? then (Err(r.error), TreeOf(fs))
      else (Ok(()), WithContent(TreeOf(fs), m.inum, WriteAt(Content(fs, m.inum), m.offset, data)))
  }

  /** sync_mapping */
  method SyncMapping(u: Ufs, m: Mapping, length: nat, now: Times, ghost o: Owner) returns (r: Result<()>,
      ghost o': Owner)
    requires u.Valid() && SysInv(u.fs, o) && MappingsOk(TreeOf(u.fs), [m]) && m.inUse
    requires m.memory != null && length <= m.memory.Length && m.offset + m.memory.Length <= MAX_MAPPED
    modifies u`fs, u`sb, u.disk, u.clock
    ensures u.Valid() && SysInv(u.fs, o') && GenSame(old(u.fs), u.fs)
    ensures m.inum as nat in TreeOf(old(u.fs))
    ensures (r, TreeOf(u.fs)) == SyncEffect(old(u.fs), m, m.memory[..length])
            && (r.Ok? && WritesBack(m) ==> u.Durable())
  {
    hide Ufs.Valid, Ufs.Durable, SysInv, Content, NodeOf, GenSame, TreeOf, WriteAt, WriteOutcome;
    SysGen(u.fs, o);
    o' := o;
    assert [m][0] == m;
    MappedFile(u.fs, m);
    if m.flags == MAP_PRIVATE || !Writable(m.prot) {
      return Ok(()), o;
    }
    var data := m.memory[..length];
    var written;
    written, o' := WriteInodeRange(u, m.inum, m.generation, data, m.offset, now, o);
    if written.Err? {
      return Err(written.error), o';
    }
    u.SyncImage();
    return Ok(()), o';
  }

  lemma MappedFile(fs: Fs, m: Mapping)
    requires MappingsOk(TreeOf(fs), [m]) && m.inUse
    ensures m.inum as nat in TreeOf(fs) && m.inum < |fs.inodes| && Allocated(fs, m.inum)
    ensures fs.inodes[m.inum].itype == TYPE_FILE && fs.inodes[m.inum].generation == m.generation
  {
    hide NodeOf;
    assert [m][0] == m;
    NodeLinks(fs, m.inum);
  }

  /** Synchronising any mapping keeps all handles and mappings good. */
  lemma SyncKeeps(fs: Fs, m: Mapping, data: Bytes, ds: seq<Descriptor>, ms: seq<Mapping>)
    requires m.inum as nat in TreeOf(fs) && HandlesOk(TreeOf(fs), ds) && MappingsOk(TreeOf(fs), ms)
    ensures HandlesOk(SyncEffect(fs, m, data).1, ds) && MappingsOk(SyncEffect(fs, m, data).1, ms)
  {
    hide NodeOf, WriteAt, WriteOutcome, Content;
  }

  /** ufs_msync */
  method Msync(u: Ufs, maps: Mappings, address: array?<byte>, length: nat, now: Times, ghost o: Owner)
    returns (r: Result<()>, ghost o': Owner, ghost slot: nat)
    requires u.Valid() && SysInv(u.fs, o) && maps.Valid() && MappingsOk(TreeOf(u.fs), maps.table[..])
    modifies u`fs, u`sb, u.disk, u.clock
    ensures u.Valid() && SysInv(u.fs, o') && GenSame(old(u.fs), u.fs)
    ensures maps.Valid() && MappingsOk(TreeOf(u.fs), maps.table[..])
    ensures slot <= MAX_MAPPINGS
    ensures slot < MAX_MAPPINGS ==> old(maps.table[slot]).inUse && old(maps.table[slot]).memory == address
                                    && address != null && 0 < length <= address.Length
    ensures slot == MAX_MAPPINGS ==> r == Err(EINVAL) && TreeOf(u.fs) == TreeOf(old(u.fs))
                                     && (address == null || length == 0 || length > address.Length
                                         || NotMapped(old(maps.table[..]), address))
    ensures slot < MAX_MAPPINGS ==>
              old(maps.table[slot]).inum as nat in TreeOf(old(u.fs))
              && (r, TreeOf(u.fs)) == SyncEffect(old(u.fs), old(maps.table[slot]), address[..length])
              && (r.Ok? && WritesBack(old(maps.table[slot])) ==> u.Durable())
  {
    hide Ufs.Valid, Ufs.Durable, SysInv, Content, NodeOf, GenSame, TreeOf, WriteAt, WriteOutcome;
    SysGen(u.fs, o);
    o', slot := o, MAX_MAPPINGS;
    if address == null || length == 0 {
      return Err(EINVAL), o, MAX_MAPPINGS;
    }
    var index := maps.FindMapping(address);
    if index.Err? {
      return Err(EINVAL), o, MAX_MAPPINGS;
    }
    if length > address.Length {
      return Err(EINVAL), o, MAX_MAPPINGS;
    }
    ghost var fs := u.fs;
    var m := maps.table[index.value];
    OneMapping(TreeOf(u.fs), maps.table[..], index.value);
    r, o' := SyncMapping(u, m, length, now, o);
    slot := index.value;
    SyncKeepsMappings(fs, m, address[..length], maps.table[..]);
  }

  lemma OneMapping(t: Tree, ms: seq<Mapping>, k: nat)
    requires MappingsOk(t, ms) && k < |ms|
    ensures MappingsOk(t, [ms[k]])
  {
  }

  lemma SyncKeepsMappings(fs: Fs, m: Mapping, data: Bytes, ms: seq<Mapping>)
    requires m.inum as nat in TreeOf(fs) && MappingsOk(TreeOf(fs), ms)
    ensures MappingsOk(SyncEffect(fs, m, data).1, ms)
  {
    SyncKeeps(fs, m, data, [], ms);
  }

  /** ufs_munmap: synchronise the whole mapping, then forget it. */
  method Munmap(u: Ufs, maps: Mappings, address: array?<byte>, length: nat, now: Times, ghost o: Owner)
    returns (r: Result<()>, ghost o': Owner, ghost slot: nat)
    requires u.Valid() && SysInv(u.fs, o) && maps.Valid() && MappingsOk(TreeOf(u.fs), maps.table[..])
    modifies u`fs, u`sb, u.disk, u.clock, maps.table
    ensures u.Valid() && SysInv(u.fs, o') && GenSame(old(u.fs), u.fs)
    ensures maps.Valid() && MappingsOk(TreeOf(u.fs), maps.table[..])
    ensures slot <= MAX_MAPPINGS
    ensures slot < MAX_MAPPINGS ==> old(maps.table[slot]).inUse && old(maps.table[slot]).memory == address
                                    && address != null && 0 < length == address.Length
    ensures slot == MAX_MAPPINGS ==> r == Err(EINVAL) && TreeOf(u.fs) == TreeOf(old(u.fs))
                                     && (address == null || length == 0 || length != address.Length
                                         || NotMapped(old(maps.table[..]), address))
    ensures slot < MAX_MAPPINGS ==>
              old(maps.table[slot]).inum as nat in TreeOf(old(u.fs))
              && (r, TreeOf(u.fs)) == SyncEffect(old(u.fs), old(maps.table[slot]), address[..])
              && (r.Ok? && WritesBack(old(maps.table[slot])) ==> u.Durable())
    ensures maps.table[..] == if r.Ok? && slot < MAX_MAPPINGS then old(maps.table[..])[slot := UNMAPPED]
                              else old(maps.table[..])
  {
    hide Ufs.Valid, Ufs.Durable, SysInv, Content, NodeOf, GenSame, TreeOf, WriteAt, WriteOutcome;
    SysGen(u.fs, o);
    o', slot := o, MAX_MAPPINGS;
    if address == null || length == 0 {
      return Err(EINVAL), o, MAX_MAPPINGS;
    }
    var index := maps.FindMapping(address);
    if index.Err? {
      return Err(EINVAL), o, MAX_MAPPINGS;
    }
    if length != address.Length {
      return Err(EINVAL), o, MAX_MAPPINGS;
    }
    ghost var fs, ms := u.fs, maps.table[..];
    var m := maps.table[index.value];
    OneMapping(TreeOf(u.fs), ms, index.value);
    assert address[..length] == address[..];
    r, o' := SyncMapping(u, m, length, now, o);
    slot := index.value;
    SyncKeepsMappings(fs, m, address[..length], ms);
    if r.Ok? {
      maps.table[index.value] := UNMAPPED;
      assert maps.table[..] == ms[index.value := UNMAPPED];
    }
  }

  /** Mapping a range and synchronising it untouched leaves the old content, extended with zeros to
      the end of the range when the mapping is shared and writable. */
  lemma UntouchedSync(fs: Fs, m: Mapping, data: Bytes)
    requires m.inum as nat in TreeOf(fs) && WriteOutcome(fs, m.inum, m.offset, |data|).Ok?
    requires data == Window(Content(fs, m.inum), m.offset, |data|)
    ensures SyncEffect(fs, m, data)
            == (Ok(()), if WritesBack(m) then
                          WithContent(TreeOf(fs), m.inum,
                                      Resize(Content(fs, m.inum), Max(fs.inodes[m.inum].size, m.offset + |data|)))
                        else TreeOf(fs))
  {
    hide NodeOf, WriteAt, WriteOutcome, Window, Resize;
    WindowUntouched(Content(fs, m.inum), m.offset, |data|);
  }
}
