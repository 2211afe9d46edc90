/** Open files: the descriptor table and the reads and writes that refine one byte sequence per
    inode (src/file_io.c). */
module FileIo {
  import opened Layout
  import opened Encoding
  import opened Context
  import opened Ownership
  import opened FileContent
  import opened Truncate
  import opened RangeIo
  import opened Resolve
  import opened FileTree
  import opened Effects

  const MAX_OPEN_FILES: nat := 32
  const O_RDONLY: int := 1
  const O_WRONLY: int := 2
  const O_RDWR: int := 3
  const INT64_MAX: nat := 0x7FFF_FFFF_FFFF_FFFF

  type Offset = x: int | 0 <= x <= INT64_MAX

  datatype Descriptor = Descriptor(inUse: bool, inum: u32, generation: u32, offset: Offset, flags: int)

  const CLOSED := Descriptor(false, 0, 0, 0, 0)

  /** Bits 0 and 1 of the flags. */
  function AccessMode(flags: int): int { flags % 4 }

  predicate Appends(flags: int) { flags / 4 % 2 == 1 }

  predicate CanRead(d: Descriptor) { AccessMode(d.flags) != O_WRONLY }

  predicate CanWrite(d: Descriptor) { AccessMode(d.flags) != O_RDONLY }

  /** validate_open_flags */
  method ValidateOpenFlags(flags: int) returns (ok: bool)
    ensures ok <==> flags in {O_RDONLY, O_WRONLY, O_RDWR, O_WRONLY + 4, O_RDWR + 4}
  {
    var mode, unknown := AccessMode(flags), flags / 8 != 0;
    ok := !(unknown || (mode != O_RDONLY && mode != O_WRONLY && mode != O_RDWR)
            || (Appends(flags) && mode == O_RDONLY));
  }

  class Files {
    const table: array<Descriptor>

    constructor ()
      ensures fresh(table) && table.Length == MAX_OPEN_FILES
      ensures forall fd :: 0 <= fd < MAX_OPEN_FILES ==> table[fd] == CLOSED
    {
      table := new Descriptor[MAX_OPEN_FILES](_ => CLOSED);
    }

    ghost predicate Valid() { table.Length == MAX_OPEN_FILES }

    predicate InUse(fd: int)
      requires table.Length == MAX_OPEN_FILES
      reads table
    {
      0 <= fd < MAX_OPEN_FILES && table[fd].inUse
    }

    /** inode_is_open */
    method InodeIsOpen(inum: u32) returns (open: bool)
      requires Valid()
      ensures open <==> exists fd :: 0 <= fd < MAX_OPEN_FILES && table[fd].inUse && table[fd].inum == inum
    {
      for fd := 0 to MAX_OPEN_FILES
        invariant forall k :: 0 <= k < fd ==> !(table[k].inUse && table[k].inum == inum)
      {
        if table[fd].inUse && table[fd].inum == inum {
          return true;
        }
      }
      return false;
    }

    /** allocate_descriptor: the first free slot. */
    method AllocateDescriptor() returns (r: Result<nat>)
      requires Valid()
      ensures r.Ok? ==> r.value < MAX_OPEN_FILES && !table[r.value].inUse
                        && forall k :: 0 <= k < r.value ==> table[k].inUse
      ensures r.Err? ==> r == Err(EMFILE) && forall k :: 0 <= k < MAX_OPEN_FILES ==> table[k].inUse
    {
      for fd := 0 to MAX_OPEN_FILES
        invariant forall k :: 0 <= k < fd ==> table[k].inUse
      {
        if !table[fd].inUse {
          return Ok(fd);
        }
      }
      return Err(EMFILE);
    }

    /** ufs_close */
    method Close(fd: int) returns (r: Result<()>)
      requires Valid()
      modifies table
      ensures r == if 0 <= fd < MAX_OPEN_FILES && old(table[fd]).inUse then Ok(()) else Err(EBADF)
      ensures table[..] == if r.Ok? then old(table[..])[fd := CLOSED] else old(table[..])
    {
      if !InUse(fd) {
        return Err(EBADF);
      }
      table[fd] := CLOSED;
      return Ok(());
    }

    /** descriptor_table_reset */
    method Reset()
      requires Valid()
      modifies table
      ensures forall fd :: 0 <= fd < MAX_OPEN_FILES ==> table[fd] == CLOSED
    {
      forall fd | 0 <= fd < MAX_OPEN_FILES {
        table[fd] := CLOSED;
      }
    }
  }

  /** Every open descriptor refers to an allocated regular file with the recorded generation. */
  ghost predicate HandlesOk(t: Tree, ds: seq<Descriptor>) {
    forall fd :: 0 <= fd < |ds| && ds[fd].inUse ==>
      && ds[fd].inum as nat in t && t[ds[fd].inum as nat].kind == TYPE_FILE
      && t[ds[fd].inum as nat].generation == ds[fd].generation
  }

  lemma HandleAdded(t: Tree, ds: seq<Descriptor>, fd: nat, d: Descriptor)
    requires HandlesOk(t, ds) && fd < |ds|
    requires d.inum as nat in t && t[d.inum as nat].kind == TYPE_FILE && t[d.inum as nat].generation == d.generation
    ensures HandlesOk(t, ds[fd := d])
  {
  }

  // ---- open ----

  /** The permission bits an open asks for. */
  function Requested(flags: int): nat {
    (if AccessMode(flags) != O_WRONLY then R_OK else 0) + (if AccessMode(flags) != O_RDONLY then W_OK else 0)
  }

  ghost function OpenTarget(fs: Fs, acc: Access, path: Bytes, flags: int): Result<u32> {
    if flags !in {O_RDONLY, O_WRONLY, O_RDWR, O_WRONLY + 4, O_RDWR + 4} then Err(EINVAL)
    else
      var r := ResolvePath(fs, acc, path, false);
      if r.Err? then r
      else if r.value >= |fs.inodes| then Err(EINVAL)
      else if fs.inodes[r.value].itype == TYPE_DIR then Err(EISDIR)
      else if fs.inodes[r.value].itype != TYPE_FILE then Err(EINVAL)
      else if !acc(fs.inodes[r.value], Requested(flags)) then Err(EACCES)
      else r
  }

  /** ufs_open */
  method Open(u: Ufs, files: Files, path: Bytes, flags: int, acc: Access, ghost o: Owner) returns (r: Result<nat>)
    requires u.Valid() && SysInv(u.fs, o) && files.Valid() && HandlesOk(TreeOf(u.fs), files.table[..])
    modifies files.table
    ensures u.Valid() && HandlesOk(TreeOf(u.fs), files.table[..])
    ensures OpenTarget(u.fs, acc, path, flags).Err? ==> r == Err(OpenTarget(u.fs, acc, path, flags).error)
    ensures r.Err? && OpenTarget(u.fs, acc, path, flags).Ok? ==>
              r == Err(EMFILE) && forall fd :: 0 <= fd < MAX_OPEN_FILES ==> old(files.table[fd]).inUse
    ensures r.Err? ==> files.table[..] == old(files.table[..])
    ensures r.Ok? ==> var inum := OpenTarget(u.fs, acc, path, flags).value;
                      && r.value < MAX_OPEN_FILES && !old(files.table[r.value]).inUse
                      && inum < |u.fs.inodes| && files.table[..] == old(files.table[..])[
                           r.value := Descriptor(true, inum, u.fs.inodes[inum].generation, 0, flags)]
  {
    hide SysInv, ResolvePath, Ufs.Valid, NodeOf, Names, HandlesOk, TreeOf;
    SysNames(u.fs, o);
    var ok := ValidateOpenFlags(flags);
    if !ok {
      return Err(EINVAL);
    }
    var target := ResolvePathEx(u, path, FOLLOW_FINAL, acc, o);
    if target.Err? {
      return Err(target.error);
    }
    var inum := target.value;
    NodeLinks(u.fs, inum);
    NamesShape(u.fs, o);
    var ri := u.ReadInode(inum);
    var ino := ri.value;
    if ino.itype == TYPE_DIR {
      return Err(EISDIR);
    }
    if ino.itype != TYPE_FILE {
      return Err(EINVAL);
    }
    if !acc(ino, Requested(flags)) {
      return Err(EACCES);
    }
    var slot := files.AllocateDescriptor();
    if slot.Err? {
      return Err(EMFILE);
    }
    HandleAdded(TreeOf(u.fs), files.table[..], slot.value, Descriptor(true, inum, ino.generation, 0, flags));
    files.table[slot.value] := Descriptor(true, inum, ino.generation, 0, flags);
    return Ok(slot.value);
  }

  // ---- read ----

  /** The file behind a descriptor whose generation still matches. */
  ghost predicate Trusted(fs: Fs, d: Descriptor) {
    d.inUse ==> d.inum < |fs.inodes|
                && (fs.inodes[d.inum].generation == d.generation ==>
                      Allocated(fs, d.inum) && fs.inodes[d.inum].itype == TYPE_FILE)
  }

  ghost predicate TrustedAll(fs: Fs, ds: seq<Descriptor>) { forall fd :: 0 <= fd < |ds| ==> Trusted(fs, ds[fd]) }

  lemma HandleTrusted(fs: Fs, ds: seq<Descriptor>, fd: nat)
    requires HandlesOk(TreeOf(fs), ds) && fd < |ds| && ds[fd].inUse
    ensures Trusted(fs, ds[fd]) && ds[fd].inum < |fs.inodes| && Allocated(fs, ds[fd].inum)
    ensures fs.inodes[ds[fd].inum].itype == TYPE_FILE && fs.inodes[ds[fd].inum].generation == ds[fd].generation
  {
    hide NodeOf;
    NodeLinks(fs, ds[fd].inum);
  }

  /** The part of c that a read of count bytes at offset returns. */
  function ReadSlice(c: Bytes, offset: nat, count: nat): Bytes {
    if offset >= |c| then [] else c[offset..Min(offset + count, |c|)]
  }

  /** Why a descriptor cannot be used. */
  ghost function Refusal(fs: Fs, ds: seq<Descriptor>, fd: int, write: bool, count: nat): (r: Result<()>)
    requires TrustedAll(fs, ds)
    ensures r.Ok? ==> 0 <= fd < |ds| && ds[fd].inum < |fs.inodes|
  {
    if fd < 0 || fd >= |ds| || !ds[fd].inUse then Err(EBADF)
    else if (if write then !CanWrite(ds[fd]) else !CanRead(ds[fd])) then Err(EBADF)
    else if count == 0 then Ok(())
    else if count > INT64_MAX then Err(EINVAL)
    else if fs.inodes[ds[fd].inum].generation != ds[fd].generation then Err(EBADF)
    else Ok(())
  }

  /** The table after descriptor fd is moved. */
  function Moved(ds: seq<Descriptor>, fd: int, offset: int): seq<Descriptor> {
    if 0 <= fd < |ds| && 0 <= offset <= INT64_MAX then ds[fd := ds[fd].(offset := offset)] else ds
  }

  ghost function ReadOutcome(fs: Fs, ds: seq<Descriptor>, fd: int, count: nat): (r: Result<Bytes>)
    requires TrustedAll(fs, ds)
    ensures r.Ok? ==> 0 <= fd < |ds|
  {
    var no := Refusal(fs, ds, fd, false, count);
    if no.Err? then Err(no.error)
    else if count == 0 then Ok([])
    else Ok(ReadSlice(Content(fs, ds[fd].inum), ds[fd].offset, count))
  }

  /** Persist an inode with new time stamps through the journal. */
  method PersistTimes(u: Ufs, inum: u32, ino: Inode, times: Times, ghost o: Owner)
    requires u.Valid() && Current(u.fs, inum, ino, o) && DirsOk(u.fs)
    modifies u`fs, u.disk, u.clock
    ensures u.Valid() && FsInv(u.fs, o) && DirsOk(u.fs)
    ensures TreeOf(u.fs) == TreeOf(old(u.fs)) && GenSame(old(u.fs), u.fs) && u.Durable()
  {
    hide Ufs.Valid, Ufs.Durable, FsInv, Content, NodeOf, GenSame, DirsOk;
    var now := ino.(times := times);
    MetaTree(u.fs, o, inum, now);
    NodeLinks(u.fs, inum);
    SameLinks(TreeOf(u.fs), inum);
    var _ := u.PersistInode(inum, now);
  }

  /** ufs_read: a slice of the content, and the offset moves past it. */
  method Read(u: Ufs, files: Files, fd: int, count: nat, relatime: bool, now: Times,
      ghost o: Owner) returns (r: Result<Bytes>)
    requires u.Valid() && SysInv(u.fs, o) && files.Valid() && TrustedAll(u.fs, files.table[..])
    modifies u`fs, u.disk, u.clock, files.table
    ensures u.Valid() && SysInv(u.fs, o) && TreeOf(u.fs) == TreeOf(old(u.fs)) && GenSame(old(u.fs), u.fs)
    ensures r == ReadOutcome(old(u.fs), old(files.table[..]), fd, count)
    ensures files.table[..] == if r.Err? then old(files.table[..])
                               else Moved(old(files.table[..]), fd, old(files.table[..])[fd].offset + |r.value|)
  {
    hide Ufs.Valid, FsInv, Content, NodeOf, GenSame, DirsOk, TreeInv, Current;
    WellFormedInv(u.fs, o);
    GenReflexive(u.fs);
    ghost var ds := files.table[..];
    if !files.InUse(fd) {
      return Err(EBADF);
    }
    var d := files.table[fd];
    assert ds[fd] == d && Trusted(u.fs, ds[fd]) && ds[fd := d] == ds;
    if !CanRead(d) {
      return Err(EBADF);
    }
    if count == 0 {
      return Ok([]);
    }
    if count > INT64_MAX {
      return Err(EINVAL);
    }
    var ri := u.ReadInode(d.inum);
    var ino := ri.value;
    if ino.generation != d.generation {
      return Err(EBADF);
    }
    if d.offset >= ino.size {
      return Ok([]);
    }
    var available := Min(count, ino.size - d.offset);
    SameCurrent(u.fs, d.inum, o);
    FileLimit(u.fs, o, d.inum);
    var data := ReadChunks(u, d.inum, ino, d.offset, available, o);
    files.table[fd] := d.(offset := d.offset + available);
    if relatime {
      PersistTimes(u, d.inum, ino, now, o);
    }
    return Ok(data);
  }

  lemma FileLimit(fs: Fs, o: Owner, i: nat)
    requires FsInv(fs, o) && Allocated(fs, i)
    ensures i < |fs.inodes| && fs.inodes[i].size <= MAX_FILE_BLOCKS * BLOCK_SIZE < INT64_MAX
  {
    hide Owned, Dense, TailZero;
    assert InodeOk(fs, i);
  }

  // ---- write ----

  /** The content after buf is written at start, zero-padded if that lies past the end. */
  function WriteAt(c: Bytes, start: nat, buf: Bytes): (r: Bytes)
    ensures |r| == Max(|c|, start + |buf|)
  {
    Splice(Resize(c, Max(|c|, start + |buf|)), start, buf)
  }

  /** Whether a write can be carried out once its start is known. */
  ghost function WriteOutcome(fs: Fs, i: nat, start: nat, count: nat): Result<nat>
    requires i < |fs.inodes|
  {
    var ino := fs.inodes[i];
    if start + count > INT64_MAX then Err(EFBIG)
    else if start + count <= ino.size then Ok(count)
    else if start + count > MAX_FILE_BLOCKS * BLOCK_SIZE then Err(EFBIG)
    else if Cost(CeilDiv(start + count, BLOCK_SIZE)) - Cost(ino.blockCount) > fs.freeBlocks then Err(ENOSPC)
    else Ok(count)
  }

  /** Grow if needed, then copy the buffer in: the common part of write and of syncing a mapping. */
  method WriteRange(u: Ufs, inum: u32, ino: Inode, start: nat, buf: Bytes, now: Times, ghost o: Owner)
    returns (r: Result<nat>, ghost o': Owner)
    requires u.Valid() && SysInv(u.fs, o) && Allocated(u.fs, inum) && inum < |u.fs.inodes| && ino == u.fs.inodes[inum]
    requires ino.itype == TYPE_FILE && start + |buf| <= INT64_MAX
    modifies u`fs, u`sb, u.disk, u.clock
    ensures u.Valid() && SysInv(u.fs, o') && GenSame(old(u.fs), u.fs)
    ensures r == WriteOutcome(old(u.fs), inum, start, |buf|) && (r.Ok? ==> u.Durable())
    ensures inum as nat in TreeOf(old(u.fs)) && TreeOf(old(u.fs))[inum as nat].content == Content(old(u.fs), inum)
    ensures TreeOf(u.fs) == if r.Err? then TreeOf(old(u.fs))
                            else WithContent(TreeOf(old(u.fs)), inum, WriteAt(Content(old(u.fs), inum), start, buf))
  {
    hide Ufs.Valid, Ufs.Durable, FsInv, Content, NodeOf, GenSame, DirsOk, TreeInv, Current, Cost, Resized, SameStore,
      OtherContents,
      Splice, Resize;
    ghost var fs := u.fs;
    WellFormedInv(fs, o);
    NodeLinks(fs, inum);
    var mine := ino;
    o' := o;
    if start + |buf| > ino.size {
      var rt;
      rt, mine, o' := TruncateInode(u, inum, ino, start + |buf|, o);
      WellFormedInv(u.fs, o');
      if rt.Err? {
        FailedTree(fs, u.fs, o);
        return Err(rt.error), o';
      }
      ResizedCurrent(fs, u.fs, o', inum, ino, mine, start + |buf|);
    } else {
      SameCurrent(fs, inum, o);
      WellFormedInv(fs, o);
      GrownSelf(fs, inum);
    }
    ghost var fs1 := u.fs;
    WriteChunks(u, inum, mine, start, buf, o');
    WrittenTree(fs, fs1, u.fs, o', inum, mine, start, buf);
    ghost var fs2 := u.fs;
    PersistTimes(u, inum, mine, now, o');
    GenTrans(fs, fs2, u.fs);
    ContentFree(TreeOf(fs), inum, WriteAt(Content(fs, inum), start, buf));
    return Ok(|buf|), o';
  }

  /** The first step of a write: the file long enough, nothing else changed. */
  ghost predicate Sized(fs: Fs, fs1: Fs, inum: nat, mine: Inode, size: nat) {
    && WellFormed(fs) && WellFormed(fs1) && inum < MAX_INODES && fs1.ibits == fs.ibits
    && fs1.inodes == fs.inodes[inum := mine]
    && mine.itype == fs.inodes[inum].itype && mine.links == fs.inodes[inum].links
    && mine.generation == fs.inodes[inum].generation && mine.size == size
    && Content(fs1, inum) == Resize(Content(fs, inum), size) && OtherContents(fs, fs1, inum)
  }

  lemma GrownSelf(fs: Fs, inum: nat)
    requires WellFormed(fs) && inum < MAX_INODES
    ensures Sized(fs, fs, inum, fs.inodes[inum], fs.inodes[inum].size)
  {
    hide ByteAt;
    var c := Content(fs, inum);
    assert c[..|c|] == c;
  }

  lemma ResizedCurrent(fs: Fs, fs1: Fs, o1: Owner, inum: nat, ino: Inode, mine: Inode, size: nat)
    requires FsInv(fs1, o1) && Resized(fs, fs1, inum, ino, mine, size) && Allocated(fs, inum)
    requires inum < |fs.inodes| && ino == fs.inodes[inum]
    requires inum < |fs1.inodes|
    requires Content(fs1, inum) == Resize(Content(fs, inum), size)
    requires OtherContents(fs, fs1, inum)
    ensures Current(fs1, inum, mine, o1) && Sized(fs, fs1, inum, mine, size)
  {
    hide FsInv, Content, OtherContents, Resize;
  }

  lemma FailedTree(fs: Fs, fs': Fs, o: Owner)
    requires SysInv(fs, o) && FsInv(fs', o) && (fs' == fs || SameStore(fs, fs', o))
    ensures SysInv(fs', o) && TreeOf(fs') == TreeOf(fs) && GenSame(fs, fs')
  {
    hide FsInv, TreeInv, SameStore, DirsOk, NodeOf;
    WellFormedInv(fs, o);
    if fs' == fs {
      GenReflexive(fs);
    } else {
      SameStoreTree(fs, fs', o);
    }
  }

  lemma GenTrans(a: Fs, b: Fs, c: Fs)
    requires GenSame(a, b) && GenSame(b, c)
    ensures GenSame(a, c)
  {
  }

  lemma WrittenTree(fs: Fs, fs1: Fs, fs2: Fs, o2: Owner, inum: u32, mine: Inode, start: nat, buf: Bytes)
    requires SysInv(fs, o2) || DirsOk(fs)
    requires Allocated(fs, inum) && inum < |fs.inodes| && fs.inodes[inum].itype == TYPE_FILE
    requires Sized(fs, fs1, inum, mine, Max(fs.inodes[inum].size, start + |buf|))
    requires Current(fs2, inum, mine, o2) && fs2 == fs1.(data := fs2.data)
    requires Content(fs2, inum) == Splice(Content(fs1, inum), start, buf) && OtherContents(fs1, fs2, inum)
    ensures DirsOk(fs2) && GenSame(fs, fs2)
    ensures inum as nat in TreeOf(fs)
    ensures TreeOf(fs2) == WithContent(TreeOf(fs), inum, WriteAt(Content(fs, inum), start, buf))
  {
    hide FsInv, Content, TreeInv, NodeOf, DirsOk, OtherContents, Splice, Resize, GenSame;
    OthersTrans(fs, fs1, fs2, inum);
    CurrentWell(fs2, inum, mine, o2);
    FileTreeStep(fs, fs2, inum);
  }

  lemma CurrentWell(fs: Fs, i: nat, ino: Inode, o: Owner)
    requires Current(fs, i, ino, o)
    ensures WellFormed(fs)
  {
    hide FsInv;
    WellFormedInv(fs, o);
  }

  /** Where a write starts. */
  ghost function WriteStart(fs: Fs, d: Descriptor): nat
    requires d.inum < |fs.inodes|
  {
    if Appends(d.flags) then fs.inodes[d.inum].size else d.offset
  }

  /** The result of a write, the offset it leaves, and the tree it leaves. */
  ghost function WriteEffect(fs: Fs, ds: seq<Descriptor>, fd: int, buf: Bytes): (Result<nat>, seq<Descriptor>, Tree)
    requires TrustedAll(fs, ds)
  {
    var no, t := Refusal(fs, ds, fd, true, |buf|), TreeOf(fs);
    if no.Err? then (Err(no.error), ds, t)
    else if buf == [] then (Ok(0), ds, t)
    else
      var i, start := ds[fd].inum, WriteStart(fs, ds[fd]);
      var r := WriteOutcome(fs, i, start, |buf|);
      if r.Err? then (r, Moved(ds, fd, start), t)
      else
        (r, Moved(ds, fd, start + |buf|),
         if i as nat in t then WithContent(t, i, WriteAt(Content(fs, i), start, buf)) else t)
  }

  function WithContent(t: Tree, i: nat, content: Bytes): Tree
    requires i in t
  {
    t[i := t[i].(content := content)]
  }

  /** ufs_write: splice the buffer into the content at the offset, or at the end with O_APPEND. */
  method Write(u: Ufs, files: Files, fd: int, buf: Bytes, now: Times, ghost o: Owner)
    returns (r: Result<nat>, ghost o': Owner)
    requires u.Valid() && SysInv(u.fs, o) && files.Valid() && TrustedAll(u.fs, files.table[..])
    modifies u`fs, u`sb, u.disk, u.clock, files.table
    ensures u.Valid() && SysInv(u.fs, o') && GenSame(old(u.fs), u.fs)
    ensures (r, files.table[..], TreeOf(u.fs)) == WriteEffect(old(u.fs), old(files.table[..]), fd, buf)
    ensures r.Ok? && buf != [] ==> u.Durable()
  {
    hide Ufs.Valid, Ufs.Durable, FsInv, Content, NodeOf, GenSame, DirsOk, TreeInv, Current, Cost, WriteAt, TreeOf,
      WriteOutcome;
    WellFormedInv(u.fs, o);
    GenReflexive(u.fs);
    o' := o;
    ghost var ds := files.table[..];
    if !files.InUse(fd) {
      return Err(EBADF), o;
    }
    var d := files.table[fd];
    assert ds[fd] == d && Trusted(u.fs, ds[fd]) && ds[fd := d] == ds;
    if !CanWrite(d) {
      return Err(EBADF), o;
    }
    if |buf| == 0 {
      return Ok(0), o;
    }
    if |buf| > INT64_MAX {
      return Err(EINVAL), o;
    }
    var ri := u.ReadInode(d.inum);
    var ino := ri.value;
    if ino.generation != d.generation {
      return Err(EBADF), o;
    }
    FileLimit(u.fs, o, d.inum);
    NodeLinks(u.fs, d.inum);
    if Appends(d.flags) {
      files.table[fd] := d.(offset := ino.size);
    }
    var start: nat := files.table[fd].offset;
    assert d.(offset := d.offset) == d;
    assert files.table[..] == Moved(ds, fd, start);
    TooFar(u.fs, d.inum, start, |buf|);
    if start + |buf| > INT64_MAX {
      return Err(EFBIG), o;
    }
    ghost var fs := u.fs;
    assert start == WriteStart(fs, d) && Refusal(fs, ds, fd, true, |buf|).Ok?;
    r, o' := WriteRange(u, d.inum, ino, start, buf, now, o);
    if r.Ok? {
      files.table[fd] := d.(offset := start + |buf|);
      assert files.table[..] == Moved(ds, fd, start + |buf|);
      assert TreeOf(u.fs) == WithContent(TreeOf(fs), d.inum, WriteAt(Content(fs, d.inum), start, buf));
    }
    assert r == WriteOutcome(fs, d.inum, start, |buf|);
  }

  lemma TooFar(fs: Fs, i: nat, start: nat, count: nat)
    requires i < |fs.inodes|
    ensures start + count > INT64_MAX ==> WriteOutcome(fs, i, start, count) == Err(EFBIG)
    ensures WriteOutcome(fs, i, start, count).Ok? ==> WriteOutcome(fs, i, start, count) == Ok(count)
  {
  }

  /** Reads, writes and seeks keep every handle good. */
  lemma HandlesKept(fs: Fs, ds: seq<Descriptor>, fd: int, offset: int, buf: Bytes)
    requires HandlesOk(TreeOf(fs), ds)
    ensures TrustedAll(fs, ds) && HandlesOk(TreeOf(fs), Moved(ds, fd, offset))
    ensures HandlesOk(WriteEffect(fs, ds, fd, buf).2, WriteEffect(fs, ds, fd, buf).1)
  {
    hide NodeOf, WriteAt, WriteOutcome, Content;
    forall k | 0 <= k < |ds| && ds[k].inUse ensures Trusted(fs, ds[k]) {
      HandleTrusted(fs, ds, k);
    }
  }

  /** With good handles the stale-generation check never fires: a use is refused only for the
      descriptor number, the access mode or the size. */
  lemma NeverStale(fs: Fs, ds: seq<Descriptor>, fd: int, write: bool, count: nat)
    requires HandlesOk(TreeOf(fs), ds)
    ensures TrustedAll(fs, ds)
    ensures Refusal(fs, ds, fd, write, count).Ok? <==>
              0 <= fd < |ds| && ds[fd].inUse && (if write then CanWrite(ds[fd]) else CanRead(ds[fd]))
              && count <= INT64_MAX
  {
    HandlesKept(fs, ds, fd, 0, []);
    if 0 <= fd < |ds| && ds[fd].inUse {
      HandleTrusted(fs, ds, fd);
    }
  }

  /** When a write fails, its descriptor is left alone exactly if the failure came before the append
      position was taken, or the descriptor does not append, or it already stood at the end. */
  lemma FailedWriteMoves(fs: Fs, o: Owner, ds: seq<Descriptor>, fd: int, buf: Bytes)
    requires FsInv(fs, o) && TrustedAll(fs, ds) && WriteEffect(fs, ds, fd, buf).0.Err?
    ensures WriteEffect(fs, ds, fd, buf).1 == ds
            <==> || Refusal(fs, ds, fd, true, |buf|).Err?
                 || !Appends(ds[fd].flags)
                 || ds[fd].offset == fs.inodes[ds[fd].inum].size
  {
    hide WriteOutcome, TreeOf, WriteAt, Content, FsInv;
    if Refusal(fs, ds, fd, true, |buf|).Ok? && buf != [] {
      var d, start := ds[fd], WriteStart(fs, ds[fd]);
      FileLimit(fs, o, d.inum);
      assert Moved(ds, fd, start)[fd].offset == start;
      if start == d.offset {
        assert d.(offset := start) == d;
      }
    }
  }

  /** An input that shows it: appending too much to any file that is not empty, from offset 0. */
  lemma FailedAppend(fs: Fs, o: Owner, i: u32) returns (ds: seq<Descriptor>, buf: Bytes)
    requires FsInv(fs, o) && Allocated(fs, i) && i < |fs.inodes| && fs.inodes[i].itype == TYPE_FILE
             && fs.inodes[i].size > 0
    ensures TrustedAll(fs, ds) && |ds| == 1 && HandlesOk(TreeOf(fs), ds)
    ensures WriteEffect(fs, ds, 0, buf).0 == Err(EFBIG) && WriteEffect(fs, ds, 0, buf).1 != ds
    ensures WriteEffect(fs, ds, 0, buf).1[0].offset == fs.inodes[i].size
  {
    hide NodeOf, FsInv, Content;
    FileLimit(fs, o, i);
    NodeLinks(fs, i);
    ds := [Descriptor(true, i, fs.inodes[i].generation, 0, O_WRONLY + 4)];
    buf := seq(MAX_FILE_BLOCKS * BLOCK_SIZE, _ => 0);
    assert Appends(ds[0].flags) && AccessMode(ds[0].flags) == O_WRONLY;
    assert Trusted(fs, ds[0]);
    assert Refusal(fs, ds, 0, true, |buf|).Ok?;
    FailedWriteMoves(fs, o, ds, 0, buf);
  }

  // ---- truncate by path ----

  ghost function TruncateOutcome(fs: Fs, acc: Access, path: Bytes, size: nat): (x: Result<u32>)
    ensures x.Ok? ==> x.value < |fs.inodes|
  {
    var r := ResolvePath(fs, acc, path, false);
    if r.Err? then r
    else if r.value >= |fs.inodes| then Err(EINVAL)
    else if fs.inodes[r.value].itype == TYPE_DIR then Err(EISDIR)
    else if fs.inodes[r.value].itype != TYPE_FILE then Err(EINVAL)
    else if !acc(fs.inodes[r.value], W_OK) then Err(EACCES)
    else if size > MAX_FILE_BLOCKS * BLOCK_SIZE then Err(EFBIG)
    else if Cost(CeilDiv(size, BLOCK_SIZE)) - Cost(fs.inodes[r.value].blockCount) > fs.freeBlocks then Err(ENOSPC)
    else r
  }

  ghost predicate ContentIs(t: Tree, t': Tree, i: nat, content: Bytes) {
    i in t && t[i].kind == TYPE_FILE && t' == WithContent(t, i, content)
  }

  /** ufs_truncate: the content cut or extended with zeros. */
  method TruncatePath(u: Ufs, path: Bytes, size: u64, now: Times, acc: Access, ghost o: Owner)
    returns (r: Result<()>, ghost o': Owner)
    requires u.Valid() && SysInv(u.fs, o)
    modifies u`fs, u`sb, u.disk, u.clock
    ensures u.Valid() && SysInv(u.fs, o') && GenSame(old(u.fs), u.fs)
    ensures var x := TruncateOutcome(old(u.fs), acc, path, size);
            && r == (if x.Err? then Err(x.error) else Ok(()))
            && (x.Err? ==> TreeOf(u.fs) == TreeOf(old(u.fs)))
            && (x.Ok? ==> u.Durable() && ContentIs(TreeOf(old(u.fs)), TreeOf(u.fs), x.value,
                                                   Resize(Content(old(u.fs), x.value), size)))
  {
    hide Ufs.Valid, Ufs.Durable, FsInv, Content, NodeOf, GenSame, DirsOk, TreeInv, Current, Cost, Resized, SameStore,
      OtherContents,
      Resize, ResolvePath, Names, TreeOf;
    ghost var fs := u.fs;
    o' := o;
    WellFormedInv(fs, o);
    GenReflexive(fs);
    SysNames(fs, o);
    var target := ResolvePathEx(u, path, FOLLOW_FINAL, acc, o);
    if target.Err? {
      return Err(target.error), o;
    }
    var inum := target.value;
    NodeLinks(fs, inum);
    var ri := u.ReadInode(inum);
    var ino := ri.value;
    if ino.itype == TYPE_DIR {
      return Err(EISDIR), o;
    }
    if ino.itype != TYPE_FILE {
      return Err(EINVAL), o;
    }
    if !acc(ino, W_OK) {
      return Err(EACCES), o;
    }
    var rt, mine;
    rt, mine, o' := TruncateInode(u, inum, ino, size, o);
    WellFormedInv(u.fs, o');
    if rt.Err? {
      FailedTree(fs, u.fs, o);
      return Err(rt.error), o';
    }
    ResizedCurrent(fs, u.fs, o', inum, ino, mine, size);
    SizedTree(fs, u.fs, inum, mine, size);
    ghost var fs1 := u.fs;
    PersistTimes(u, inum, mine, now, o');
    GenTrans(fs, fs1, u.fs);
    ContentFree(TreeOf(fs), inum, Resize(Content(fs, inum), size));
    return Ok(()), o';
  }

  lemma SizedTree(fs: Fs, fs1: Fs, inum: nat, mine: Inode, size: nat)
    requires DirsOk(fs) && Allocated(fs, inum) && inum < |fs.inodes| && fs.inodes[inum].itype == TYPE_FILE
    requires Sized(fs, fs1, inum, mine, size)
    ensures DirsOk(fs1) && GenSame(fs, fs1)
    ensures ContentIs(TreeOf(fs), TreeOf(fs1), inum, Resize(Content(fs, inum), size))
  {
    hide Content, NodeOf, DirsOk, OtherContents, Resize, GenSame;
    FileTreeStep(fs, fs1, inum);
    NodeLinks(fs, inum);
  }

  // ---- seek ----

  /** The conversion of an unsigned 64-bit number to off_t. */
  function AsOffset(x: int): int { if x > INT64_MAX then x - 0x1_0000_0000_0000_0000 else x }

  /** add_seek_offset: refuses a sum that overflows upwards or is negative, for any base and change. */
  method AddSeekOffset(base: u64, change: int) returns (r: Result<int>)
    requires -(INT64_MAX as int) - 1 <= change <= INT64_MAX
    ensures r == if base + change < 0 || (change >= 0 && base + change > INT64_MAX) then Err(EINVAL)
                 else Ok(AsOffset(base + change))
    ensures base <= INT64_MAX ==> (r.Ok? <==> 0 <= base + change <= INT64_MAX) && (r.Ok? ==> r.value == base + change)
  {
    if change >= 0 {
      if base > INT64_MAX - change {
        return Err(EINVAL);
      }
      return Ok(AsOffset(base + change));
    }
    var magnitude: u64 := -(change + 1) + 1;
    if magnitude > base {
      return Err(EINVAL);
    }
    return Ok(AsOffset(base - magnitude));
  }

  datatype Whence = SeekSet | SeekCur | SeekEnd | SeekOther

  ghost function SeekOutcome(fs: Fs, ds: seq<Descriptor>, fd: int, change: int, whence: Whence): Result<int>
    requires TrustedAll(fs, ds)
  {
    if fd < 0 || fd >= |ds| || !ds[fd].inUse || fs.inodes[ds[fd].inum].generation != ds[fd].generation then Err(EBADF)
    else
      var target := change + if whence == SeekCur then ds[fd].offset
                             else if whence == SeekEnd then fs.inodes[ds[fd].inum].size else 0;
      if whence == SeekOther || target < 0 || target > INT64_MAX then Err(EINVAL) else Ok(target)
  }

  /** ufs_seek */
  method Seek(u: Ufs, files: Files, fd: int, change: int, whence: Whence, ghost o: Owner) returns (r: Result<int>)
    requires u.Valid() && SysInv(u.fs, o) && files.Valid() && TrustedAll(u.fs, files.table[..])
    requires -(INT64_MAX as int) - 1 <= change <= INT64_MAX
    modifies files.table
    ensures u.Valid()
    ensures r == SeekOutcome(old(u.fs), old(files.table[..]), fd, change, whence)
    ensures files.table[..] == if r.Err? then old(files.table[..]) else Moved(old(files.table[..]), fd, r.value)
  {
    hide Ufs.Valid, SysInv;
    ghost var ds := files.table[..];
    if !files.InUse(fd) {
      return Err(EBADF);
    }
    var d := files.table[fd];
    assert ds[fd] == d && Trusted(u.fs, ds[fd]);
    SysLimit(u.fs, o, d.inum);
    var ri := u.ReadInode(d.inum);
    var ino := ri.value;
    if ino.generation != d.generation {
      return Err(EBADF);
    }
    var base: u64;
    match whence {
      case SeekSet => base := 0;
      case SeekCur => base := d.offset;
      case SeekEnd => base := ino.size;
      case SeekOther => return Err(EINVAL);
    }
    r := AddSeekOffset(base, change);
    if r.Ok? {
      files.table[fd] := d.(offset := r.value);
    }
  }

  lemma SysLimit(fs: Fs, o: Owner, i: nat)
    requires SysInv(fs, o)
    ensures WellFormed(fs) && (Allocated(fs, i) ==> i < |fs.inodes| && fs.inodes[i].size <= INT64_MAX)
  {
    hide FsInv, TreeInv, DirsOk;
    WellFormedInv(fs, o);
    if Allocated(fs, i) {
      FileLimit(fs, o, i);
    }
  }
}
