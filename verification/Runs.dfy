/** Whole runs of a process: any sequence of calls of the operations, as coded, on a mounted file
    system with its two tables. */
module Runs {
  import opened Layout
  import opened Encoding
  import opened Disk
  import opened Journal
  import opened CrashSafety
  import opened Context
  import opened Allocator
  import opened Ownership
  import opened FileContent
  import opened Truncate
  import opened Paths
  import opened Directory
  import opened Resolve
  import opened FileTree
  import opened Effects
  import opened FileIo
  import opened Mmap
  import opened Namespace
  import opened Mounting

  // ---- calls ----

  type Change = x: int | -(INT64_MAX as int) - 1 <= x <= INT64_MAX

  /** A call of the public interface. Strings are C strings and end at their first NUL; a mapping is
      named by its slot, any other address by a slot not in use. */
  datatype Command =
      Create(path: Bytes, meta: Meta)
    | Mkdir(path: Bytes, meta: Meta)
    | RmdirAt(path: Bytes)
    | UnlinkAt(path: Bytes)
    | LinkAt(existing: Bytes, path: Bytes)
    | SymlinkAt(target: Bytes, path: Bytes, meta: Meta)
    | ReadlinkAt(path: Bytes, count: nat)
    | TruncateAt(path: Bytes, size: u64)
    | OpenAt(path: Bytes, flags: int)
    | CloseFd(fd: int)
    | ReadFd(fd: int, count: nat)
    | WriteFd(fd: int, data: Bytes)
    | SeekFd(fd: int, change: Change, whence: Whence)
    | MapFd(fd: int, length: nat, prot: int, flags: int, offset: int)
    | Store(slot: nat, at: nat, value: byte)
    | MsyncSlot(slot: nat, length: nat)
    | MunmapSlot(slot: nat, length: nat)

  /** A call with what it takes from its surroundings: permissions and the clock. */
  datatype Call = Call(command: Command, acc: Access, now: Times, relatime: bool)

  /** A process between two calls. */
  datatype Snapshot = Snapshot(fs: Fs, files: seq<Descriptor>, maps: seq<Mapping>)

  /** The file system is sound and every handle and mapping is good. */
  ghost predicate Good(s: Snapshot) {
    (exists o :: SysInv(s.fs, o)) && HandlesOk(TreeOf(s.fs), s.files) && MappingsOk(TreeOf(s.fs), s.maps)
  }

  ghost predicate Ready(u: Ufs, files: Files, maps: Mappings, o: Owner)
    reads u, u.disk, u.clock, files.table, maps, maps.table
  {
    && u.Valid() && SysInv(u.fs, o) && files.Valid() && maps.Valid()
    && HandlesOk(TreeOf(u.fs), files.table[..]) && MappingsOk(TreeOf(u.fs), maps.table[..])
  }

  ghost function Now(u: Ufs, files: Files, maps: Mappings): Snapshot
    reads u, files.table, maps.table
  {
    Snapshot(u.fs, files.table[..], maps.table[..])
  }

  /** The arrays behind the mappings in use. */
  ghost function Memories(ms: seq<Mapping>): set<object> {
    set k | 0 <= k < |ms| && ms[k].memory != null :: ms[k].memory as object
  }

  // ---- what keeps handles and mappings good ----

  /** No inode goes, or changes its type or generation. */
  ghost predicate Keeps(t: Tree, t': Tree) {
    forall i :: i in t ==> i in t' && t'[i].kind == t[i].kind && t'[i].generation == t[i].generation
  }

  lemma KeepsGood(t: Tree, t': Tree, ds: seq<Descriptor>, ms: seq<Mapping>)
    requires Keeps(t, t') && HandlesOk(t, ds) && MappingsOk(t, ms)
    ensures HandlesOk(t', ds) && MappingsOk(t', ms)
  {
  }

  lemma EffectsKeep(t: Tree, t': Tree, d: nat, name: Name, i: u32, node: Node, content: Bytes)
    ensures t == t' ==> Keeps(t, t')
    ensures Entered(t, t', d, name, i, node) ==> Keeps(t, t')
    ensures LinkedTo(t, t', d, name, i) ==> Keeps(t, t')
    ensures ContentIs(t, t', i, content) ==> Keeps(t, t')
  {
    hide GoodName, NulFree, NewNodeOk;
  }

  lemma WriteKeeps(fs: Fs, ds: seq<Descriptor>, fd: int, buf: Bytes)
    requires TrustedAll(fs, ds)
    ensures Keeps(TreeOf(fs), WriteEffect(fs, ds, fd, buf).2)
  {
    hide NodeOf, WriteAt, WriteOutcome, Content;
  }

  lemma SyncEffectKeeps(fs: Fs, m: Mapping, data: Bytes)
    requires m.inum as nat in TreeOf(fs)
    ensures Keeps(TreeOf(fs), SyncEffect(fs, m, data).1)
  {
    hide NodeOf, WriteAt, WriteOutcome, Content;
  }

  lemma ReadyParts(u: Ufs, files: Files, maps: Mappings, o: Owner)
    requires Ready(u, files, maps, o)
    ensures u.Valid() && SysInv(u.fs, o) && files.Valid() && maps.Valid() && GenStep(u.fs, u.fs)
    ensures HandlesOk(TreeOf(u.fs), files.table[..]) && MappingsOk(TreeOf(u.fs), maps.table[..])
    ensures TrustedAll(u.fs, files.table[..])
  {
    hide Ufs.Valid, SysInv, TreeOf, SlotsOk, GenStep, GenSame, MappingsOk, HandlesOk, TrustedAll;
    HandlesKept(u.fs, files.table[..], 0, 0, []);
    SysGen(u.fs, o);
    GenSameStep(u.fs, u.fs);
  }

  // ---- one call ----

  /** create, mkdir and symlink. */
  method MakeCall(u: Ufs, files: Files, maps: Mappings, c: Call, ghost o: Owner) returns (ghost o': Owner)
    requires Ready(u, files, maps, o) && (c.command.Create? || c.command.Mkdir? || c.command.SymlinkAt?)
    modifies u`fs, u`sb, u.disk
    ensures Ready(u, files, maps, o') && GenStep(old(u.fs), u.fs)
  {
    hide Ufs.Valid, SysInv, TreeOf, GenStep, Place, SymlinkOutcome, HandlesOk, MappingsOk, SlotsOk, Entered, Keeps,
      NulFree, FirstFree, DirFull, NextGeneration;
    ReadyParts(u, files, maps, o);
    ghost var fs, t := u.fs, TreeOf(u.fs);
    var path := CString(c.command.path);
    var r;
    ghost var i, kind, content;
    match c.command {
      case Create(_, meta) =>
        kind, content := TYPE_FILE, [];
        r, o', i := CreateNode(u, path, TYPE_FILE, meta, c.now, c.acc, o);
      case Mkdir(_, meta) =>
        kind, content := TYPE_DIR, [];
        r, o', i := CreateNode(u, path, TYPE_DIR, meta, c.now, c.acc, o);
      case SymlinkAt(target, _, meta) =>
        kind, content := TYPE_SYMLINK, CString(target);
        r, o', i := Symlink(u, CString(target), path, meta, c.now, c.acc, o);
    }
    if r.Err? {
      assert TreeOf(u.fs) == t;
      EffectsKeep(t, t, 0, [], 0, Node(0, 0, 0, [], map[]), []);
    } else {
      ghost var p := Place(fs, c.acc, path, false).value;
      ghost var node := Node(kind, 1, NextGeneration(fs.inodes[i].generation), content, map[]);
      EffectsKeep(t, TreeOf(u.fs), p.0, p.1, i, node, []);
    }
    KeepsGood(t, TreeOf(u.fs), files.table[..], maps.table[..]);
  }

  /** rmdir and unlink. */
  method RemoveCall(u: Ufs, files: Files, maps: Mappings, c: Call, ghost o: Owner) returns (ghost o': Owner)
    requires Ready(u, files, maps, o) && (c.command.RmdirAt? || c.command.UnlinkAt?)
    modifies u`fs, u`sb, u.disk
    ensures Ready(u, files, maps, o') && GenStep(old(u.fs), u.fs)
  {
    hide Ufs.Valid, SysInv, TreeOf, GenStep, GenSame, Place, HandlesOk, MappingsOk, SlotsOk, Dropped, Busy, NulFree,
      Dir;
    ReadyParts(u, files, maps, o);
    ghost var fs, t := u.fs, TreeOf(u.fs);
    var r;
    match c.command {
      case RmdirAt(path) => r, o' := Rmdir(u, CString(path), c.now, c.acc, o);
      case UnlinkAt(path) => r, o' := Unlink(u, files, maps, CString(path), c.now, c.acc, o);
    }
    GenSameStep(fs, u.fs);
    if r.Ok? {
      ghost var p := Place(fs, c.acc, CString(c.command.path), true).value;
      RemovedTarget(fs, o, p.0, p.1, TreeOf(u.fs));
      DropKeepsHandles(t, TreeOf(u.fs), p.0, p.1, files.table[..], maps.table[..]);
    }
  }

  /** The node behind an entry has the type its inode has. */
  lemma RemovedTarget(fs: Fs, o: Owner, d: u32, name: Name, t': Tree)
    requires SysInv(fs, o) && Dropped(TreeOf(fs), t', d, name) && d < |fs.inodes| && fs.inodes[d].itype == TYPE_DIR
    ensures name in Dir(fs, d) && Dir(fs, d)[name].inum < |fs.inodes|
    ensures var i := Dir(fs, d)[name].inum as nat;
            d as nat in TreeOf(fs) && TreeOf(fs)[d as nat].entries == Dir(fs, d)
            && i in TreeOf(fs) && TreeOf(fs)[i].kind == fs.inodes[i].itype
  {
    hide SysInv, Dir, NodeOf, Unlinked;
    NodeLinks(fs, d);
    NodeLinks(fs, Dir(fs, d)[name].inum);
  }

  /** link, readlink and truncate. */
  method PathCall(u: Ufs, files: Files, maps: Mappings, c: Call, ghost o: Owner) returns (ghost o': Owner)
    requires Ready(u, files, maps, o) && (c.command.LinkAt? || c.command.ReadlinkAt? || c.command.TruncateAt?)
    modifies u`fs, u`sb, u.disk, u.clock
    ensures Ready(u, files, maps, o') && GenStep(old(u.fs), u.fs)
  {
    hide Ufs.Valid, Ufs.Durable, SysInv, TreeOf, GenStep, GenSame, Place, LinkOutcome, TruncateOutcome, ReadlinkOutcome,
      HandlesOk, MappingsOk, SlotsOk, LinkedTo, ContentIs, Keeps, NulFree, Resize, Content;
    ReadyParts(u, files, maps, o);
    ghost var fs, t := u.fs, TreeOf(u.fs);
    ghost var none := Node(0, 0, 0, [], map[]);
    EffectsKeep(t, t, 0, [], 0, none, []);
    match c.command {
      case LinkAt(existing, path) =>
        var r;
        r, o' := Link(u, CString(existing), CString(path), c.now, c.acc, o);
        if r.Ok? {
          ghost var p := Place(fs, c.acc, CString(path), false).value;
          ghost var i := LinkOutcome(fs, c.acc, CString(existing), CString(path)).value;
          EffectsKeep(t, TreeOf(u.fs), p.0, p.1, i, none, []);
        }
      case ReadlinkAt(path, count) =>
        var _ := Readlink(u, CString(path), count, c.relatime, c.now, c.acc, o);
        o' := o;
      case TruncateAt(path, size) =>
        var r;
        r, o' := TruncatePath(u, CString(path), size, c.now, c.acc, o);
        if r.Ok? {
          ghost var i := TruncateOutcome(fs, c.acc, CString(path), size).value;
          EffectsKeep(t, TreeOf(u.fs), 0, [], i, none, Resize(Content(fs, i), size));
        }
    }
    GenSameStep(fs, u.fs);
    KeepsGood(t, TreeOf(u.fs), files.table[..], maps.table[..]);
  }

  /** open, close and seek. */
  method DescriptorCall(u: Ufs, files: Files, maps: Mappings, c: Call, ghost o: Owner)
    requires Ready(u, files, maps, o) && (c.command.OpenAt? || c.command.CloseFd? || c.command.SeekFd?)
    modifies files.table
    ensures Ready(u, files, maps, o)
  {
    hide Ufs.Valid, SysInv, TreeOf, GenStep, HandlesOk, MappingsOk, SlotsOk, TrustedAll, SeekOutcome, Moved, OpenTarget;
    ReadyParts(u, files, maps, o);
    ghost var ds := files.table[..];
    match c.command {
      case OpenAt(path, flags) => var _ := Open(u, files, CString(path), flags, c.acc, o);
      case CloseFd(fd) =>
        var r := files.Close(fd);
        if r.Ok? {
          HandleClosed(TreeOf(u.fs), ds, fd);
        }
      case SeekFd(fd, change, whence) =>
        var r := Seek(u, files, fd, change, whence, o);
        if r.Ok? {
          HandlesKept(u.fs, ds, fd, r.value, []);
        }
    }
  }

  lemma HandleClosed(t: Tree, ds: seq<Descriptor>, fd: int)
    requires HandlesOk(t, ds) && 0 <= fd < |ds|
    ensures HandlesOk(t, ds[fd := CLOSED])
  {
  }

  /** read and write. */
  method TransferCall(u: Ufs, files: Files, maps: Mappings, c: Call, ghost o: Owner) returns (ghost o': Owner)
    requires Ready(u, files, maps, o) && (c.command.ReadFd? || c.command.WriteFd?)
    modifies u`fs, u`sb, u.disk, u.clock, files.table
    ensures Ready(u, files, maps, o') && GenStep(old(u.fs), u.fs)
  {
    hide Ufs.Valid, Ufs.Durable, SysInv, TreeOf, GenStep, GenSame, HandlesOk, MappingsOk, SlotsOk, TrustedAll, Moved,
      ReadOutcome, WriteEffect, Keeps;
    ReadyParts(u, files, maps, o);
    ghost var fs, t, ds := u.fs, TreeOf(u.fs), files.table[..];
    match c.command {
      case ReadFd(fd, count) =>
        var r := Read(u, files, fd, count, c.relatime, c.now, o);
        o' := o;
        HandlesKept(fs, ds, fd, if r.Ok? then ds[fd].offset + |r.value| else 0, []);
      case WriteFd(fd, data) =>
        var r;
        r, o' := FileIo.Write(u, files, fd, data, c.now, o);
        HandlesKept(fs, ds, fd, 0, data);
        WriteKeeps(fs, ds, fd, data);
        KeepsGood(t, TreeOf(u.fs), ds, maps.table[..]);
    }
    GenSameStep(fs, u.fs);
  }

  /** The address of the mapping in a slot. */
  method AddressOf(maps: Mappings, slot: nat) returns (address: array?<byte>)
    requires maps.Valid()
    ensures address == if slot < MAX_MAPPINGS && maps.table[slot].inUse then maps.table[slot].memory else null
  {
    if slot < MAX_MAPPINGS && maps.table[slot].inUse {
      return maps.table[slot].memory;
    }
    return null;
  }

  /** mmap. */
  method MapCall(u: Ufs, files: Files, maps: Mappings, c: Call, ghost o: Owner)
    requires Ready(u, files, maps, o) && c.command.MapFd?
    modifies u`fs, u.disk, u.clock, maps.table
    ensures Ready(u, files, maps, o) && GenStep(old(u.fs), u.fs)
    ensures forall x :: x in Memories(maps.table[..]) && x !in old(Memories(maps.table[..])) ==> fresh(x)
  {
    hide Ufs.Valid, SysInv, TreeOf, GenStep, GenSame, HandlesOk, MappingsOk, SlotsOk, TrustedAll, MapRefusal, Window;
    ReadyParts(u, files, maps, o);
    ghost var fs, ms := u.fs, maps.table[..];
    var m := c.command;
    var r := Map(u, files, maps, m.fd, m.length, m.prot, m.flags, m.offset, c.relatime, c.now, o);
    GenSameStep(fs, u.fs);
  }

  /** A store into mapped memory by the process itself. */
  method StoreCall(u: Ufs, files: Files, maps: Mappings, c: Call, ghost o: Owner)
    requires Ready(u, files, maps, o) && c.command.Store?
    modifies Memories(maps.table[..])
    ensures Ready(u, files, maps, o) && u.fs == old(u.fs) && maps.table[..] == old(maps.table[..])
  {
    hide Ufs.Valid, SysInv, TreeOf, HandlesOk, MappingsOk, SlotsOk;
    var s := c.command;
    var address := AddressOf(maps, s.slot);
    if address != null && s.at < address.Length {
      assert maps.table[..][s.slot].memory == address;
      address[s.at] := s.value;
    }
  }

  /** msync and munmap. */
  method SyncCall(u: Ufs, files: Files, maps: Mappings, c: Call, ghost o: Owner) returns (ghost o': Owner)
    requires Ready(u, files, maps, o) && (c.command.MsyncSlot? || c.command.MunmapSlot?)
    modifies u`fs, u`sb, u.disk, u.clock, maps.table
    ensures Ready(u, files, maps, o') && GenStep(old(u.fs), u.fs)
    ensures Memories(maps.table[..]) <= old(Memories(maps.table[..]))
  {
    hide Ufs.Valid, Ufs.Durable, SysInv, TreeOf, GenStep, GenSame, HandlesOk, MappingsOk, SlotsOk, SyncEffect, Keeps,
      NotMapped;
    ReadyParts(u, files, maps, o);
    ghost var fs, t, ms := u.fs, TreeOf(u.fs), maps.table[..];
    var address := AddressOf(maps, c.command.slot);
    ghost var at;
    match c.command {
      case MsyncSlot(slot, length) =>
        var r;
        r, o', at := Msync(u, maps, address, length, c.now, o);
        if at < MAX_MAPPINGS {
          SyncEffectKeeps(fs, ms[at], address[..length]);
        }
      case MunmapSlot(slot, length) =>
        var r;
        r, o', at := Munmap(u, maps, address, length, c.now, o);
        if at < MAX_MAPPINGS {
          SyncEffectKeeps(fs, ms[at], address[..]);
        }
    }
    GenSameStep(fs, u.fs);
    if at == MAX_MAPPINGS {
      EffectsKeep(t, TreeOf(u.fs), 0, [], 0, Node(0, 0, 0, [], map[]), []);
    }
    NoMaps(t);
    KeepsGood(t, TreeOf(u.fs), files.table[..], []);
  }

  lemma NoMaps(t: Tree)
    ensures MappingsOk(t, [])
  {
  }

  /** One call, whatever it is. */
  method Perform(u: Ufs, files: Files, maps: Mappings, c: Call, ghost o: Owner) returns (ghost o': Owner)
    requires Ready(u, files, maps, o)
    modifies u`fs, u`sb, u.disk, u.clock, files.table, maps.table, Memories(maps.table[..])
    ensures Ready(u, files, maps, o') && GenStep(old(u.fs), u.fs)
    ensures forall x :: x in Memories(maps.table[..]) && x !in old(Memories(maps.table[..])) ==> fresh(x)
  {
    hide Ready, GenStep, Memories;
    ReadyStep(u, files, maps, o);
    o' := o;
    match c.command {
      case Create(_, _) => o' := MakeCall(u, files, maps, c, o);
      case Mkdir(_, _) => o' := MakeCall(u, files, maps, c, o);
      case SymlinkAt(_, _, _) => o' := MakeCall(u, files, maps, c, o);
      case RmdirAt(_) => o' := RemoveCall(u, files, maps, c, o);
      case UnlinkAt(_) => o' := RemoveCall(u, files, maps, c, o);
      case LinkAt(_, _) => o' := PathCall(u, files, maps, c, o);
      case ReadlinkAt(_, _) => o' := PathCall(u, files, maps, c, o);
      case TruncateAt(_, _) => o' := PathCall(u, files, maps, c, o);
      case OpenAt(_, _) => DescriptorCall(u, files, maps, c, o);
      case CloseFd(_) => DescriptorCall(u, files, maps, c, o);
      case SeekFd(_, _, _) => DescriptorCall(u, files, maps, c, o);
      case ReadFd(_, _) => o' := TransferCall(u, files, maps, c, o);
      case WriteFd(_, _) => o' := TransferCall(u, files, maps, c, o);
      case MapFd(_, _, _, _, _) => MapCall(u, files, maps, c, o);
      case Store(_, _, _) => StoreCall(u, files, maps, c, o);
      case MsyncSlot(_, _) => o' := SyncCall(u, files, maps, c, o);
      case MunmapSlot(_, _) => o' := SyncCall(u, files, maps, c, o);
    }
  }

  lemma ReadyStep(u: Ufs, files: Files, maps: Mappings, o: Owner)
    requires Ready(u, files, maps, o)
    ensures GenStep(u.fs, u.fs)
  {
    hide Ready, GenStep;
    ReadyParts(u, files, maps, o);
  }

  // ---- whole runs ----

  ghost function Systems(run: seq<Snapshot>): seq<Fs> { seq(|run|, k requires 0 <= k < |run| => run[k].fs) }

  /** Any sequence of calls: every state on the way is sound, with only good handles and mappings, and
      inode slots are handed out with ever new generations. */
  method Execute(u: Ufs, files: Files, maps: Mappings, calls: seq<Call>, ghost o: Owner)
    returns (ghost o': Owner, ghost run: seq<Snapshot>)
    requires Ready(u, files, maps, o)
    modifies u`fs, u`sb, u.disk, u.clock, files.table, maps.table, Memories(maps.table[..])
    ensures Ready(u, files, maps, o')
    ensures |run| == |calls| + 1 && run[0] == old(Now(u, files, maps)) && run[|calls|] == Now(u, files, maps)
    ensures forall k :: 0 <= k < |run| ==> Good(run[k])
    ensures GenRun(Systems(run))
  {
    hide Ready, GenStep, Memories, Good;
    o', run := o, [Now(u, files, maps)];
    ReadyGood(u, files, maps, o);
    for n := 0 to |calls|
      invariant Ready(u, files, maps, o') && |run| == n + 1
      invariant run[0] == old(Now(u, files, maps)) && run[n] == Now(u, files, maps)
      invariant forall k :: 0 <= k < |run| ==> Good(run[k])
      invariant GenRun(Systems(run))
      invariant forall x :: x in Memories(maps.table[..]) && x !in old(Memories(maps.table[..])) ==> fresh(x)
    {
      ghost var before := run;
      o' := Perform(u, files, maps, calls[n], o');
      ReadyGood(u, files, maps, o');
      run := run + [Now(u, files, maps)];
      GenRunStep(before, Now(u, files, maps));
    }
  }

  lemma GenRunStep(run: seq<Snapshot>, s: Snapshot)
    requires run != [] && GenRun(Systems(run)) && GenStep(run[|run| - 1].fs, s.fs)
    ensures GenRun(Systems(run + [s]))
  {
    hide GenStep;
    var a, b := Systems(run), Systems(run + [s]);
    forall k | 0 <= k < |b| - 1 ensures GenStep(b[k], b[k + 1]) {
      if k < |a| - 1 {
        assert GenStep(a[k], a[k + 1]);
      }
    }
  }

  lemma ReadyGood(u: Ufs, files: Files, maps: Mappings, o: Owner)
    requires Ready(u, files, maps, o)
    ensures Good(Now(u, files, maps))
  {
    hide Ufs.Valid, SysInv, TreeOf, SlotsOk, MappingsOk, HandlesOk;
  }

  /** From a freshly formatted image: any sequence of calls runs through good states only. */
  method FormatAndRun(disk: BlockDisk, uid: u32, gid: u32, now: Times, calls: seq<Call>)
    returns (u: Ufs, files: Files, maps: Mappings, ghost o: Owner, ghost run: seq<Snapshot>)
    requires disk.Valid()
    modifies disk
    ensures Ready(u, files, maps, o) && u.disk == disk
    ensures |run| == |calls| + 1 && TreeOf(run[0].fs) == EmptyTree() && run[|calls|] == Now(u, files, maps)
    ensures forall k :: 0 <= k < |run| ==> Good(run[k])
    ensures GenRun(Systems(run))
    ensures forall s :: !Commits(u.Boot().durable[JOURNAL_COMMIT], s)
  {
    hide Ready, Good, Memories, Formatted, Recovered, Abs, ValidSuper, SuperblockOf, Commits, SysInv, TreeOf, EmptyTree,
      Run, GenRun;
    Format(disk, uid, gid, now);
    ghost var img := disk.image;
    FormatMounts(img);
    files := new Files();
    maps := new Mappings();
    var r := Mount(disk, files);
    u := r.value;
    FreshlyReady(u, files, maps, img);
    ghost var ms := maps.table[..];
    NoMemories(ms);
    o, run := Execute(u, files, maps, calls, map[]);
  }

  lemma NoMemories(ms: seq<Mapping>)
    requires forall k :: 0 <= k < |ms| ==> ms[k] == UNMAPPED
    ensures Memories(ms) == {}
  {
  }

  lemma FreshlyReady(u: Ufs, files: Files, maps: Mappings, img: Image)
    requires MountsAs(img, u) && Formatted(img) && files.Valid() && maps.Valid()
    requires forall fd :: 0 <= fd < MAX_OPEN_FILES ==> files.table[fd] == CLOSED
    requires forall k :: 0 <= k < MAX_MAPPINGS ==> maps.table[k] == UNMAPPED
    ensures Ready(u, files, maps, map[]) && TreeOf(u.fs) == EmptyTree()
    ensures forall s :: !Commits(u.Boot().durable[JOURNAL_COMMIT], s)
  {
    hide Ufs.Valid, Formatted, Recovered, Abs, ValidSuper, SuperblockOf, Commits, SysInv, TreeOf, EmptyTree, Run,
      SlotsOk;
    FormatMounts(img);
  }

  /** While descriptor fd stands for the same opening of a file, that inode keeps its type and its
      generation, whatever has been done in between, reads, writes and seeks of fd included. */
  lemma OpenFilePinned(run: seq<Snapshot>, m: nat, n: nat, fd: nat)
    requires (forall k :: 0 <= k < |run| ==> Good(run[k])) && m <= n < |run|
    requires fd < |run[m].files| && fd < |run[n].files| && run[m].files[fd].inUse && run[n].files[fd].inUse
    requires run[n].files[fd].inum == run[m].files[fd].inum
             && run[n].files[fd].generation == run[m].files[fd].generation
    ensures var i, t, t' := run[m].files[fd].inum as nat, TreeOf(run[m].fs), TreeOf(run[n].fs);
            i in t && i in t' && t'[i].kind == t[i].kind == TYPE_FILE && t'[i].generation == t[i].generation
  {
    hide SysInv, TreeOf, MappingsOk;
    assert Good(run[m]) && Good(run[n]);
  }

  // ---- generations ----

  /** Generations in order: 1, 2, ..., 2^32 - 1, 1, ... */
  const CYCLE: nat := 0xFFFF_FFFF

  ghost predicate GenRun(run: seq<Fs>) {
    forall k :: 0 <= k < |run| - 1 ==> GenStep(run[k], run[k + 1])
  }

  ghost function GenAt(run: seq<Fs>, i: nat, k: nat): u32
    requires k < |run| && i < MAX_INODES && forall j :: 0 <= j < |run| ==> |run[j].inodes| == MAX_INODES
  {
    run[k].inodes[i].generation
  }

  /** Step k hands out slot i. */
  ghost predicate Born(run: seq<Fs>, i: nat, k: nat) {
    k + 1 < |run| && !Allocated(run[k], i) && Allocated(run[k + 1], i)
  }

  /** How often the generation of slot i moved between two states. */
  ghost function Moves(run: seq<Fs>, i: nat, a: nat, b: nat): nat
    requires a <= b < |run| && i < MAX_INODES && forall j :: 0 <= j < |run| ==> |run[j].inodes| == MAX_INODES
    decreases b - a
  {
    if a == b then 0 else Moves(run, i, a, b - 1) + if GenAt(run, i, b) == GenAt(run, i, b - 1) then 0 else 1
  }

  /** Generations advance by one per move, modulo the cycle. */
  lemma {:induction false} GenCount(run: seq<Fs>, i: nat, a: nat, b: nat)
    requires GenRun(run) && a <= b < |run| && i < MAX_INODES
    requires forall j :: 0 <= j < |run| ==> |run[j].inodes| == MAX_INODES
    requires GenAt(run, i, a) >= 1
    ensures GenAt(run, i, b) >= 1
    ensures GenAt(run, i, b) - 1 == (GenAt(run, i, a) - 1 + Moves(run, i, a, b)) % CYCLE
    decreases b - a
  {
    hide NextGeneration;
    if a < b {
      GenCount(run, i, a, b - 1);
      assert GenStep(run[b - 1], run[b - 1 + 1]);
      NextInCycle(GenAt(run, i, b - 1));
      StepMod(GenAt(run, i, a) - 1 + Moves(run, i, a, b - 1));
    }
  }

  lemma StepMod(x: nat)
    ensures (x + 1) % CYCLE == (x % CYCLE + 1) % CYCLE
  {
    var q, r := x / CYCLE, x % CYCLE;
    assert x == q * CYCLE + r;
    if r + 1 == CYCLE {
      assert x + 1 == (q + 1) * CYCLE;
    }
  }

  lemma ModMoved(x: nat, n: nat)
    requires x < CYCLE
    ensures (x + n) % CYCLE == x <==> n % CYCLE == 0
  {
    var q, r := n / CYCLE, n % CYCLE;
    assert n == q * CYCLE + r;
    if x + r < CYCLE {
      ModIs(q, x + r);
    } else {
      ModIs(q + 1, x + r - CYCLE);
    }
  }

  lemma ModIs(q: nat, r: nat)
    requires r < CYCLE
    ensures (q * CYCLE + r) % CYCLE == r
  {
  }

  /** Two lives of a slot have the same generation exactly when the 32-bit counter has gone all the
      way round between them: a handle kept from an earlier life matches no later one before that. */
  lemma NeverReissued(run: seq<Fs>, i: nat, j: nat, k: nat)
    requires GenRun(run) && i < MAX_INODES && forall x :: 0 <= x < |run| ==> |run[x].inodes| == MAX_INODES
    requires j < k && Born(run, i, j) && Born(run, i, k)
    ensures Moves(run, i, j + 1, k + 1) > 0
    ensures GenAt(run, i, j + 1) == GenAt(run, i, k + 1) <==> Moves(run, i, j + 1, k + 1) % CYCLE == 0
  {
    assert GenStep(run[j], run[j + 1]) && GenStep(run[k], run[k + 1]);
    NextMoves(GenAt(run, i, j));
    NextMoves(GenAt(run, i, k));
    GenCount(run, i, j + 1, k + 1);
    ModMoved(GenAt(run, i, j + 1) - 1, Moves(run, i, j + 1, k + 1));
  }

  lemma NextInCycle(g: u32)
    requires g >= 1
    ensures NextGeneration(g) >= 1 && NextGeneration(g) != g && NextGeneration(g) - 1 == (g as int - 1 + 1) % CYCLE
  {
  }

  lemma NextMoves(g: u32)
    ensures NextGeneration(g) != g && NextGeneration(g) >= 1
  {
  }
}
