/** The operations that change the namespace (src/namespace.c): create, mkdir, rmdir, unlink, link and
    symlink as steps of the tree of nodes, with their rollbacks when the disk is too full. */
module Namespace {
  import opened Layout
  import opened Encoding
  import opened Context
  import opened Allocator
  import opened Ownership
  import opened TreeSteps
  import opened FileContent
  import opened Truncate
  import opened RangeIo
  import opened Paths
  import opened Directory
  import opened Resolve
  import opened FileTree
  import opened Effects
  import opened FileIo
  import opened Mmap

  // ---- where an operation acts ----

  /** The directory of the last component, if it may be changed. */
  ghost function ParentFor(fs: Fs, acc: Access, path: Bytes): Result<(u32, Name)> {
    var p := ParentOf(fs, acc, path);
    if p.Err? then p
    else if p.value.0 >= |fs.inodes| then Err(EINVAL)
    else if !acc(fs.inodes[p.value.0], W_OK + X_OK) then Err(EACCES)
    else p
  }

  /** A directory and a name in it: a free one, or (present) one that is there. */
  ghost function Place(fs: Fs, acc: Access, path: Bytes, present: bool): (r: Result<(u32, Name)>)
    ensures r.Ok? ==> var d := r.value.0;
                      d < |fs.inodes| && fs.inodes[d].itype == TYPE_DIR && (r.value.1 in Dir(fs, d) <==> present)
  {
    var p := ParentFor(fs, acc, path);
    if p.Err? then p
    else
      var d, name := p.value.0, p.value.1;
      if fs.inodes[d].itype != TYPE_DIR then Err(ENOTDIR)
      else if name in Dir(fs, d) then if present then p else Err(EEXIST)
      else if present then Err(ENOENT) else p
  }

  /** resolve_parent, the permission check and directory_find. */
  method FindPlace(u: Ufs, path: Bytes, acc: Access, present: bool, ghost o: Owner)
    returns (r: Result<(u32, Name)>, target: u32)
    requires u.Valid() && SysInv(u.fs, o) && NulFree(path)
    ensures r == Place(u.fs, acc, path, present)
    ensures r.Ok? ==> Allocated(u.fs, r.value.0) && GoodName(r.value.1) && NulFree(r.value.1) && DirOk(u.fs, r.value.0)
    ensures r.Ok? && present ==> target == Dir(u.fs, r.value.0)[r.value.1].inum && Allocated(u.fs, target)
  {
    hide Ufs.Valid, SysInv, Names, ParentOf, Dir, DirOk, GoodName, NulFree;
    SysNames(u.fs, o);
    NamesShape(u.fs, o);
    target := 0;
    r := ResolveParent(u, path, acc, o);
    if r.Err? {
      return;
    }
    var d, name := r.value.0, r.value.1;
    NamesDir(u.fs, o, d);
    var ri := u.ReadInode(d);
    if !acc(ri.value, W_OK + X_OK) {
      return Err(EACCES), 0;
    }
    var existing := DirectoryFind(u, d, name, o);
    if present {
      if existing.Err? {
        return Err(existing.error), 0;
      }
      return r, existing.value;
    }
    if existing.Ok? {
      return Err(EEXIST), 0;
    }
    if existing.error != ENOENT {
      return Err(existing.error), 0;
    }
  }

  // ---- new nodes ----

  /** What a new inode gets from the process that makes it. */
  datatype Meta = Meta(mode: u32, uid: u32, gid: u32, times: Times)

  function NewInode(kind: u32, generation: u32, meta: Meta): Inode {
    InitInode(kind).(generation := generation, mode := meta.mode, uid := meta.uid, gid := meta.gid, links := 1,
                     times := meta.times)
  }

  lemma NewInodeShape(kind: u32, generation: u32, meta: Meta, old_: Inode)
    ensures SameShape(NewInode(kind, generation, meta), FreshInode(old_))
    ensures EmptyNode(NewInode(kind, generation, meta)) == Node(kind, 1, generation, [], map[])
  {
    hide NextGeneration;
  }

  /** The file system after slot i is handed out and its inode written. */
  function NodeMade(fs: Fs, i: nat, ino: Inode): Fs
    requires i < |fs.ibits| && i < |fs.inodes| && fs.freeInodes > 0
  {
    var fs' := InodeTaken(fs, i);
    fs'.(inodes := fs'.inodes[i := ino])
  }

  function EmptyNode(ino: Inode): Node { Node(ino.itype, ino.links, ino.generation, [], map[]) }

  /** A new inode with nothing in it. */
  lemma NewNode(fs: Fs, o: Owner, i: nat, ino: Inode)
    requires FsInv(fs, o) && DirsOk(fs) && WellFormed(fs) && 1 <= i < MAX_INODES && !fs.ibits[i] && fs.freeInodes > 0
    requires SameShape(ino, FreshInode(fs.inodes[i])) && ino.generation == NextGeneration(fs.inodes[i].generation)
    ensures var fs' := NodeMade(fs, i, ino);
            && FsInv(fs', o) && DirsOk(fs') && GenStep(fs, fs') && OnlyNode(fs, fs', i) && i !in TreeOf(fs)
            && Content(fs', i) == [] && TreeOf(fs') == TreeOf(fs)[i := EmptyNode(ino)]
  {
    hide FsInv, Content, Slots, NextGeneration, EntryMap, OtherContents, GenStep;
    var fs1, fs' := InodeTaken(fs, i), NodeMade(fs, i, ino);
    TakenInode(fs, o, i);
    MetaWrite(fs1, o, i, ino);
    FreshGen(fs, fs1, fs', i);
    OnlyNodeTrans(fs, fs1, fs', i);
    EmptyTable();
    DirsUpdate(fs, fs', i);
    TreeUpdate(fs, fs', i);
  }

  lemma FreshGen(fs: Fs, fs1: Fs, fs': Fs, i: nat)
    requires GenStep(fs, fs1) && |fs'.inodes| == MAX_INODES && i < MAX_INODES && fs'.ibits == fs1.ibits
    requires fs'.inodes == fs1.inodes[i := fs'.inodes[i]]
             && fs'.inodes[i].generation == NextGeneration(fs.inodes[i].generation)
    requires fs1.inodes[i].generation == NextGeneration(fs.inodes[i].generation) && !Allocated(fs, i)
    ensures GenStep(fs, fs')
  {
    hide NextGeneration;
  }

  lemma OnlyNodeTrans(a: Fs, b: Fs, c: Fs, i: nat)
    requires OnlyNode(a, b, i) && OnlyNode(b, c, i)
    ensures OnlyNode(a, c, i)
  {
    hide Content;
    forall j: nat | Allocated(a, j) && j != i ensures Content(c, j) == Content(a, j) {
      assert Allocated(b, j);
      assert Content(c, j) == Content(b, j) == Content(a, j);
    }
  }

  // ---- new entries ----

  /** Directory d has no slot for one more entry, given so many free blocks. */
  ghost predicate DirFull(fs: Fs, d: nat, free: nat)
    requires d < |fs.inodes|
  {
    AllUsed(fs, d) && (fs.inodes[d].blockCount >= DIRECT_BLOCKS || free == 0)
  }

  /** Adding an entry after another inode was worked on. */
  lemma AddFrame(fs: Fs, fs': Fs, i: nat, d: nat, name: Name, kind: u32)
    requires OnlyNode(fs, fs', i) && DirOk(fs, d) && d != i
    requires name !in Dir(fs, d) && GoodName(name) && EntryType(kind)
    ensures DirOk(fs', d) && Allocated(fs', d) && fs'.inodes[d] == fs.inodes[d] && Dir(fs', d) == Dir(fs, d)
    ensures AddOutcome(fs', d, name, kind) == if DirFull(fs, d, fs'.freeBlocks) then Err(ENOSPC) else Ok(())
  {
    hide Content, Slots, EntryMap, UniqueNames;
    assert Content(fs', d) == Content(fs, d);
  }

  lemma AddEntryTree(fs: Fs, fs': Fs, o': Owner, d: nat, name: Bytes, e: Entry)
    requires DirsOk(fs) && DirOk(fs, d) && DirChanged(fs, fs', d) && FsInv(fs', o') && DirOk(fs', d)
    requires Dir(fs', d) == Dir(fs, d)[name := e]
    ensures d in TreeOf(fs) && DirsOk(fs') && GenSame(fs, fs') && TreeOf(fs') == WithEntry(TreeOf(fs), d, name, e)
  {
    hide FsInv, Dir, GenSame, OtherContents, Content, Slots, UniqueNames;
    DirTree(fs, fs', o', d);
    NodeLinks(fs, d);
  }

  /** What a node looks like when it is made. */
  ghost predicate NewNodeOk(node: Node) {
    EntryType(node.kind) && node.links == 1 && node.entries == map[]
      && (node.kind == TYPE_SYMLINK ==> TargetOk(node.content))
  }

  /** A new node entered under a new name. */
  ghost predicate Entered(t: Tree, t': Tree, d: nat, name: Name, i: u32, node: Node) {
    && d in t && t[d].kind == TYPE_DIR && name !in t[d].entries && GoodName(name) && NulFree(name)
    && i as nat !in t && NewNodeOk(node) && t' == WithEntry(t, d, name, Entry(i, node.kind))[i as nat := node]
  }

  lemma EnteredInv(t: Tree, t1: Tree, t2: Tree, d: nat, name: Name, i: u32, node: Node)
    requires TreeInv(t) && d in t && t[d].kind == TYPE_DIR && name !in t[d].entries && i as nat !in t
    requires GoodName(name) && NulFree(name) && NewNodeOk(node)
    requires t1 == t[i as nat := node] && t2 == WithEntry(t1, d, name, Entry(i, node.kind))
    ensures Entered(t, t2, d, name, i, node) && TreeInv(t2)
  {
    hide TreeInv, GoodName, NulFree;
    assert t2 == WithEntry(t, d, name, Entry(i, node.kind))[i as nat := node];
    AddNode(t, d, name, i, node);
  }

  /** directory_add for a node just made, or free_inode when the directory has no room; then the
      time stamps of the directory. */
  method EnterNode(u: Ufs, dir: u32, name: Name, i: u32, kind: u32, now: Times, ghost fs0: Fs, ghost o: Owner)
    returns (r: Result<()>, ghost o': Owner)
    requires u.Valid() && FsInv(u.fs, o) && DirsOk(u.fs) && OnlyNode(fs0, u.fs, i) && Allocated(u.fs, i)
    requires Allocated(fs0, dir) && dir != i && 0 < i && DirOk(fs0, dir) && name !in Dir(fs0, dir)
    requires GoodName(name) && NulFree(name) && EntryType(kind)
    modifies u`fs, u`sb, u.disk
    ensures u.Valid() && FsInv(u.fs, o') && DirsOk(u.fs) && GenSame(old(u.fs), u.fs)
    ensures r == if DirFull(fs0, dir, old(u.fs).freeBlocks) then Err(ENOSPC) else Ok(())
    ensures dir as nat in TreeOf(old(u.fs))
    ensures TreeOf(u.fs) == if r.Ok? then WithEntry(TreeOf(old(u.fs)), dir, name, Entry(i, kind))
                            else TreeOf(old(u.fs)) - {i as nat}
  {
    hide Ufs.Valid, FsInv, Dir, DirOk, DirsOk, NodeOf, TreeOf, GoodName, NulFree, GenSame, OtherContents, AddOutcome,
      DirFull, DirChanged;
    ghost var fs := u.fs;
    AddFrame(fs0, fs, i, dir, name, kind);
    NodeLinks(fs, dir);
    r, o' := DirectoryAdd(u, dir, name, i, kind, o);
    if r.Err? {
      var freed;
      freed, o' := FreeInode(u, i, o');
      return r, o';
    }
    AddEntryTree(fs, u.fs, o', dir, name, Entry(i, kind));
    ghost var fs1 := u.fs;
    DirAllocated(fs1, dir);
    TouchInode(u, dir, now, o');
    GenTrans(fs, fs1, u.fs);
  }

  lemma DirAllocated(fs: Fs, d: nat)
    requires DirOk(fs, d)
    ensures Allocated(fs, d)
  {
    hide UniqueNames;
  }

  /** When a node can be made. */
  ghost function CreateOutcome(fs: Fs, acc: Access, path: Bytes): Result<()> {
    var p := Place(fs, acc, path, false);
    if p.Err? then Err(p.error)
    else if fs.freeInodes == 0 || DirFull(fs, p.value.0, fs.freeBlocks) then Err(ENOSPC)
    else Ok(())
  }

  /** allocate_inode's choice: the first free slot after the root. */
  ghost predicate FirstFree(fs: Fs, i: nat) {
    |fs.ibits| == MAX_INODES && 1 <= i < MAX_INODES && !fs.ibits[i] && forall c :: 1 <= c < i ==> fs.ibits[c]
  }

  /** What one new, unnamed node is. */
  ghost predicate MadeNode(fs: Fs, fs': Fs, o: Owner, i: u32, node: Node) {
    && FsInv(fs', o) && DirsOk(fs') && GenStep(fs, fs') && OnlyNode(fs, fs', i)
    && FirstFree(fs, i) && i as nat !in TreeOf(fs) && Allocated(fs', i) && TreeOf(fs') == TreeOf(fs)[i as nat := node]
    && node.generation == NextGeneration(fs.inodes[i].generation)
  }

  /** Hand out an inode and write its first version. */
  method MakeNode(u: Ufs, kind: u32, meta: Meta, ghost o: Owner) returns (r: Result<u32>, ghost node: Node)
    requires u.Valid() && FsInv(u.fs, o) && DirsOk(u.fs)
    modifies u`fs, u`sb, u.disk
    ensures u.Valid() && (r.Err? <==> old(u.fs).freeInodes == 0)
    ensures r.Err? ==> u.fs == old(u.fs)
    ensures r.Ok? ==> MadeNode(old(u.fs), u.fs, o, r.value, node) && u.fs.freeBlocks == old(u.fs).freeBlocks
                      && node == Node(kind, 1, node.generation, [], map[])
  {
    hide Ufs.Valid, FsInv, DirsOk, TreeOf, GenStep, InodeTaken, SameShape, FreshInode, NextGeneration, NewInode,
      EmptyNode;
    ghost var fs := u.fs;
    WellFormedInv(fs, o);
    node := Node(0, 0, 0, [], map[]);
    r := AllocateInode(u);
    if r.Err? {
      return;
    }
    var i := r.value;
    TakenShape(fs, i);
    var fresh_ := u.ReadInode(i);
    var ino := NewInode(kind, fresh_.value.generation, meta);
    NewInodeShape(kind, fresh_.value.generation, meta, fs.inodes[i]);
    EmptyGeneration(ino);
    NewNode(fs, o, i, ino);
    var _ := u.WriteInode(i, ino);
    node := EmptyNode(ino);
  }

  lemma EmptyGeneration(ino: Inode)
    ensures EmptyNode(ino).generation == ino.generation
  {
  }

  /** create_node: ufs_create and ufs_mkdir. */
  method CreateNode(u: Ufs, path: Bytes, kind: u32, meta: Meta, now: Times, acc: Access, ghost o: Owner)
    returns (r: Result<()>, ghost o': Owner, ghost i: u32)
    requires u.Valid() && SysInv(u.fs, o) && NulFree(path) && (kind == TYPE_FILE || kind == TYPE_DIR)
    modifies u`fs, u`sb, u.disk
    ensures u.Valid() && SysInv(u.fs, o') && GenStep(old(u.fs), u.fs)
    ensures r == CreateOutcome(old(u.fs), acc, path)
    ensures r.Err? ==> TreeOf(u.fs) == TreeOf(old(u.fs))
    ensures r.Ok? ==> var p := Place(old(u.fs), acc, path, false).value;
                      && FirstFree(old(u.fs), i) && i < |old(u.fs).inodes|
                      && Entered(TreeOf(old(u.fs)), TreeOf(u.fs), p.0, p.1, i,
                                 Node(kind, 1, NextGeneration(old(u.fs).inodes[i].generation), [], map[]))
  {
    hide Ufs.Valid, FsInv, Dir, DirOk, DirsOk, NodeOf, TreeOf, GoodName, NulFree, GenSame, GenStep, OtherContents,
      DirFull, Place,
      TreeInv, NextGeneration, OnlyNode, Entered, WithEntry, TargetOk;
    o', i := o, 0;
    ghost var fs := u.fs;
    SysGen(fs, o);
    GenSameStep(fs, fs);
    var place, _ := FindPlace(u, path, acc, false, o);
    if place.Err? {
      return Err(place.error), o, 0;
    }
    var dir, name := place.value.0, place.value.1;
    var slot, node := MakeNode(u, kind, meta, o);
    if slot.Err? {
      return Err(ENOSPC), o, 0;
    }
    i := slot.value;
    ghost var fs1 := u.fs;
    PlaceFacts(fs, dir, i);
    r, o' := EnterNode(u, dir, name, slot.value, kind, now, fs, o);
    GenThen(fs, fs1, u.fs);
    if r.Ok? {
      EnteredInv(TreeOf(fs), TreeOf(fs1), TreeOf(u.fs), dir, name, i, node);
    } else {
      assert TreeOf(fs)[i as nat := node] - {i as nat} == TreeOf(fs);
    }
  }

  lemma TakenShape(fs: Fs, i: nat)
    requires WellFormed(fs) && i < MAX_INODES && fs.freeInodes > 0
    ensures |InodeTaken(fs, i).inodes| == MAX_INODES && Allocated(InodeTaken(fs, i), i)
    ensures InodeTaken(fs, i).freeBlocks == fs.freeBlocks
    ensures InodeTaken(fs, i).inodes[i] == FreshInode(fs.inodes[i])
    ensures FreshInode(fs.inodes[i]).generation == NextGeneration(fs.inodes[i].generation)
  {
    hide NextGeneration;
  }

  lemma PlaceFacts(fs: Fs, dir: nat, i: nat)
    requires Allocated(fs, dir) && DirOk(fs, dir) && i < |fs.ibits| && !fs.ibits[i]
    ensures dir != i && dir < |fs.inodes| && dir in TreeOf(fs) && TreeOf(fs)[dir].entries == Dir(fs, dir)
    ensures TreeOf(fs)[dir].kind == TYPE_DIR && fs.inodes[dir].itype == TYPE_DIR
  {
    hide UniqueNames, NodeOf;
    NodeLinks(fs, dir);
  }

  // ---- removing entries ----

  /** The facts behind an entry that is there. */
  lemma VictimFacts(fs: Fs, o: Owner, d: nat, name: Name)
    requires SysInv(fs, o) && DirOk(fs, d) && name in Dir(fs, d)
    ensures var t, i := TreeOf(fs), Dir(fs, d)[name].inum as nat;
            && d in t && t[d].entries == Dir(fs, d) && d < MAX_INODES
            && Allocated(fs, i) && 0 < i < MAX_INODES && i < |fs.inodes| && i in t
            && t[i].kind == fs.inodes[i].itype && EntryType(t[i].kind)
            && (t[i].kind != TYPE_DIR ==> t[i].entries == map[])
            && t[i].links == fs.inodes[i].links >= 1
            && (t[i].kind == TYPE_DIR ==> t[i].links == 1 && t[i].entries == Dir(fs, i))
  {
    hide FsInv, Dir, NodeOf, Refs, Acyclic, GoodName, NulFree, TargetOk, UniqueNames, DirsOk, EntryType;
    var t, i := TreeOf(fs), Dir(fs, d)[name].inum as nat;
    NodeLinks(fs, d);
    assert EntryOk(t, name, t[d].entries[name]);
    InodeLimit(fs, o, i);
    InodeLimit(fs, o, d);
    NodeLinks(fs, i);
  }

  lemma DropEntryTree(fs: Fs, fs': Fs, o': Owner, d: nat, name: Bytes)
    requires DirsOk(fs) && DirOk(fs, d) && DirChanged(fs, fs', d) && FsInv(fs', o') && DirOk(fs', d)
    requires Dir(fs', d) == Dir(fs, d) - {name}
    ensures d in TreeOf(fs) && DirsOk(fs') && GenSame(fs, fs') && TreeOf(fs') == WithoutEntry(TreeOf(fs), d, name)
  {
    hide FsInv, Dir, GenSame, OtherContents, Content, Slots, UniqueNames;
    DirTree(fs, fs', o', d);
    NodeLinks(fs, d);
  }

  /** An entry removed, and its inode with the last one. */
  ghost predicate Dropped(t: Tree, t': Tree, d: nat, name: Name) {
    && d in t && name in t[d].entries && t[d].entries[name].inum as nat in t
    && t[t[d].entries[name].inum as nat].entries == map[] && t' == Unlinked(t, d, name)
  }

  /** directory_remove, then one link less or free_inode, then the directory's time stamps. */
  method DropEntry(u: Ufs, dir: u32, name: Name, i: u32, ino: Inode, free: bool, now: Times, ghost o: Owner)
    returns (ghost o': Owner)
    requires u.Valid() && SysInv(u.fs, o) && DirOk(u.fs, dir) && name in Dir(u.fs, dir)
             && i == Dir(u.fs, dir)[name].inum
    requires i < |u.fs.inodes| && ino == u.fs.inodes[i] && (free <==> ino.links <= 1)
    requires ino.itype == TYPE_DIR ==> Dir(u.fs, i) == map[]
    modifies u`fs, u`sb, u.disk
    ensures u.Valid() && SysInv(u.fs, o') && GenSame(old(u.fs), u.fs)
    ensures Dropped(TreeOf(old(u.fs)), TreeOf(u.fs), dir, name)
  {
    hide Ufs.Valid, FsInv, Dir, DirOk, DirsOk, NodeOf, TreeOf, GenSame, OtherContents, TreeInv, DirChanged;
    ghost var fs, t := u.fs, TreeOf(u.fs);
    VictimFacts(fs, o, dir, name);
    DropLink(t, dir, name);
    DirTypes(fs, o, dir);
    var removed := DirectoryRemove(u, dir, name, o);
    ghost var fs1 := u.fs;
    DropEntryTree(fs, fs1, o, dir, name);
    o' := o;
    if free {
      var freed;
      freed, o' := FreeInode(u, i, o);
    } else {
      DirChangedInode(fs, fs1, dir, i);
      var fewer := ino.(links := ino.links - 1, times := now);
      MetaTree(fs1, o, i, fewer);
      var _ := u.WriteInode(i, fewer);
    }
    ghost var fs2 := u.fs;
    GenTrans(fs, fs1, fs2);
    InTree(fs2, dir);
    TouchInode(u, dir, now, o');
    GenTrans(fs, fs2, u.fs);
  }

  lemma InTree(fs: Fs, d: nat)
    requires d in TreeOf(fs)
    ensures Allocated(fs, d)
  {
    hide NodeOf;
  }

  lemma DirTypes(fs: Fs, o: Owner, d: nat)
    requires DirOk(fs, d) && SysInv(fs, o)
    ensures Allocated(fs, d) && d < |fs.inodes| && fs.inodes[d].itype == TYPE_DIR
    ensures FsInv(fs, o) && DirsOk(fs) && TreeInv(TreeOf(fs)) && WellFormed(fs)
  {
    hide UniqueNames, FsInv, DirsOk, TreeInv;
    WellFormedInv(fs, o);
  }

  lemma DirChangedInode(fs: Fs, fs': Fs, d: nat, i: nat)
    requires DirChanged(fs, fs', d) && i < MAX_INODES && i != d && Allocated(fs, i)
    ensures i < |fs'.inodes| && i < |fs.inodes| && fs'.inodes[i] == fs.inodes[i] && Allocated(fs', i)
  {
    hide OtherContents;
  }

  ghost function RmdirOutcome(fs: Fs, acc: Access, path: Bytes): Result<()> {
    if path == [SLASH] then Err(EBUSY)
    else
      var p := Place(fs, acc, path, true);
      if p.Err? then Err(p.error)
      else
        var i := Dir(fs, p.value.0)[p.value.1].inum;
        if i >= |fs.inodes| then Err(EINVAL)
        else if fs.inodes[i].itype != TYPE_DIR then Err(ENOTDIR)
        else if Dir(fs, i) != map[] then Err(ENOTEMPTY)
        else Ok(())
  }

  /** ufs_rmdir */
  method Rmdir(u: Ufs, path: Bytes, now: Times, acc: Access, ghost o: Owner) returns (r: Result<()>, ghost o': Owner)
    requires u.Valid() && SysInv(u.fs, o) && NulFree(path)
    modifies u`fs, u`sb, u.disk
    ensures u.Valid() && SysInv(u.fs, o') && GenSame(old(u.fs), u.fs)
    ensures r == RmdirOutcome(old(u.fs), acc, path)
    ensures r.Err? ==> TreeOf(u.fs) == TreeOf(old(u.fs))
    ensures r.Ok? ==> var p := Place(old(u.fs), acc, path, true).value;
                      Dropped(TreeOf(old(u.fs)), TreeOf(u.fs), p.0, p.1)
  {
    hide Ufs.Valid, FsInv, Dir, DirOk, DirsOk, NodeOf, TreeOf, GenSame, TreeInv, Place, NulFree, GoodName, Dropped;
    ghost var fs := u.fs;
    SysGen(fs, o);
    o' := o;
    if path == [SLASH] {
      return Err(EBUSY), o;
    }
    var place, i := FindPlace(u, path, acc, true, o);
    if place.Err? {
      return Err(place.error), o;
    }
    var dir, name := place.value.0, place.value.1;
    VictimFacts(fs, o, dir, name);
    var ri := u.ReadInode(i);
    var ino := ri.value;
    if ino.itype != TYPE_DIR {
      return Err(ENOTDIR), o;
    }
    SysDir(fs, o, i);
    var empty := DirectoryIsEmpty(u, i, o);
    if !empty.value {
      return Err(ENOTEMPTY), o;
    }
    o' := DropEntry(u, dir, name, i, ino, true, now, o);
    r := Ok(());
  }

  lemma SysDir(fs: Fs, o: Owner, i: nat)
    requires SysInv(fs, o) && Allocated(fs, i)
    ensures i < |fs.inodes| && (fs.inodes[i].itype == TYPE_DIR ==> DirOk(fs, i))
  {
    hide FsInv, DirOk, TreeInv;
  }

  /** An open file or a mapped one may not be unlinked. */
  ghost predicate Busy(ds: seq<Descriptor>, ms: seq<Mapping>, i: nat) {
    || (exists fd :: 0 <= fd < |ds| && ds[fd].inUse && ds[fd].inum == i)
    || (exists k :: 0 <= k < |ms| && ms[k].inUse && ms[k].inum == i)
  }

  ghost function UnlinkOutcome(fs: Fs, acc: Access, path: Bytes, ds: seq<Descriptor>, ms: seq<Mapping>): Result<()> {
    if path == [SLASH] then Err(EISDIR)
    else
      var p := Place(fs, acc, path, true);
      if p.Err? then Err(p.error)
      else
        var i := Dir(fs, p.value.0)[p.value.1].inum;
        if i >= |fs.inodes| then Err(EINVAL)
        else if fs.inodes[i].itype == TYPE_DIR then Err(EISDIR)
        else if Busy(ds, ms, i) then Err(EBUSY)
        else Ok(())
  }

  /** ufs_unlink */
  method Unlink(u: Ufs, files: Files, maps: Mappings, path: Bytes, now: Times, acc: Access, ghost o: Owner)
    returns (r: Result<()>, ghost o': Owner)
    requires u.Valid() && SysInv(u.fs, o) && NulFree(path) && files.Valid() && maps.Valid()
    modifies u`fs, u`sb, u.disk
    ensures u.Valid() && SysInv(u.fs, o') && GenSame(old(u.fs), u.fs)
    ensures r == UnlinkOutcome(old(u.fs), acc, path, old(files.table[..]), old(maps.table[..]))
    ensures r.Err? ==> TreeOf(u.fs) == TreeOf(old(u.fs))
    ensures r.Ok? ==> var p := Place(old(u.fs), acc, path, true).value;
                      Dropped(TreeOf(old(u.fs)), TreeOf(u.fs), p.0, p.1)
  {
    hide Ufs.Valid, FsInv, Dir, DirOk, DirsOk, NodeOf, TreeOf, GenSame, TreeInv, Place, NulFree, GoodName, Dropped,
      SlotsOk;
    ghost var fs := u.fs;
    SysGen(fs, o);
    o' := o;
    if path == [SLASH] {
      return Err(EISDIR), o;
    }
    var place, i := FindPlace(u, path, acc, true, o);
    if place.Err? {
      return Err(place.error), o;
    }
    var dir, name := place.value.0, place.value.1;
    VictimFacts(fs, o, dir, name);
    var ri := u.ReadInode(i);
    var ino := ri.value;
    if ino.itype == TYPE_DIR {
      return Err(EISDIR), o;
    }
    // no other type is possible, and the link count of an inode with an entry is not zero
    assert ino.itype == TYPE_FILE || ino.itype == TYPE_SYMLINK;
    assert ino.links > 0;
    var open := files.InodeIsOpen(i);
    var mapped := maps.InodeIsMapped(i);
    BusyMeans(files.table[..], maps.table[..], i);
    if open || mapped {
      return Err(EBUSY), o;
    }
    o' := DropEntry(u, dir, name, i, ino, ino.links == 1, now, o);
    r := Ok(());
  }

  lemma BusyMeans(ds: seq<Descriptor>, ms: seq<Mapping>, i: nat)
    ensures Busy(ds, ms, i) <==> (exists fd :: 0 <= fd < |ds| && ds[fd].inUse && ds[fd].inum == i)
                                 || (exists k :: 0 <= k < |ms| && ms[k].inUse && ms[k].inum == i)
  {
  }

  /** Handles and mappings survive every change of the namespace that the operations allow. */
  lemma DropKeepsHandles(t: Tree, t': Tree, d: nat, name: Name, ds: seq<Descriptor>, ms: seq<Mapping>)
    requires Dropped(t, t', d, name) && HandlesOk(t, ds) && MappingsOk(t, ms)
    requires var i := t[d].entries[name].inum; t[i as nat].kind == TYPE_DIR || !Busy(ds, ms, i)
    ensures HandlesOk(t', ds) && MappingsOk(t', ms)
  {
  }

  // ---- more links ----

  ghost predicate LinkedTo(t: Tree, t': Tree, d: nat, name: Name, i: u32) {
    && d in t && t[d].kind == TYPE_DIR && name !in t[d].entries && GoodName(name) && NulFree(name)
    && i as nat in t && t[i as nat].kind != TYPE_DIR && t[i as nat].links < 0xFFFF_FFFF
    && t' == WithLinks(WithEntry(t, d, name, Entry(i, t[i as nat].kind)), i, t[i as nat].links + 1)
  }

  ghost function LinkOutcome(fs: Fs, acc: Access, existing: Bytes, path: Bytes): (x: Result<u32>)
    ensures x.Ok? ==> Place(fs, acc, path, false).Ok?
  {
    var r := ResolvePath(fs, acc, existing, true);
    if r.Err? then r
    else if r.value >= |fs.inodes| then Err(EINVAL)
    else if fs.inodes[r.value].itype == TYPE_DIR then Err(EPERM)
    else if fs.inodes[r.value].links == 0xFFFF_FFFF then Err(EMLINK)
    else
      var p := Place(fs, acc, path, false);
      if p.Err? then Err(p.error)
      else if DirFull(fs, p.value.0, fs.freeBlocks) then Err(ENOSPC)
      else r
  }

  /** ufs_link */
  method Link(u: Ufs, existing: Bytes, path: Bytes, now: Times, acc: Access, ghost o: Owner)
    returns (r: Result<()>, ghost o': Owner)
    requires u.Valid() && SysInv(u.fs, o) && NulFree(existing) && NulFree(path)
    modifies u`fs, u`sb, u.disk
    ensures u.Valid() && SysInv(u.fs, o') && GenSame(old(u.fs), u.fs)
    ensures var x := LinkOutcome(old(u.fs), acc, existing, path); r == if x.Err? then Err(x.error) else Ok(())
    ensures r.Err? ==> TreeOf(u.fs) == TreeOf(old(u.fs))
    ensures LinkOutcome(old(u.fs), acc, existing, path).Ok? ==>
                      var p := Place(old(u.fs), acc, path, false).value;
                      LinkedTo(TreeOf(old(u.fs)), TreeOf(u.fs), p.0, p.1,
                        LinkOutcome(old(u.fs), acc, existing, path).value)
  {
    hide Ufs.Valid, FsInv, Dir, DirOk, DirsOk, NodeOf, TreeOf, GenSame, TreeInv, Place, NulFree, GoodName, DirFull,
      ResolvePath,
      AddOutcome, DirChanged, OtherContents, Names;
    ghost var fs := u.fs;
    SysGen(fs, o);
    SysNames(fs, o);
    o' := o;
    var source := ResolvePathEx(u, existing, NOFOLLOW_FINAL, acc, o);
    if source.Err? {
      return Err(source.error), o;
    }
    var i := source.value;
    var ri := u.ReadInode(i);
    var ino := ri.value;
    NodeKind(fs, i);
    if ino.itype == TYPE_DIR {
      return Err(EPERM), o;
    }
    assert ino.itype == TYPE_FILE || ino.itype == TYPE_SYMLINK;
    if ino.links == 0xFFFF_FFFF {
      return Err(EMLINK), o;
    }
    var place, _ := FindPlace(u, path, acc, false, o);
    if place.Err? {
      return Err(place.error), o;
    }
    var dir, name := place.value.0, place.value.1;
    DirTypes(fs, o, dir);
    NodeLinks(fs, dir);
    AddSelf(fs, dir, name, ino.itype);
    var added;
    added, o' := DirectoryAdd(u, dir, name, i, ino.itype, o);
    if added.Err? {
      return Err(added.error), o;
    }
    ghost var fs1 := u.fs;
    AddEntryTree(fs, fs1, o', dir, name, Entry(i, ino.itype));
    DirChangedInode(fs, fs1, dir, i);
    var more := ino.(links := ino.links + 1, times := now);
    MetaTree(fs1, o', i, more);
    var _ := u.WriteInode(i, more);
    ghost var fs2 := u.fs;
    GenTrans(fs, fs1, fs2);
    AddLink(TreeOf(fs), dir, name, i);
    InTree(fs2, dir);
    TouchInode(u, dir, now, o');
    GenTrans(fs, fs2, u.fs);
    r := Ok(());
  }

  lemma NodeKind(fs: Fs, i: nat)
    requires TreeInv(TreeOf(fs)) && Allocated(fs, i)
    ensures i < |fs.inodes| && i in TreeOf(fs) && EntryType(fs.inodes[i].itype)
    ensures TreeOf(fs)[i].kind == fs.inodes[i].itype && TreeOf(fs)[i].links == fs.inodes[i].links
  {
    hide NodeOf, EntriesOk, LinksOk, Acyclic, TargetOk;
    NodeLinks(fs, i);
  }

  lemma AddSelf(fs: Fs, d: nat, name: Name, kind: u32)
    requires DirOk(fs, d) && name !in Dir(fs, d) && GoodName(name) && EntryType(kind)
    ensures d < |fs.inodes| && AddOutcome(fs, d, name, kind)
            == if DirFull(fs, d, fs.freeBlocks) then Err(ENOSPC) else Ok(())
  {
    hide UniqueNames, Dir, AllUsed;
  }

  // ---- symbolic links ----

  /** The block that holds a link's text. */
  function TextBlock(target: Bytes): Block
    requires |target| <= BLOCK_SIZE
  {
    Splice(ZeroBlock(), 0, target)
  }

  function LinkInode(ino: Inode, nb: u32, size: u64): Inode {
    ino.(direct := ino.direct[0 := nb], blockCount := 1, size := size)
  }

  /** The file system after a new link inode i has its text in block nb. */
  function LinkMade(fs: Fs, i: nat, ino: Inode, nb: u32, target: Bytes): Fs
    requires WellFormed(fs) && i < MAX_INODES && fs.freeInodes > 0 && fs.freeBlocks > 0 && InData(nb)
    requires |target| <= MAX_PATH
  {
    var t := Taken(InodeTaken(fs, i), nb);
    t.(data := t.data[nb as nat := TextBlock(target)], inodes := t.inodes[i := LinkInode(ino, nb, |target|)])
  }

  lemma TextGrown(m: Fs, o: Owner, i: nat, nb: u32, target: Bytes)
    requires FsInv(m, o) && Allocated(m, i) && i < |m.inodes| && m.inodes[i].blockCount == 0 && m.inodes[i].size == 0
    requires InData(nb) && WellFormed(m) && !m.bits[nb] && m.freeBlocks > 0 && 0 < |target| <= MAX_PATH
             && Content(m, i) == []
    ensures i < MAX_INODES
    ensures var g := LeafGrown(m, i, nb, |target|); var fs' := g.(data := g.data[nb as nat := TextBlock(target)]);
            var o' := o[nb as nat := Claim(i, Leaf(0))];
            FsInv(fs', o') && OtherContents(m, fs', i) && Content(fs', i) == target
  {
    hide SlotVal, FsInv, Content, OtherContents, Val, ZeroBlock, PtrAttached, TextBlock;
    LeafGrow(m, o, i, nb, |target|);
    var g, o' := LeafGrown(m, i, nb, |target|), o[nb as nat := Claim(i, Leaf(0))];
    GrownBlock(m, i, nb, |target|);
    ChunkWritten(g, o', i, 0, target);
    TextIs(target);
    var fs' := g.(data := g.data[nb as nat := TextBlock(target)]);
    OthersTrans(m, g, fs', i);
    WholeText(Resize([], |target|), target);
  }

  lemma GrownBlock(m: Fs, i: nat, nb: u32, size: u64)
    requires WellFormed(m) && i < MAX_INODES && InData(nb) && m.freeBlocks > 0 && m.inodes[i].blockCount < DIRECT_BLOCKS
    ensures var g := LeafGrown(m, i, nb, size);
            && g.ibits == m.ibits && |g.inodes| == MAX_INODES && g.inodes[i].size == size
            && nb as nat in g.data && g.data[nb as nat] == ZeroBlock()
  {
    hide ZeroBlock;
  }

  lemma TextIs(target: Bytes)
    requires |target| <= BLOCK_SIZE
    ensures TextBlock(target) == Splice(ZeroBlock(), 0, target)
  {
  }

  lemma WholeText(c: Bytes, target: Bytes)
    requires |c| == |target|
    ensures Splice(c, 0, target) == target
  {
  }

  /** A new symbolic link, before it has a name. */
  lemma NewLink(fs: Fs, o: Owner, i: u32, ino: Inode, nb: u32, target: Bytes)
    requires FsInv(fs, o) && DirsOk(fs) && WellFormed(fs) && FirstFree(fs, i) && fs.freeInodes > 0 && fs.freeBlocks > 0
    requires SameShape(ino, FreshInode(fs.inodes[i])) && ino.generation == NextGeneration(fs.inodes[i].generation)
    requires ino.itype == TYPE_SYMLINK && ino.links == 1
    requires InData(nb) && !fs.bits[nb] && 0 < |target| <= MAX_PATH
    ensures var fs' := LinkMade(fs, i, ino, nb, target);
            MadeNode(fs, fs', o[nb as nat := Claim(i, Leaf(0))], i,
              Node(TYPE_SYMLINK, 1, ino.generation, target, map[]))
  {
    hide FsInv, Content, Slots, NextGeneration, EntryMap, OtherContents, GenStep, DirsOk, TextBlock, ZeroBlock, Val,
      SlotVal;
    var m, fs' := NodeMade(fs, i, ino), LinkMade(fs, i, ino, nb, target);
    NewNode(fs, o, i, ino);
    TextGrown(m, o, i, nb, target);
    var g := LeafGrown(m, i, nb, |target|);
    assert fs'.inodes == g.inodes;
    assert fs' == g.(data := g.data[nb as nat := TextBlock(target)]);
    assert OnlyNode(m, fs', i);
    OnlyNodeTrans(fs, m, fs', i);
    DirsUpdate(fs, fs', i);
    TreeUpdate(fs, fs', i);
    LinkGen(fs, m, fs', i);
  }

  lemma LinkGen(fs: Fs, m: Fs, fs': Fs, i: nat)
    requires GenStep(fs, m) && |fs'.inodes| == MAX_INODES && fs'.ibits == m.ibits
    requires forall j :: 0 <= j < MAX_INODES ==> fs'.inodes[j].generation == m.inodes[j].generation
    ensures GenStep(fs, fs')
  {
    hide NextGeneration;
  }

  ghost function SymlinkOutcome(fs: Fs, acc: Access, target: Bytes, path: Bytes): (x: Result<()>)
    ensures x.Ok? ==> Place(fs, acc, path, false).Ok?
  {
    if target == [] then Err(ENOENT)
    else if |target| > MAX_PATH then Err(ENAMETOOLONG)
    else
      var p := Place(fs, acc, path, false);
      if p.Err? then Err(p.error)
      else if fs.freeInodes == 0 || fs.freeBlocks == 0 || DirFull(fs, p.value.0, fs.freeBlocks - 1) then Err(ENOSPC)
      else Ok(())
  }

  /** The inode and the block of a new link, or neither. */
  method MakeLink(u: Ufs, target: Bytes, meta: Meta, ghost o: Owner)
    returns (r: Result<u32>, ghost node: Node, ghost o': Owner)
    requires u.Valid() && FsInv(u.fs, o) && DirsOk(u.fs) && 0 < |target| <= MAX_PATH
    modifies u`fs, u`sb, u.disk
    ensures u.Valid() && (r.Err? <==> old(u.fs).freeInodes == 0 || old(u.fs).freeBlocks == 0)
    ensures r.Err? ==> FsInv(u.fs, o') && DirsOk(u.fs) && TreeOf(u.fs) == TreeOf(old(u.fs)) && GenStep(old(u.fs), u.fs)
    ensures r.Ok? ==> MadeNode(old(u.fs), u.fs, o', r.value, node) && u.fs.freeBlocks == old(u.fs).freeBlocks - 1
                      && node == Node(TYPE_SYMLINK, 1, node.generation, target, map[])
  {
    hide Ufs.Valid, FsInv, DirsOk, TreeOf, GenStep, GenSame, SameShape, FreshInode, NextGeneration, NewInode,
      EmptyNode, TextBlock,
      ZeroBlock, OnlyNode;
    ghost var fs := u.fs;
    WellFormedInv(fs, o);
    GenReflexive(fs);
    GenSameStep(fs, fs);
    node, o' := Node(0, 0, 0, [], map[]), o;
    r := AllocateInode(u);
    if r.Err? {
      return;
    }
    var i := r.value;
    ghost var fs1 := u.fs;
    TakenShape(fs, i);
    FreshSelf(fs, o, i);
    var fresh_ := u.ReadInode(i);
    var ino := NewInode(TYPE_SYMLINK, fresh_.value.generation, meta);
    NewInodeShape(TYPE_SYMLINK, fresh_.value.generation, meta, fs.inodes[i]);
    NewInodeLinks(TYPE_SYMLINK, fresh_.value.generation, meta);
    var physical := AllocateDataBlock(u);
    if physical.Err? {
      var freed;
      freed, o' := FreeInode(u, i, o);
      GenThen(fs, fs1, u.fs);
      return Err(ENOSPC), node, o';
    }
    NewLink(fs, o, i, ino, physical.value, target);
    u.WriteData(physical.value, TextBlock(target));
    var _ := u.WriteInode(i, LinkInode(ino, physical.value, |target|));
    assert u.fs == LinkMade(fs, i, ino, physical.value, target);
    o' := o[physical.value as nat := Claim(i, Leaf(0))];
    node := Node(TYPE_SYMLINK, 1, ino.generation, target, map[]);
  }

  lemma NewInodeLinks(kind: u32, generation: u32, meta: Meta)
    ensures var ino := NewInode(kind, generation, meta);
            ino.itype == kind && ino.links == 1 && ino.generation == generation
  {
  }

  /** The slot as allocate_inode leaves it, and what giving it back at once restores. */
  lemma FreshSelf(fs: Fs, o: Owner, i: nat)
    requires FsInv(fs, o) && DirsOk(fs) && WellFormed(fs) && 1 <= i < MAX_INODES && !fs.ibits[i] && fs.freeInodes > 0
    ensures var fs1 := InodeTaken(fs, i);
            FsInv(fs1, o) && DirsOk(fs1) && GenStep(fs, fs1) && TreeOf(fs1) - {i} == TreeOf(fs)
  {
    hide FsInv, DirsOk, TreeOf, GenStep, NextGeneration, OnlyNode;
    var ino := FreshInode(fs.inodes[i]);
    NewNode(fs, o, i, ino);
    assert NodeMade(fs, i, ino) == InodeTaken(fs, i);
    assert TreeOf(fs)[i := EmptyNode(ino)] - {i} == TreeOf(fs);
  }

  /** ufs_symlink */
  method Symlink(u: Ufs, target: Bytes, path: Bytes, meta: Meta, now: Times, acc: Access, ghost o: Owner)
    returns (r: Result<()>, ghost o': Owner, ghost i: u32)
    requires u.Valid() && SysInv(u.fs, o) && NulFree(path) && NulFree(target)
    modifies u`fs, u`sb, u.disk
    ensures u.Valid() && SysInv(u.fs, o') && GenStep(old(u.fs), u.fs)
    ensures r == SymlinkOutcome(old(u.fs), acc, target, path)
    ensures r.Err? ==> TreeOf(u.fs) == TreeOf(old(u.fs))
    ensures r.Ok? ==> var p := Place(old(u.fs), acc, path, false).value;
                      && FirstFree(old(u.fs), i) && i < |old(u.fs).inodes|
                      && Entered(TreeOf(old(u.fs)), TreeOf(u.fs), p.0, p.1, i,
                                 Node(TYPE_SYMLINK, 1, NextGeneration(old(u.fs).inodes[i].generation), target, map[]))
  {
    hide Ufs.Valid, FsInv, Dir, DirOk, DirsOk, NodeOf, TreeOf, GoodName, NulFree, GenSame, GenStep, OtherContents,
      DirFull, Place,
      TreeInv, NextGeneration, OnlyNode, Entered, WithEntry;
    o', i := o, 0;
    ghost var fs := u.fs;
    SysGen(fs, o);
    GenSameStep(fs, fs);
    if target == [] {
      return Err(ENOENT), o, 0;
    }
    if |target| > MAX_PATH {
      return Err(ENAMETOOLONG), o, 0;
    }
    var place, _ := FindPlace(u, path, acc, false, o);
    if place.Err? {
      return Err(place.error), o, 0;
    }
    var dir, name := place.value.0, place.value.1;
    var slot;
    ghost var node;
    slot, node, o' := MakeLink(u, target, meta, o);
    if slot.Err? {
      return Err(ENOSPC), o', 0;
    }
    i := slot.value;
    ghost var fs1 := u.fs;
    PlaceFacts(fs, dir, i);
    r, o' := EnterNode(u, dir, name, slot.value, TYPE_SYMLINK, now, fs, o');
    GenThen(fs, fs1, u.fs);
    if r.Ok? {
      EnteredInv(TreeOf(fs), TreeOf(fs1), TreeOf(u.fs), dir, name, i, node);
    } else {
      assert TreeOf(fs)[i as nat := node] - {i as nat} == TreeOf(fs);
    }
  }

  ghost function ReadlinkOutcome(fs: Fs, acc: Access, path: Bytes, size: nat): Result<Bytes> {
    var r := ResolvePath(fs, acc, path, true);
    if size == 0 then Err(EINVAL)
    else if r.Err? then Err(r.error)
    else if r.value >= |fs.inodes| || fs.inodes[r.value].itype != TYPE_SYMLINK then Err(EINVAL)
    else Ok(ReadSlice(Content(fs, r.value), 0, size))
  }

  /** ufs_readlink: the text given to symlink, cut to the buffer. */
  method Readlink(u: Ufs, path: Bytes, size: nat, relatime: bool, now: Times, acc: Access,
      ghost o: Owner) returns (r: Result<Bytes>)
    requires u.Valid() && SysInv(u.fs, o)
    modifies u`fs, u.disk
    ensures u.Valid() && SysInv(u.fs, o) && TreeOf(u.fs) == TreeOf(old(u.fs)) && GenSame(old(u.fs), u.fs)
    ensures r == ReadlinkOutcome(old(u.fs), acc, path, size)
  {
    hide Ufs.Valid, FsInv, Content, DirsOk, NodeOf, TreeOf, GenSame, TreeInv, ResolvePath, NulFree, Names;
    SysGen(u.fs, o);
    SysNames(u.fs, o);
    if size == 0 {
      return Err(EINVAL);
    }
    var target := ResolvePathEx(u, path, NOFOLLOW_FINAL, acc, o);
    if target.Err? {
      return Err(target.error);
    }
    var i := target.value;
    var ri := u.ReadInode(i);
    var ino := ri.value;
    NodeKind(u.fs, i);
    if ino.itype != TYPE_SYMLINK {
      return Err(EINVAL);
    }
    LinkReadable(u.fs, o, i);
    var text := ReadSymlinkTarget(u, i, ino, o);
    var copied := Min(ino.size, size);
    if relatime {
      TouchInode(u, i, now, o);
    }
    return Ok(text.value[..copied]);
  }

  /** Every symbolic link of the tree can be read, and reads as its whole content. */
  lemma LinkReadable(fs: Fs, o: Owner, i: nat)
    requires SysInv(fs, o) && Allocated(fs, i) && i < |fs.inodes| && fs.inodes[i].itype == TYPE_SYMLINK
    ensures LinkTarget(fs, i) == Ok(Content(fs, i)) && 0 < fs.inodes[i].size <= MAX_PATH
  {
    hide FsInv, DirsOk, EntriesOk, LinksOk, Acyclic, NulFree, Content, NodeOf, EntryType;
    NodeLinks(fs, i);
    assert TargetOk(TreeOf(fs)[i].content);
    CStringWhole(Content(fs, i));
  }
}
