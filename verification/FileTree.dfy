/** The whole file system as a user sees it: a map from inodes to nodes, and the invariant that
    makes it a tree of directories with exact link counts (src/namespace.c). */
module FileTree {
  import opened Layout
  import opened Encoding
  import opened Context
  import opened Allocator
  import opened Ownership
  import opened FileContent
  import opened Paths
  import opened Directory
  import opened Resolve

  /** What an allocated inode holds: bytes for files and links, entries for directories. */
  datatype Node = Node(kind: u32, links: u32, generation: u32, content: Bytes, entries: map<Bytes, Entry>)

  type Tree = map<nat, Node>

  ghost function NodeOf(fs: Fs, i: nat): Node
    requires i < |fs.inodes|
  {
    var ino := fs.inodes[i];
    if ino.itype == TYPE_DIR then Node(ino.itype, ino.links, ino.generation, [], Dir(fs, i))
    else Node(ino.itype, ino.links, ino.generation, Content(fs, i), map[])
  }

  ghost function TreeOf(fs: Fs): (t: Tree)
    ensures forall i: nat :: i in t <==> Allocated(fs, i)
  {
    map i: nat | i < |fs.inodes| && Allocated(fs, i) :: NodeOf(fs, i)
  }

  // ---- the invariant ----

  /** The entries that name inode i. */
  ghost function Refs(t: Tree, i: nat): set<(nat, Bytes)> {
    set d, name | d in t && name in t[d].entries && t[d].entries[name].inum == i :: (d, name)
  }

  /** Directories rank strictly below the directory that holds them. */
  ghost predicate Ranked(t: Tree, rank: map<nat, nat>) {
    && (forall d :: d in t && t[d].kind == TYPE_DIR ==> d in rank)
    && forall d, name :: d in t && name in t[d].entries && t[d].entries[name].dtype == TYPE_DIR ==>
         d in rank && t[d].entries[name].inum in rank && rank[t[d].entries[name].inum] > rank[d]
  }

  ghost predicate Acyclic(t: Tree) { exists rank :: Ranked(t, rank) }

  ghost predicate EntryOk(t: Tree, name: Bytes, e: Entry) {
    GoodName(name) && NulFree(name) && e.inum in t && e.inum != ROOT_INODE && t[e.inum].kind == e.dtype
  }

  /** Every entry names an allocated inode of the recorded type; every inode but the root has as many
      entries as links, and at least one; a directory has one; directories form a tree. */
  ghost predicate TreeInv(t: Tree) {
    KindsOk(t) && EntriesOk(t) && LinksOk(t) && Acyclic(t)
  }

  ghost predicate KindsOk(t: Tree) {
    && ROOT_INODE in t && t[ROOT_INODE].kind == TYPE_DIR
    && forall i :: i in t ==> EntryType(t[i].kind) && (t[i].kind != TYPE_DIR ==> t[i].entries == map[])
                              && (t[i].kind == TYPE_SYMLINK ==> TargetOk(t[i].content))
  }

  /** Text a symbolic link may hold. */
  ghost predicate TargetOk(text: Bytes) { 0 < |text| <= MAX_PATH && NulFree(text) }

  ghost predicate EntriesOk(t: Tree) {
    forall d, name :: d in t && name in t[d].entries ==> EntryOk(t, name, t[d].entries[name])
  }

  ghost predicate LinksOk(t: Tree) {
    forall i :: i in t && i != ROOT_INODE ==>
      t[i].links == |Refs(t, i)| >= 1 && (t[i].kind == TYPE_DIR ==> t[i].links == 1)
  }

  ghost predicate DirsOk(fs: Fs) {
    forall d: nat :: Allocated(fs, d) && fs.inodes[d].itype == TYPE_DIR ==> DirOk(fs, d)
  }

  /** The invariant of a mounted file system between operations. */
  ghost predicate SysInv(fs: Fs, o: Owner) {
    FsInv(fs, o) && DirsOk(fs) && TreeInv(TreeOf(fs))
  }

  lemma SysNames(fs: Fs, o: Owner)
    requires SysInv(fs, o)
    ensures Names(fs, o)
  {
    hide FsInv, Dir, DirOk, Refs, Acyclic, Content;
    var t := TreeOf(fs);
    assert ROOT_INODE in t;
    forall d: nat | Allocated(fs, d) && fs.inodes[d].itype == TYPE_DIR
      ensures DirOk(fs, d) && forall name :: name in Dir(fs, d) ==> Allocated(fs, Dir(fs, d)[name].inum)
    {
      assert d in t && t[d].entries == Dir(fs, d);
      forall name | name in Dir(fs, d) ensures Allocated(fs, Dir(fs, d)[name].inum) {
        assert EntryOk(t, name, t[d].entries[name]);
      }
    }
  }

  lemma NodeIn(fs: Fs, i: nat)
    requires Allocated(fs, i)
    ensures i < |fs.inodes| && i in TreeOf(fs) && TreeOf(fs)[i] == NodeOf(fs, i)
  {
    hide Dir, Content;
  }

  // ---- consequences ----

  /** Descending from a directory never comes back to it. */
  lemma {:induction false} DescentRanks(fs: Fs, rank: map<nat, nat>, d: u32, st: Stack)
    requires DirsOk(fs) && TreeInv(TreeOf(fs)) && Ranked(TreeOf(fs), rank) && Allocated(fs, d)
    requires Lookup(fs, d, st).Ok? && st != []
    ensures var c := Lookup(fs, d, st).value;
            Allocated(fs, c) && fs.inodes[d].itype == TYPE_DIR
            && (fs.inodes[c].itype == TYPE_DIR ==> d in rank && c as nat in rank && rank[c as nat] > rank[d as nat])
    decreases |st|
  {
    hide Dir, Content, Refs, DirOk, Acyclic, GoodName, NulFree;
    var t := TreeOf(fs);
    var next := Dir(fs, d)[st[0]].inum;
    assert d as nat in t && t[d as nat].entries == Dir(fs, d);
    assert EntryOk(t, st[0], t[d as nat].entries[st[0]]);
    NodeIn(fs, next);
    if st[1..] != [] {
      DescentRanks(fs, rank, next, st[1..]);
      assert t[next as nat].kind == fs.inodes[next].itype;
    }
  }

  /** Directories form a tree: no path leads from a directory back to itself. */
  lemma NoCycle(fs: Fs, o: Owner, d: u32, st: Stack)
    requires SysInv(fs, o) && Allocated(fs, d) && fs.inodes[d].itype == TYPE_DIR && st != []
    ensures Lookup(fs, d, st) != Ok(d)
  {
    hide Dir, Lookup, FsInv, DirOk, Ranked, Refs;
    var rank :| Ranked(TreeOf(fs), rank);
    if Lookup(fs, d, st).Ok? {
      DescentRanks(fs, rank, d, st);
    }
  }

  lemma {:induction false} LookupAppend(fs: Fs, cur: u32, st: Stack, x: Name)
    requires Lookup(fs, cur, st).Ok?
    ensures var d := Lookup(fs, cur, st).value;
            d < |fs.inodes| && fs.inodes[d].itype == TYPE_DIR && x in Dir(fs, d) ==>
              Lookup(fs, cur, st + [x]) == Ok(Dir(fs, d)[x].inum)
    decreases |st|
  {
    hide Dir;
    if st != [] {
      assert (st + [x])[0] == st[0] && (st + [x])[1..] == st[1..] + [x];
      LookupAppend(fs, Dir(fs, cur)[st[0]].inum, st[1..], x);
    }
  }

  lemma NonEmpty<T>(s: set<T>)
    requires |s| >= 1
    ensures exists x :: x in s
  {
    assert s != {};
  }

  /** Where a non-root inode hangs. */
  lemma Parent(fs: Fs, i: nat) returns (d: nat, name: Bytes)
    requires TreeInv(TreeOf(fs)) && Allocated(fs, i) && i != ROOT_INODE
    ensures Allocated(fs, d) && fs.inodes[d].itype == TYPE_DIR && name in Dir(fs, d) && Dir(fs, d)[name].inum == i
    ensures Dir(fs, d)[name].dtype == fs.inodes[i].itype && (d, name) in Refs(TreeOf(fs), i)
  {
    hide Dir, Content, Acyclic, GoodName;
    var t := TreeOf(fs);
    assert i in t;
    NonEmpty(Refs(t, i));
    var r :| r in Refs(t, i);
    d, name := r.0, r.1;
    assert EntryOk(t, name, t[d].entries[name]);
  }

  /** Every directory is reached from the root. */
  lemma {:induction false} DirReached(fs: Fs, o: Owner, rank: map<nat, nat>, d: nat) returns (st: Stack)
    requires SysInv(fs, o) && Ranked(TreeOf(fs), rank) && Allocated(fs, d) && fs.inodes[d].itype == TYPE_DIR
    requires d in rank && d < MAX_INODES
    ensures Lookup(fs, ROOT_INODE, st) == Ok(d)
    decreases rank[d]
  {
    hide Dir, Content, Refs, DirOk, FsInv, TreeInv, Lookup;
    if d == ROOT_INODE {
      st := [];
      LookupHere(fs, d);
    } else {
      var p, x := Parent(fs, d);
      NodeIn(fs, p);
      assert TreeOf(fs)[p].entries[x].inum == d;
      InodeLimit(fs, o, p);
      st := DirReached(fs, o, rank, p);
      LookupAppend(fs, ROOT_INODE, st, x);
      st := st + [x];
    }
  }

  lemma LookupHere(fs: Fs, d: u32)
    ensures Lookup(fs, d, []) == Ok(d)
  {
  }

  lemma InodeLimit(fs: Fs, o: Owner, i: nat)
    requires FsInv(fs, o) && Allocated(fs, i)
    ensures i < MAX_INODES && i < |fs.inodes|
  {
    hide Owned, InodeOk, FreeSet, FreeInodes;
  }

  /** Every allocated inode has a path from the root. */
  lemma Reachable(fs: Fs, o: Owner, i: nat) returns (st: Stack)
    requires SysInv(fs, o) && Allocated(fs, i)
    ensures i < MAX_INODES && Lookup(fs, ROOT_INODE, st) == Ok(i)
  {
    hide Dir, Content, Refs, DirOk, FsInv, Ranked, Lookup;
    InodeLimit(fs, o, i);
    var rank :| Ranked(TreeOf(fs), rank);
    if i == ROOT_INODE {
      st := [];
      LookupHere(fs, i);
    } else {
      var d, x := Parent(fs, i);
      RankedDir(fs, rank, d);
      InodeLimit(fs, o, d);
      st := DirReached(fs, o, rank, d);
      LookupAppend(fs, ROOT_INODE, st, x);
      st := st + [x];
    }
  }

  lemma RankedDir(fs: Fs, rank: map<nat, nat>, d: nat)
    requires Ranked(TreeOf(fs), rank) && Allocated(fs, d) && fs.inodes[d].itype == TYPE_DIR
    ensures d in rank
  {
    hide Dir, Content;
    NodeIn(fs, d);
  }

  // ---- tree steps ----

  function WithEntry(t: Tree, d: nat, name: Bytes, e: Entry): Tree
    requires d in t
  {
    t[d := t[d].(entries := t[d].entries[name := e])]
  }

  function WithoutEntry(t: Tree, d: nat, name: Bytes): Tree
    requires d in t
  {
    t[d := t[d].(entries := t[d].entries - {name})]
  }

  function WithLinks(t: Tree, i: nat, links: u32): Tree
    requires i in t
  {
    t[i := t[i].(links := links)]
  }

  /** A new entry is one more reference to its inode. */
  lemma RefsAdd(t: Tree, t': Tree, d: nat, name: Bytes, e: Entry, j: nat)
    requires d in t && name !in t[d].entries
    requires t'.Keys >= t.Keys && d in t' && t'[d].entries == t[d].entries[name := e]
    requires forall k :: k in t && k != d ==> t'[k].entries == t[k].entries
    requires forall k :: k in t' && k !in t ==> t'[k].entries == map[]
    ensures Refs(t', j) == if j == e.inum then Refs(t, j) + {(d, name)} else Refs(t, j)
    ensures (d, name) !in Refs(t, j)
  {
  }

  /** A removed entry is one reference less. */
  lemma RefsDrop(t: Tree, t': Tree, d: nat, name: Bytes, j: nat)
    requires d in t && name in t[d].entries
    requires t'.Keys <= t.Keys && d in t' && t'[d].entries == t[d].entries - {name}
    requires forall k :: k in t' && k != d ==> t'[k].entries == t[k].entries
    requires forall k :: k in t && k !in t' ==> t[k].entries == map[]
    ensures Refs(t', j) == if j == t[d].entries[name].inum then Refs(t, j) - {(d, name)} else Refs(t, j)
    ensures j == t[d].entries[name].inum ==> (d, name) in Refs(t, j)
  {
  }

  /** A new inode under a new name. */
  lemma AddNode(t: Tree, d: nat, name: Bytes, i: u32, node: Node)
    requires TreeInv(t) && d in t && t[d].kind == TYPE_DIR && name !in t[d].entries && i as nat !in t
    requires GoodName(name) && NulFree(name) && EntryType(node.kind) && node.links == 1 && node.entries == map[]
    requires node.kind == TYPE_SYMLINK ==> TargetOk(node.content)
    ensures TreeInv(WithEntry(t, d, name, Entry(i, node.kind))[i as nat := node])
  {
    hide Refs, GoodName, NulFree, Ranked, EntryOk, LinksOk, EntriesOk, TargetOk;
    var e := Entry(i, node.kind);
    var t' := WithEntry(t, d, name, e)[i as nat := node];
    assert t'[d] == t[d].(entries := t[d].entries[name := e]);
    LinksNew(t, t', d, name, e, node);
    EntriesMore(t, t', d, name, e);
    var rank :| Ranked(t, rank);
    EntryTargets(t);
    RankNew(t, t', rank, d, name, e);
  }

  lemma EntryTargets(t: Tree)
    requires EntriesOk(t)
    ensures forall k, x :: k in t && x in t[k].entries ==> t[k].entries[x].inum in t
  {
    hide GoodName, NulFree;
    forall k, x | k in t && x in t[k].entries ensures t[k].entries[x].inum in t {
      assert EntryOk(t, x, t[k].entries[x]);
    }
  }

  lemma LinksNew(t: Tree, t': Tree, d: nat, name: Bytes, e: Entry, node: Node)
    requires EntriesOk(t) && LinksOk(t) && d in t && name !in t[d].entries && e.inum as nat !in t
    requires t' == WithEntry(t, d, name, e)[e.inum as nat := node] && node.links == 1 && node.entries == map[]
    ensures LinksOk(t')
  {
    hide Refs, EntryOk, EntriesOk;
    NoRefs(t, e.inum);
    forall j | j in t' && j != ROOT_INODE
      ensures t'[j].links == |Refs(t', j)| >= 1 && (t'[j].kind == TYPE_DIR ==> t'[j].links == 1)
    {
      RefsAdd(t, t', d, name, e, j);
    }
  }

  lemma NoRefs(t: Tree, i: nat)
    requires EntriesOk(t) && i !in t
    ensures Refs(t, i) == {}
  {
    hide GoodName, NulFree;
    forall d, x | d in t && x in t[d].entries ensures t[d].entries[x].inum != i {
      assert EntryOk(t, x, t[d].entries[x]);
    }
  }

  lemma RankNew(t: Tree, t': Tree, rank: map<nat, nat>, d: nat, name: Bytes, e: Entry)
    requires Ranked(t, rank) && d in t && t[d].kind == TYPE_DIR && e.inum as nat !in t
    requires forall k, x :: k in t && x in t[k].entries ==> t[k].entries[x].inum in t
    requires forall k :: k in t' <==> k in t || k == e.inum
    requires d in t' && t'[d] == t[d].(entries := t[d].entries[name := e])
    requires forall k :: k in t && k != d ==> t'[k] == t[k]
    requires t'[e.inum as nat].entries == map[]
    ensures Acyclic(t')
  {
    var rank' := rank[e.inum as nat := rank[d] + 1];
    assert Ranked(t', rank');
  }

  /** One more name for a file or link. */
  lemma AddLink(t: Tree, d: nat, name: Bytes, i: u32)
    requires TreeInv(t) && d in t && t[d].kind == TYPE_DIR && name !in t[d].entries
    requires i as nat in t && t[i as nat].kind != TYPE_DIR && t[i as nat].links < 0xFFFF_FFFF
    requires GoodName(name) && NulFree(name)
    ensures TreeInv(WithLinks(WithEntry(t, d, name, Entry(i, t[i as nat].kind)), i, t[i as nat].links + 1))
  {
    hide Refs, GoodName, NulFree, Ranked, EntryOk, LinksOk, EntriesOk, TargetOk;
    var e := Entry(i, t[i as nat].kind);
    var t' := WithLinks(WithEntry(t, d, name, e), i, t[i as nat].links + 1);
    LinksMore(t, t', d, name, e);
    EntriesMore(t, t', d, name, e);
    var rank :| Ranked(t, rank);
    RankKept(t, t', rank);
  }

  lemma LinksMore(t: Tree, t': Tree, d: nat, name: Bytes, e: Entry)
    requires LinksOk(t) && d in t && name !in t[d].entries && e.inum as nat in t && e.inum != d && e.inum != ROOT_INODE
    requires t[e.inum as nat].kind != TYPE_DIR && t[e.inum as nat].links < 0xFFFF_FFFF
    requires t' == WithLinks(WithEntry(t, d, name, e), e.inum, t[e.inum as nat].links + 1)
    ensures LinksOk(t')
  {
    hide Refs;
    forall j | j in t' && j != ROOT_INODE
      ensures t'[j].links == |Refs(t', j)| >= 1 && (t'[j].kind == TYPE_DIR ==> t'[j].links == 1)
    {
      RefsAdd(t, t', d, name, e, j);
    }
  }

  lemma EntriesMore(t: Tree, t': Tree, d: nat, name: Bytes, e: Entry)
    requires EntriesOk(t) && d in t && GoodName(name) && NulFree(name) && e.inum != ROOT_INODE
    requires forall k :: k in t ==> k in t' && t'[k].kind == t[k].kind
    requires e.inum as nat in t' && t'[e.inum as nat].kind == e.dtype
    requires forall k, x :: k in t' && x in t'[k].entries && !(k == d && x == name) ==>
               k in t && x in t[k].entries && t'[k].entries[x] == t[k].entries[x]
    requires d in t' && name in t'[d].entries ==> t'[d].entries[name] == e
    ensures EntriesOk(t')
  {
    hide GoodName, NulFree;
    forall k, x | k in t' && x in t'[k].entries ensures EntryOk(t', x, t'[k].entries[x]) {
      if !(k == d && x == name) {
        assert EntryOk(t, x, t[k].entries[x]);
      }
    }
  }

  /** Nothing new among the directories. */
  lemma RankKept(t: Tree, t': Tree, rank: map<nat, nat>)
    requires Ranked(t, rank)
    requires forall k :: k in t' ==> k in t && t'[k].kind == t[k].kind
    requires forall k, x :: k in t' && x in t'[k].entries && t'[k].entries[x].dtype == TYPE_DIR ==>
               x in t[k].entries && t[k].entries[x] == t'[k].entries[x]
    ensures Acyclic(t')
  {
    assert Ranked(t', rank);
  }

  /** One name less; the last one takes the inode with it. */
  function Unlinked(t: Tree, d: nat, name: Bytes): Tree
    requires d in t && name in t[d].entries && t[d].entries[name].inum as nat in t
  {
    var i := t[d].entries[name].inum as nat;
    if t[i].links <= 1 then WithoutEntry(t, d, name) - {i}
    else WithoutEntry(t, d, name)[i := t[i].(links := t[i].links - 1)]
  }

  lemma DropLink(t: Tree, d: nat, name: Bytes)
    requires TreeInv(t) && d in t && name in t[d].entries && t[d].entries[name].inum as nat in t
    requires var i := t[d].entries[name].inum as nat; t[i].kind != TYPE_DIR || t[i].entries == map[]
    ensures TreeInv(Unlinked(t, d, name)) && d != t[d].entries[name].inum
  {
    hide Refs, Ranked, EntryOk, LinksOk, EntriesOk, TargetOk, Unlinked;
    DropTarget(t, d, name);
    var t' := Unlinked(t, d, name);
    var rank :| Ranked(t, rank);
    NotOwnEntry(t, rank, d, name);
    LinksFewer(t, t', d, name);
    EntriesFewer(t, t', d, name);
    KindsFewer(t, t', d, name);
    RankFewer(t, t', d, name, rank);
  }

  lemma DropTarget(t: Tree, d: nat, name: Bytes)
    requires KindsOk(t) && d in t && name in t[d].entries && t[d].entries[name].inum as nat in t
    requires var i := t[d].entries[name].inum as nat; t[i].kind != TYPE_DIR || t[i].entries == map[]
    ensures t[t[d].entries[name].inum as nat].entries == map[]
  {
    hide TargetOk;
  }

  lemma KindsFewer(t: Tree, t': Tree, d: nat, name: Bytes)
    requires KindsOk(t) && d in t && name in t[d].entries && t[d].entries[name].inum as nat in t
    requires t[d].entries[name].inum != ROOT_INODE && t[d].entries[name].inum != d && t' == Unlinked(t, d, name)
    ensures KindsOk(t')
  {
    hide TargetOk;
  }

  lemma RankFewer(t: Tree, t': Tree, d: nat, name: Bytes, rank: map<nat, nat>)
    requires Ranked(t, rank) && d in t && name in t[d].entries && t[d].entries[name].inum as nat in t
    requires t[d].entries[name].inum != d && t' == Unlinked(t, d, name)
    ensures Acyclic(t')
  {
    hide Ranked;
    RankKept(t, t', rank);
  }

  lemma LinksFewer(t: Tree, t': Tree, d: nat, name: Bytes)
    requires LinksOk(t) && d in t && name in t[d].entries && t[d].entries[name].inum as nat in t
    requires var i := t[d].entries[name].inum as nat;
             i != d && i != ROOT_INODE && (t[i].links <= 1 ==> t[i].entries == map[]) && t' == Unlinked(t, d, name)
    ensures LinksOk(t')
    ensures t[d].entries[name].inum as nat !in t' ==> Refs(t', t[d].entries[name].inum) == {}
  {
    hide Refs;
    var i := t[d].entries[name].inum as nat;
    forall j | j in t' && j != ROOT_INODE
      ensures t'[j].links == |Refs(t', j)| >= 1 && (t'[j].kind == TYPE_DIR ==> t'[j].links == 1)
    {
      RefsDrop(t, t', d, name, j);
    }
    RefsDrop(t, t', d, name, i);
    if t[i].links <= 1 {
      OneRef(Refs(t, i), (d, name));
    }
  }

  lemma EntriesFewer(t: Tree, t': Tree, d: nat, name: Bytes)
    requires EntriesOk(t) && d in t && name in t[d].entries && t[d].entries[name].inum as nat in t
    requires var i := t[d].entries[name].inum as nat;
             i != d && t' == Unlinked(t, d, name) && (i !in t' ==> Refs(t', i) == {})
    ensures EntriesOk(t')
  {
    hide Refs, GoodName, NulFree;
    var i := t[d].entries[name].inum as nat;
    forall k, x | k in t' && x in t'[k].entries ensures EntryOk(t', x, t'[k].entries[x]) {
      assert EntryOk(t, x, t[k].entries[x]);
      if i !in t' {
        NotInRefs(t', i, k, x);
      }
    }
  }

  lemma NotOwnEntry(t: Tree, rank: map<nat, nat>, d: nat, name: Bytes)
    requires TreeInv(t) && Ranked(t, rank) && d in t && name in t[d].entries
    ensures t[d].entries[name].inum != d && t[d].entries[name].inum != ROOT_INODE
  {
    hide Refs, GoodName, NulFree, Acyclic;
    assert EntryOk(t, name, t[d].entries[name]);
  }

  lemma OneRef<T>(s: set<T>, x: T)
    requires |s| == 1 && x in s
    ensures s - {x} == {}
  {
    assert |s - {x}| == 0;
  }

  lemma NotInRefs(t: Tree, i: nat, k: nat, x: Bytes)
    requires Refs(t, i) == {} && k in t && x in t[k].entries
    ensures t[k].entries[x].inum != i
  {
    assert (k, x) in Refs(t, i) <==> t[k].entries[x].inum == i;
  }

  /** File contents do not matter to the shape of the tree. */
  lemma ContentFree(t: Tree, i: nat, content: Bytes)
    requires TreeInv(t) && i in t && t[i].kind != TYPE_SYMLINK
    ensures TreeInv(t[i := t[i].(content := content)])
  {
    hide Refs, GoodName, NulFree, Ranked, EntryOk;
    var t' := t[i := t[i].(content := content)];
    forall j ensures Refs(t', j) == Refs(t, j) {
      RefsSame(t, t', j);
    }
    var rank :| Ranked(t, rank);
    RankKept(t, t', rank);
    forall k, x | k in t' && x in t'[k].entries ensures EntryOk(t', x, t'[k].entries[x]) {
      EntrySame(t, t', x, t[k].entries[x]);
    }
  }

  lemma EntrySame(t: Tree, t': Tree, name: Bytes, e: Entry)
    requires EntryOk(t, name, e) && t'.Keys == t.Keys && forall k :: k in t ==> t'[k].kind == t[k].kind
    ensures EntryOk(t', name, e)
  {
    hide GoodName, NulFree;
  }

  lemma RefsSame(t: Tree, t': Tree, j: nat)
    requires t'.Keys == t.Keys && forall k :: k in t ==> t'[k].entries == t[k].entries
    ensures Refs(t', j) == Refs(t, j)
  {
  }
}
