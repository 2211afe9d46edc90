/** What the namespace operations mean for paths: they act where resolution leads, what they make is
    found under its path, what they remove is gone, and nothing else moves. */
module Places {
  import opened Layout
  import opened Encoding
  import opened Context
  import opened Ownership
  import opened FileContent
  import opened Paths
  import opened Directory
  import opened Resolve
  import opened LinkLaws
  import opened FileTree
  import opened Effects
  import opened FileIo
  import opened Mmap
  import opened Namespace

  // ---- where an operation acts ----

  /** It acts under the last name, in the directory the path before it resolves to, which it may change. */
  lemma PlaceIs(fs: Fs, acc: Access, init: Stack, x: Name, present: bool)
    requires GoodStack(init) && GoodName(x) && Place(fs, acc, Render(init + [x]), present).Ok?
    ensures ResolvePath(fs, acc, Render(init), false).Ok?
    ensures var d := ResolvePath(fs, acc, Render(init), false).value;
            && Place(fs, acc, Render(init + [x]), present).value == (d, x)
            && d < |fs.inodes| && acc(fs.inodes[d], 3)
  {
    hide ResolveWithin, Components, Join, Dir, GoodName;
    var st := init + [x];
    assert GoodStack(st);
    assert st[..|st| - 1] == init;
    PushLength(init, x);
    JoinPush(init, x);
    ComponentsOfRender(st);
    ComponentsOfRender(init);
    CanonicalShort(st);
    assert Canonical(Render(init));
  }

  lemma CanonicalShort(st: Stack)
    requires GoodStack(st) && Canonical(Render(st))
    ensures |Render(st)| <= MAX_PATH
  {
    hide Render, GoodStack;
  }

  /** The entry it finds there is the one a path lookup without following finds. */
  lemma PlaceEntry(fs: Fs, acc: Access, path: Bytes, i: u32)
    requires ResolvePath(fs, acc, path, true) == Ok(i) && Place(fs, acc, path, true).Ok?
    ensures var p := Place(fs, acc, path, true).value; Dir(fs, p.0)[p.1].inum == i
  {
    hide ResolveWithin, Components, Dir;
    if path == [SLASH] {
      RootHasNoParent();
    }
    LstatSeesUnlinked(fs, acc, path);
  }

  lemma RootHasNoParent()
    ensures Components([SLASH], 0) == []
  {
    ComponentsOfRender([]);
  }

  /** So unlink of a path takes away exactly the entry behind what lstat shows. */
  lemma UnlinkTakes(fs: Fs, acc: Access, path: Bytes, i: u32, t': Tree)
    requires ResolvePath(fs, acc, path, true) == Ok(i) && Place(fs, acc, path, true).Ok?
    requires var p := Place(fs, acc, path, true).value; Dropped(TreeOf(fs), t', p.0, p.1) && Allocated(fs, p.0)
    ensures i as nat in TreeOf(fs)
    ensures i as nat in t' ==> t'[i as nat].links == TreeOf(fs)[i as nat].links - 1
    ensures i as nat !in t' ==> TreeOf(fs)[i as nat].links <= 1
    ensures var p := Place(fs, acc, path, true).value;
            i != p.0 ==> p.0 as nat in t' && t'[p.0 as nat].entries == Dir(fs, p.0) - {p.1}
  {
    hide ResolvePath, Place, Dir, NodeOf;
    var p := Place(fs, acc, path, true).value;
    PlaceEntry(fs, acc, path, i);
    NodeLinks(fs, p.0);
  }

  // ---- room for one more ----

  lemma {:induction false} EntryCount(es: seq<Dirent>)
    requires UniqueNames(es)
    ensures |EntryMap(es)| <= |es| && (|EntryMap(es)| == |es| <==> forall k :: 0 <= k < |es| ==> es[k].used)
  {
    if es != [] {
      var init, last := es[..|es| - 1], es[|es| - 1];
      EntryCount(init);
      if last.used && last.name in EntryMap(init) {
        var j := EntryMapFrom(init, last.name);
        assert false;
      }
      assert forall k :: 0 <= k < |init| ==> init[k] == es[k];
    }
  }

  /** A directory holds eight names to a block and eight blocks at most; it has no room exactly if its
      blocks are full of names and it can get no further block. */
  lemma DirectoryFull(fs: Fs, d: nat, free: nat)
    requires DirOk(fs, d)
    ensures |Dir(fs, d)| <= 64
    ensures DirFull(fs, d, free) <==>
              |Dir(fs, d)| == 8 * fs.inodes[d].blockCount && (fs.inodes[d].blockCount == 8 || free == 0)
  {
    hide Content, UniqueNames;
    DirCovered(fs, d);
    EntryCount(Slots(Content(fs, d)));
  }

  /** Directory d can take one more name when so many blocks are free. */
  ghost predicate HasRoom(fs: Fs, d: nat, free: int)
    requires d < |fs.inodes|
  {
    |Dir(fs, d)| < 8 * fs.inodes[d].blockCount || (fs.inodes[d].blockCount < 8 && free > 0)
  }

  lemma RoomIs(fs: Fs, o: Owner, acc: Access, path: Bytes, free: nat)
    requires SysInv(fs, o) && Place(fs, acc, path, false).Ok?
    ensures var d := Place(fs, acc, path, false).value.0; DirFull(fs, d, free) <==> !HasRoom(fs, d, free)
  {
    hide SysInv, Dir, DirFull, DirOk, Names, Render, GoodName, Place, ResolveWithin;
    var init, x := PlaceParts(fs, acc, path, false);
    var d := Place(fs, acc, path, false).value.0;
    SysNames(fs, o);
    ResolvedAllocated(fs, o, acc, init, false, 40);
    NamesDir(fs, o, d);
    DirSmall(fs, o, d);
  }

  lemma DirSmall(fs: Fs, o: Owner, d: nat)
    requires DirOk(fs, d)
    ensures forall free: nat :: DirFull(fs, d, free) <==> !HasRoom(fs, d, free)
  {
    hide Content, UniqueNames, DirFull, Dir;
    DirCovered(fs, d);
    EntryMapSmall(fs, d);
    forall free: nat ensures DirFull(fs, d, free) <==> !HasRoom(fs, d, free) {
      DirectoryFull(fs, d, free);
    }
  }

  lemma EntryMapSmall(fs: Fs, d: nat)
    requires DirOk(fs, d)
    ensures |Dir(fs, d)| <= 8 * fs.inodes[d].blockCount && fs.inodes[d].blockCount <= 8
  {
    hide Content, UniqueNames;
    DirCovered(fs, d);
    EntryCount(Slots(Content(fs, d)));
  }

  /** create, mkdir, link and symlink succeed exactly when there is a place, an inode and room. */
  lemma MakingSucceeds(fs: Fs, o: Owner, acc: Access, path: Bytes, target: Bytes)
    requires SysInv(fs, o)
    ensures CreateOutcome(fs, acc, path).Ok? <==>
              var p := Place(fs, acc, path, false); p.Ok? && fs.freeInodes > 0 && HasRoom(fs, p.value.0, fs.freeBlocks)
    ensures SymlinkOutcome(fs, acc, target, path).Ok? <==>
              var p := Place(fs, acc, path, false);
              p.Ok? && 0 < |target| <= 255 && fs.freeInodes > 0 && fs.freeBlocks > 0
              && HasRoom(fs, p.value.0, fs.freeBlocks - 1)
    ensures LinkOutcome(fs, acc, target, path).Ok? <==>
              var r, p := ResolvePath(fs, acc, target, true), Place(fs, acc, path, false);
              r.Ok? && p.Ok? && r.value < |fs.inodes| && fs.inodes[r.value].itype != 2
              && fs.inodes[r.value].links < 0xFFFF_FFFF && HasRoom(fs, p.value.0, fs.freeBlocks)
  {
    hide SysInv, DirFull, Place, HasRoom, ResolvePath;
    if Place(fs, acc, path, false).Ok? {
      RoomIs(fs, o, acc, path, fs.freeBlocks);
      if fs.freeBlocks > 0 {
        RoomIs(fs, o, acc, path, fs.freeBlocks - 1);
      }
    }
  }

  /** rmdir takes empty directories only, unlink anything else that nobody has open or mapped. */
  lemma RemovingSucceeds(fs: Fs, acc: Access, path: Bytes, ds: seq<Descriptor>, ms: seq<Mapping>, i: u32)
    requires ResolvePath(fs, acc, path, true) == Ok(i) && i < |fs.inodes| && path != [SLASH]
    ensures RmdirOutcome(fs, acc, path).Ok? <==>
              Place(fs, acc, path, true).Ok? && fs.inodes[i].itype == 2 && Dir(fs, i) == map[]
    ensures UnlinkOutcome(fs, acc, path, ds, ms).Ok? <==>
              && Place(fs, acc, path, true).Ok? && fs.inodes[i].itype != 2
              && (forall k :: 0 <= k < |ds| && ds[k].inUse ==> ds[k].inum != i)
              && (forall k :: 0 <= k < |ms| && ms[k].inUse ==> ms[k].inum != i)
  {
    hide Place, Dir, ResolvePath;
    if Place(fs, acc, path, true).Ok? {
      PlaceEntry(fs, acc, path, i);
    }
  }

  /** There is a place wherever the directory is found, may be changed, and has or lacks the name. */
  lemma PlaceExists(fs: Fs, acc: Access, init: Stack, x: Name, present: bool)
    requires GoodStack(init) && GoodName(x) && |Render(init + [x])| <= 255
    requires ResolvePath(fs, acc, Render(init), false).Ok?
    requires var d := ResolvePath(fs, acc, Render(init), false).value;
             d < |fs.inodes| && fs.inodes[d].itype == 2 && acc(fs.inodes[d], 3) && (x in Dir(fs, d) <==> present)
    ensures Place(fs, acc, Render(init + [x]), present).Ok?
  {
    hide ResolveWithin, Components, Join, Dir, GoodName;
    var st := init + [x];
    assert st[..|st| - 1] == init && GoodStack(st);
    ComponentsOfRender(st);
    ComponentsOfRender(init);
    assert Canonical(Render(st));
  }

  // ---- two file systems that agree on what a walk needs ----

  /** Inode i leads a walk the same way in both, as a file or as a link. */
  ghost predicate SameTurn(fs: Fs, fs': Fs, i: nat) {
    && i < |fs.inodes| && i < |fs'.inodes| && fs'.inodes[i].itype == fs.inodes[i].itype
    && (fs.inodes[i].itype == TYPE_SYMLINK ==> LinkTarget(fs', i) == LinkTarget(fs, i))
  }

  ghost predicate Searchable(fs: Fs, acc: Access) {
    forall d: nat :: Allocated(fs, d) && d < |fs.inodes| && fs.inodes[d].itype == TYPE_DIR ==> acc(fs.inodes[d], 1)
  }

  lemma SameTarget(fs: Fs, o: Owner, fs': Fs, o': Owner, i: nat)
    requires SysInv(fs, o) && SysInv(fs', o') && Allocated(fs, i) && Allocated(fs', i)
    requires var t, t' := TreeOf(fs), TreeOf(fs'); t'[i].kind == t[i].kind && t'[i].content == t[i].content
    ensures SameTurn(fs, fs', i)
  {
    hide SysInv, NodeOf, LinkTarget, Content;
    NodeLinks(fs, i);
    NodeLinks(fs', i);
    if fs.inodes[i].itype == TYPE_SYMLINK {
      LinkReadable(fs, o, i);
      LinkReadable(fs', o', i);
    }
  }

  // ---- after something was added ----

  /** Every inode keeps its turn and every directory its entries. */
  ghost predicate Extends(fs: Fs, fs': Fs) {
    forall i: nat :: Allocated(fs, i) ==>
      && Allocated(fs', i) && SameTurn(fs, fs', i)
      && (fs.inodes[i].itype == TYPE_DIR ==>
            forall x :: x in Dir(fs, i) ==> x in Dir(fs', i) && Dir(fs', i)[x].inum == Dir(fs, i)[x].inum)
  }

  lemma TreeExtends(fs: Fs, o: Owner, fs': Fs, o': Owner)
    requires SysInv(fs, o) && SysInv(fs', o')
    requires var t, t' := TreeOf(fs), TreeOf(fs');
             forall i :: i in t ==>
               && i in t' && t'[i].kind == t[i].kind && t'[i].content == t[i].content
               && forall x :: x in t[i].entries ==> x in t'[i].entries && t'[i].entries[x] == t[i].entries[x]
    ensures Extends(fs, fs')
  {
    hide SysInv, NodeOf, SameTurn, Dir;
    forall i: nat | Allocated(fs, i)
      ensures Allocated(fs', i) && SameTurn(fs, fs', i) && i < |fs.inodes|
      ensures fs.inodes[i].itype == TYPE_DIR ==>
                forall x :: x in Dir(fs, i) ==> x in Dir(fs', i) && Dir(fs', i)[x].inum == Dir(fs, i)[x].inum
    {
      assert i in TreeOf(fs);
      SameTarget(fs, o, fs', o', i);
      NodeLinks(fs, i);
      NodeLinks(fs', i);
      SameKind(fs, fs', i);
    }
  }

  lemma SameKind(fs: Fs, fs': Fs, i: nat)
    requires SameTurn(fs, fs', i)
    ensures i < |fs.inodes| && i < |fs'.inodes| && fs'.inodes[i].itype == fs.inodes[i].itype
  {
  }

  /** A walk that did not fail goes the same way. */
  lemma {:induction false} WalkExtends(fs: Fs, o: Owner, fs': Fs, acc: Access, cur: u32, done: Stack, rest: Stack,
      nofollow: bool)
    requires Names(fs, o) && Extends(fs, fs') && Searchable(fs', acc) && Allocated(fs, cur)
    requires !Walk(fs, acc, cur, done, rest, nofollow).Fail?
    ensures Walk(fs', acc, cur, done, rest, nofollow) == Walk(fs, acc, cur, done, rest, nofollow)
    decreases |rest|
  {
    hide Dir, FsInv, DirOk, LinkTarget, Fold, Components;
    assert SameTurn(fs, fs', cur);
    if rest != [] {
      var next := Dir(fs, cur)[rest[0]].inum;
      assert Allocated(fs, next);
      assert SameTurn(fs, fs', next);
      if !Walk(fs, acc, next, done + [rest[0]], rest[1..], nofollow).Fail? {
        WalkExtends(fs, o, fs', acc, next, done + [rest[0]], rest[1..], nofollow);
      }
    }
  }

  /** Nothing is lost: a path that resolved still resolves, to the same inode. */
  lemma {:induction false} StillResolves(fs: Fs, o: Owner, fs': Fs, acc: Access, st: Stack, nofollow: bool, fuel: nat)
    requires Names(fs, o) && Extends(fs, fs') && Searchable(fs', acc) && ResolveWithin(fs, acc, st, nofollow, fuel).Ok?
    ensures ResolveWithin(fs', acc, st, nofollow, fuel) == ResolveWithin(fs, acc, st, nofollow, fuel)
    decreases fuel
  {
    hide Walk, Names, Extends;
    RootAllocated(fs, o);
    WalkExtends(fs, o, fs', acc, ROOT_INODE, [], st, nofollow);
    var p := Start(fs, acc, st, nofollow);
    if p.Jump? {
      StillResolves(fs, o, fs', acc, p.to, nofollow, fuel - 1);
    }
  }

  lemma RootAllocated(fs: Fs, o: Owner)
    requires Names(fs, o)
    ensures Allocated(fs, ROOT_INODE)
  {
    hide FsInv, DirOk, Dir;
  }

  // ---- one more component ----

  /** With x behind it, no rewriting of the path on the way outgrows the longest path. */
  ghost predicate Fits(fs: Fs, acc: Access, st: Stack, x: Name, fuel: nat)
    decreases fuel
  {
    var p := Start(fs, acc, st, false);
    fuel > 0 && p.Jump? ==> |Render(p.to + [x])| <= 255 && Fits(fs, acc, p.to, x, fuel - 1)
  }

  /** The same for the last name of a path and the path before it. */
  ghost predicate PathFits(fs: Fs, acc: Access, path: Bytes) {
    var st := Components(path, 0);
    st != [] ==> Fits(fs, acc, st[..|st| - 1], st[|st| - 1], 40)
  }

  /** The expansion of a link with x behind the rest of the path. */
  lemma ExpansionMore(fs: Fs, i: nat, done: Stack, rest: Stack, x: Name)
    requires i < |fs.inodes| && GoodName(x) && Expansion(fs, i, done, rest).Jump?
    ensures var to := Expansion(fs, i, done, rest).to;
            Expansion(fs, i, done, rest + [x])
            == if |Render(to + [x])| <= MAX_PATH then Jump(to + [x]) else Fail(ENAMETOOLONG)
  {
    hide Components, Fold, LinkTarget, Join;
    var t := LinkTarget(fs, i).value;
    var a, b := Combined(done, t, rest), Combined(done, t, rest + [x]);
    JoinLast(rest, x);
    JoinNothing();
    JoinPush([], x);
    var st: Stack := [x];
    assert [] + [x] == st;
    assert b == a + Render(st);
    NormalizedCompose(a, Render(st));
    ComponentsOfRender(st);
    var to := Fold([], Components(a, 0)).value;
    FoldOne(to, x, []);
    assert [x] + [] == st;
    FoldNothing(to + [x]);
  }

  /** If the walk to a directory succeeds, one more name is looked up there. */
  lemma {:induction false} WalkMore(fs: Fs, acc: Access, cur: u32, done: Stack, rest: Stack, x: Name)
    requires GoodName(x) && !Walk(fs, acc, cur, done, rest, false).Fail?
    ensures var part, full := Walk(fs, acc, cur, done, rest, false), Walk(fs, acc, cur, done, rest + [x], true);
            && (part.Jump? ==> full == if |Render(part.to + [x])| <= MAX_PATH then Jump(part.to + [x])
                                       else Fail(ENAMETOOLONG))
            && (part.At? && part.inum < |fs.inodes| && fs.inodes[part.inum].itype == TYPE_DIR ==>
                  full == Walk(fs, acc, part.inum, done + rest, [x], true))
    decreases |rest|
  {
    hide Dir, Expansion, Render;
    var all := rest + [x];
    if rest == [] {
      assert all == [x] && done + rest == done;
    } else {
      assert all[0] == rest[0] && all[1..] == rest[1..] + [x];
      var next := Dir(fs, cur)[rest[0]].inum;
      if next < |fs.inodes| && fs.inodes[next].itype == TYPE_SYMLINK {
        ExpansionMore(fs, next, done, rest[1..], x);
      } else {
        WalkMore(fs, acc, next, done + [rest[0]], rest[1..], x);
        assert done + [rest[0]] + rest[1..] == done + rest;
      }
    }
  }

  /** The entry that a path one name longer than a directory's finds. */
  lemma {:induction false} EntryFound(fs: Fs, acc: Access, init: Stack, x: Name, fuel: nat)
    requires GoodName(x) && ResolveWithin(fs, acc, init, false, fuel).Ok?
    requires var d := ResolveWithin(fs, acc, init, false, fuel).value;
             d < |fs.inodes| && fs.inodes[d].itype == TYPE_DIR && acc(fs.inodes[d], 1)
             && (x in Dir(fs, d) ==> Dir(fs, d)[x].inum < |fs.inodes|)
    ensures var d := ResolveWithin(fs, acc, init, false, fuel).value;
            ResolveWithin(fs, acc, init + [x], true, fuel)
            == if !Fits(fs, acc, init, x, fuel) then Err(ENAMETOOLONG)
               else if x in Dir(fs, d) then Ok(Dir(fs, d)[x].inum) else Err(ENOENT)
    decreases fuel
  {
    hide Dir, Expansion, Render;
    WalkMore(fs, acc, ROOT_INODE, [], init, x);
    var p := Start(fs, acc, init, false);
    if p.At? {
      var one: Stack := [x];
      assert one[1..] == [] && one[0] == x;
    } else if |Render(p.to + [x])| <= MAX_PATH {
      EntryFound(fs, acc, p.to, x, fuel - 1);
    }
  }

  // ---- what is made is found ----

  lemma PlaceParts(fs: Fs, acc: Access, path: Bytes, present: bool) returns (init: Stack, x: Name)
    requires Place(fs, acc, path, present).Ok?
    ensures GoodStack(init + [x]) && GoodStack(init) && GoodName(x) && |Render(init + [x])| <= MAX_PATH
    ensures path == Render(init + [x]) && Components(path, 0) == init + [x]
    ensures ResolveWithin(fs, acc, init, false, 40).Ok?
    ensures Place(fs, acc, path, present).value == (ResolveWithin(fs, acc, init, false, 40).value, x)
  {
    hide ResolveWithin, Components, Dir, GoodName, Render;
    var st := CanonicalStack(path);
    init, x := st[..|st| - 1], st[|st| - 1];
    assert init + [x] == st;
    assert forall k :: 0 <= k < |init| ==> init[k] == st[k];
    assert GoodName(st[|st| - 1]);
  }

  /** What resolving a path to an entry of the directory found before it gives. */
  lemma PathFound(fs: Fs, acc: Access, init: Stack, x: Name, path: Bytes)
    requires GoodStack(init + [x]) && GoodName(x) && path == Render(init + [x]) && |path| <= MAX_PATH
    requires ResolveWithin(fs, acc, init, false, 40).Ok?
    requires var d := ResolveWithin(fs, acc, init, false, 40).value;
             d < |fs.inodes| && fs.inodes[d].itype == TYPE_DIR && acc(fs.inodes[d], 1)
             && (x in Dir(fs, d) ==> Dir(fs, d)[x].inum < |fs.inodes|)
    ensures var d := ResolveWithin(fs, acc, init, false, 40).value;
            ResolvePath(fs, acc, path, true)
            == if !Fits(fs, acc, init, x, 40) then Err(ENAMETOOLONG)
               else if x in Dir(fs, d) then Ok(Dir(fs, d)[x].inum) else Err(ENOENT)
  {
    hide ResolveWithin, Components, Dir, GoodName, Render, Fits;
    ComponentsOfRender(init + [x]);
    assert Canonical(path);
    EntryFound(fs, acc, init, x, 40);
  }

  /** An entry added to directory p.0 under p.1, everything else as it was. */
  lemma AddedIsFound(fs: Fs, o: Owner, fs': Fs, o': Owner, acc: Access, path: Bytes, i: u32)
    requires SysInv(fs, o) && SysInv(fs', o') && Extends(fs, fs') && Searchable(fs', acc)
    requires Place(fs, acc, path, false).Ok?
    requires var p := Place(fs, acc, path, false).value;
             p.0 as nat in TreeOf(fs') && p.1 in TreeOf(fs')[p.0 as nat].entries
             && TreeOf(fs')[p.0 as nat].entries[p.1].inum == i
    ensures ResolvePath(fs', acc, path, true) == if PathFits(fs', acc, path) then Ok(i) else Err(ENAMETOOLONG)
  {
    hide SysInv, ResolveWithin, Components, Dir, GoodName, Render, Fits, Place, NodeOf, Extends, Names, ResolvePath;
    var init, x := PlaceParts(fs, acc, path, false);
    var d := Place(fs, acc, path, false).value.0;
    SysNames(fs, o);
    SysNames(fs', o');
    StillResolves(fs, o, fs', acc, init, false, 40);
    NodeLinks(fs', d);
    DirHere(fs, fs', d);
    ResolvedAllocated(fs, o, acc, init, false, 40);
    NamesDir(fs', o', d);
    NamesDir(fs', o', i);
    PathFound(fs', acc, init, x, path);
    assert (init + [x])[..|init|] == init && (init + [x])[|init|] == x;
  }

  lemma DirHere(fs: Fs, fs': Fs, d: nat)
    requires Extends(fs, fs')
    ensures Allocated(fs, d) ==>
              d < |fs.inodes| && d < |fs'.inodes| && fs'.inodes[d].itype == fs.inodes[d].itype && Allocated(fs', d)
  {
    hide Dir, LinkTarget;
    if Allocated(fs, d) {
      assert SameTurn(fs, fs', d);
    }
  }

  /** create, mkdir and symlink: the new inode is found under the path, unless the path with its links
      expanded is too long for the resolver, and every path that resolved before still does. */
  lemma MadeIsFound(fs: Fs, o: Owner, fs': Fs, o': Owner, acc: Access, path: Bytes, i: u32, node: Node)
    requires SysInv(fs, o) && SysInv(fs', o') && Searchable(fs', acc) && Place(fs, acc, path, false).Ok?
    requires var p := Place(fs, acc, path, false).value; Entered(TreeOf(fs), TreeOf(fs'), p.0, p.1, i, node)
    ensures ResolvePath(fs', acc, path, true) == if PathFits(fs', acc, path) then Ok(i) else Err(ENAMETOOLONG)
    ensures forall q, nofollow :: ResolvePath(fs, acc, q, nofollow).Ok? ==>
              ResolvePath(fs', acc, q, nofollow) == ResolvePath(fs, acc, q, nofollow)
  {
    hide SysInv, Components, GoodName, PathFits, Place, NodeOf, Extends, ResolvePath, Searchable;
    TreeExtends(fs, o, fs', o');
    AddedIsFound(fs, o, fs', o', acc, path, i);
    NothingLost(fs, o, fs', acc);
  }

  /** link: the same for one more name of an inode. */
  lemma LinkedIsFound(fs: Fs, o: Owner, fs': Fs, o': Owner, acc: Access, path: Bytes, i: u32)
    requires SysInv(fs, o) && SysInv(fs', o') && Searchable(fs', acc) && Place(fs, acc, path, false).Ok?
    requires var p := Place(fs, acc, path, false).value; LinkedTo(TreeOf(fs), TreeOf(fs'), p.0, p.1, i)
    ensures ResolvePath(fs', acc, path, true) == if PathFits(fs', acc, path) then Ok(i) else Err(ENAMETOOLONG)
    ensures forall q, nofollow :: ResolvePath(fs, acc, q, nofollow).Ok? ==>
              ResolvePath(fs', acc, q, nofollow) == ResolvePath(fs, acc, q, nofollow)
  {
    hide SysInv, Components, GoodName, PathFits, Place, NodeOf, Extends, ResolvePath, Searchable;
    TreeExtends(fs, o, fs', o');
    AddedIsFound(fs, o, fs', o', acc, path, i);
    NothingLost(fs, o, fs', acc);
  }

  lemma NothingLost(fs: Fs, o: Owner, fs': Fs, acc: Access)
    requires SysInv(fs, o) && Extends(fs, fs') && Searchable(fs', acc)
    ensures forall q, nofollow :: ResolvePath(fs, acc, q, nofollow).Ok? ==>
              ResolvePath(fs', acc, q, nofollow) == ResolvePath(fs, acc, q, nofollow)
  {
    hide SysInv, Components, Extends, ResolveWithin, Searchable, Names;
    SysNames(fs, o);
    forall q, nofollow | ResolvePath(fs, acc, q, nofollow).Ok?
      ensures ResolvePath(fs', acc, q, nofollow) == ResolvePath(fs, acc, q, nofollow)
    {
      StillResolves(fs, o, fs', acc, Components(q, 0), nofollow, 40);
    }
  }

  // ---- what is removed is gone ----

  /** Every inode left keeps its turn and its entries, but for entry x of directory d. */
  ghost predicate Shrinks(fs: Fs, fs': Fs, d: nat, x: Name) {
    forall i: nat :: Allocated(fs', i) ==>
      && Allocated(fs, i) && SameTurn(fs, fs', i)
      && (fs.inodes[i].itype == TYPE_DIR ==> Dir(fs', i) == if i == d then Dir(fs, i) - {x} else Dir(fs, i))
  }

  lemma TreeShrinks(fs: Fs, o: Owner, fs': Fs, o': Owner, d: u32, x: Name)
    requires SysInv(fs, o) && SysInv(fs', o') && Dropped(TreeOf(fs), TreeOf(fs'), d, x)
    ensures Shrinks(fs, fs', d, x)
  {
    hide SysInv, NodeOf, SameTurn, Dir;
    var t, t' := TreeOf(fs), TreeOf(fs');
    forall i: nat | Allocated(fs', i)
      ensures Allocated(fs, i) && SameTurn(fs, fs', i) && i < |fs.inodes|
      ensures fs.inodes[i].itype == TYPE_DIR ==> Dir(fs', i) == if i == d as nat then Dir(fs, i) - {x} else Dir(fs, i)
    {
      assert i in t' && i in t;
      SameTarget(fs, o, fs', o', i);
      NodeLinks(fs, i);
      NodeLinks(fs', i);
      SameKind(fs, fs', i);
    }
  }

  lemma {:induction false} WalkShrinks(fs: Fs, fs': Fs, o': Owner, acc: Access, d: nat, x: Name, cur: u32, done: Stack,
      rest: Stack, nofollow: bool)
    requires Names(fs', o') && Shrinks(fs, fs', d, x) && Searchable(fs', acc) && Allocated(fs', cur)
    requires !Walk(fs, acc, cur, done, rest, nofollow).Fail?
    ensures var w := Walk(fs', acc, cur, done, rest, nofollow);
            w == Walk(fs, acc, cur, done, rest, nofollow) || w == Fail(ENOENT)
    decreases |rest|
  {
    hide Dir, FsInv, DirOk, LinkTarget, Fold, Components;
    assert SameTurn(fs, fs', cur);
    if rest != [] && rest[0] in Dir(fs', cur) {
      var next := Dir(fs', cur)[rest[0]].inum;
      assert Allocated(fs', next);
      assert SameTurn(fs, fs', next);
      if !Walk(fs, acc, next, done + [rest[0]], rest[1..], nofollow).Fail? {
        WalkShrinks(fs, fs', o', acc, d, x, next, done + [rest[0]], rest[1..], nofollow);
      }
    }
  }

  /** A name that is missing on the way is missing with more behind it. */
  lemma {:induction false} MissingMore(fs: Fs, acc: Access, cur: u32, done: Stack, rest: Stack, x: Name)
    requires Walk(fs, acc, cur, done, rest, false) == Fail(ENOENT)
    ensures Walk(fs, acc, cur, done, rest + [x], true) == Fail(ENOENT)
    decreases |rest|
  {
    hide Dir, Components, Fold, Combined;
    var all := rest + [x];
    assert all[0] == rest[0] && all[1..] == rest[1..] + [x];
    if rest[0] in Dir(fs, cur) {
      var next := Dir(fs, cur)[rest[0]].inum;
      if fs.inodes[next].itype == TYPE_SYMLINK {
        if LinkTarget(fs, next).Ok? {
          FoldError([], Components(Combined(done, LinkTarget(fs, next).value, rest[1..]), 0));
        }
        assert false;
      } else {
        MissingMore(fs, acc, next, done + [rest[0]], rest[1..], x);
      }
    }
  }

  lemma {:induction false} Gone(fs: Fs, fs': Fs, o': Owner, acc: Access, d: u32, x: Name, init: Stack, fuel: nat)
    requires Names(fs', o') && Shrinks(fs, fs', d, x) && Searchable(fs', acc) && GoodName(x)
    requires ResolveWithin(fs, acc, init, false, fuel) == Ok(d) && d < |fs.inodes| && fs.inodes[d].itype == TYPE_DIR
    ensures var r := ResolveWithin(fs', acc, init + [x], true, fuel);
            r == Err(ENOENT) || (r == Err(ENAMETOOLONG) && !Fits(fs, acc, init, x, fuel))
    decreases fuel
  {
    hide Walk, Names, Shrinks, Dir, Render, GoodName, Searchable;
    RootAllocated(fs', o');
    WalkShrinks(fs, fs', o', acc, d, x, ROOT_INODE, [], init, false);
    var p, p' := Start(fs, acc, init, false), Start(fs', acc, init, false);
    if p'.Fail? {
      MissingMore(fs', acc, ROOT_INODE, [], init, x);
    } else {
      WalkMore(fs', acc, ROOT_INODE, [], init, x);
      if p.At? {
        WalkLookup(fs', acc, ROOT_INODE, [], init, false);
        LookupAllocated(fs', o', ROOT_INODE, init);
        EntryMissing(fs, fs', acc, d, x, init);
        assert [] + init == init;
      } else if |Render(p.to + [x])| <= MAX_PATH {
        Gone(fs, fs', o', acc, d, x, p.to, fuel - 1);
      }
    }
  }

  lemma EntryMissing(fs: Fs, fs': Fs, acc: Access, d: u32, x: Name, path: Stack)
    requires Shrinks(fs, fs', d, x) && Searchable(fs', acc) && Allocated(fs', d)
    requires d < |fs.inodes| && fs.inodes[d].itype == TYPE_DIR
    ensures d < |fs'.inodes| && fs'.inodes[d].itype == TYPE_DIR
    ensures Walk(fs', acc, d, path, [x], true) == Fail(ENOENT)
  {
    hide Dir;
    assert SameTurn(fs, fs', d);
  }

  /** unlink and rmdir: what the path found before is gone afterwards. */
  lemma RemovedIsGone(fs: Fs, o: Owner, fs': Fs, o': Owner, acc: Access, path: Bytes)
    requires SysInv(fs, o) && SysInv(fs', o') && Searchable(fs, acc) && Searchable(fs', acc)
    requires Place(fs, acc, path, true).Ok?
    requires var p := Place(fs, acc, path, true).value; Dropped(TreeOf(fs), TreeOf(fs'), p.0, p.1)
    ensures ResolvePath(fs, acc, path, true).Ok? ==> ResolvePath(fs', acc, path, true) == Err(ENOENT)
    ensures ResolvePath(fs, acc, path, true).Err? ==>
              ResolvePath(fs, acc, path, true) == Err(ENAMETOOLONG)
              && ResolvePath(fs', acc, path, true) in {Err(ENOENT), Err(ENAMETOOLONG)}
  {
    hide SysInv, ResolveWithin, Components, Dir, GoodName, Render, Fits, NodeOf, Names, Dropped, Shrinks;
    var init, x := PlaceParts(fs, acc, path, true);
    var d := Place(fs, acc, path, true).value.0;
    SysNames(fs, o);
    SysNames(fs', o');
    ResolvedAllocated(fs, o, acc, init, false, 40);
    NamesDir(fs, o, d);
    NamesDir(fs, o, Dir(fs, d)[x].inum);
    PathFound(fs, acc, init, x, path);
    TreeShrinks(fs, o, fs', o', d, x);
    Gone(fs, fs', o', acc, d, x, init, 40);
  }

  /** A path through a link can be good for creating a file and too long for opening it: here the link
      name in the root directory leads to a directory whose path with x behind it does not fit. */
  lemma TooLongToOpen(fs: Fs, acc: Access, name: Name, i: u32, to: Stack, x: Name)
    requires LinkAt(fs, acc, [], name, i) && Content(fs, i) == Render(to) && GoodName(name) && GoodName(x)
    requires DirPath(fs, acc, ROOT_INODE, to) && GoodStack(to) && |Render(to)| <= 255 < |Render(to + [x])|
    requires var d := Lookup(fs, ROOT_INODE, to);
             d.Ok? && d.value < |fs.inodes| && x !in Dir(fs, d.value) && acc(fs.inodes[d.value], 3)
    ensures Place(fs, acc, Render([name, x]), false) == Ok((Lookup(fs, ROOT_INODE, to).value, x))
    ensures !Fits(fs, acc, [name], x, 40)
  {
    hide Dir, Walk, DirPath, Content, Components, Render;
    var one, two: Stack := [name], [name, x];
    DirPathEnd(fs, acc, ROOT_INODE, to);
    LinkRoot(to);
    assert [] + one + [] == one && to + [] == to;
    AbsoluteLink(fs, acc, [], name, i, to, [], false);
    DirPathStart(fs, acc, to, false);
    ShortPath(name, x);
    ComponentsOfRender(two);
    assert Canonical(Render(two));
    assert two[..1] == one;
    assert ResolveWithin(fs, acc, to, false, 39) == Ok(Lookup(fs, ROOT_INODE, to).value);
  }

  /** What create has made there cannot be found under its path. */
  lemma MadeNotFound(fs: Fs, o: Owner, fs': Fs, o': Owner, acc: Access, name: Name, i: u32, to: Stack, x: Name, j: u32,
      node: Node)
    requires LinkAt(fs, acc, [], name, i) && Content(fs, i) == Render(to) && GoodName(name) && GoodName(x)
    requires DirPath(fs, acc, ROOT_INODE, to) && GoodStack(to) && |Render(to)| <= 255 < |Render(to + [x])|
    requires var d := Lookup(fs, ROOT_INODE, to);
             d.Ok? && d.value < |fs.inodes| && x !in Dir(fs, d.value) && acc(fs.inodes[d.value], 3)
             && Entered(TreeOf(fs), TreeOf(fs'), d.value, x, j, node)
    requires SysInv(fs, o) && SysInv(fs', o') && Searchable(fs', acc)
    ensures Place(fs, acc, Render([name, x]), false).Ok? && j as nat in TreeOf(fs')
    ensures ResolvePath(fs', acc, Render([name, x]), true) == Err(ENAMETOOLONG)
  {
    hide Dir, Walk, DirPath, Content, Components, Render, SysInv, LinkAt, Searchable, Place, GoodName, NodeOf, Extends,
      ResolvePath, Names;
    var one, two: Stack := [name], [name, x];
    TooLongToOpen(fs, acc, name, i, to, x);
    TreeExtends(fs, o, fs', o');
    SysNames(fs, o);
    RootAllocated(fs, o);
    LinkRoot(to);
    assert [] + one + [] == one && to + [] == to;
    AbsoluteLink(fs, acc, [], name, i, to, [], false);
    WalkExtends(fs, o, fs', acc, ROOT_INODE, [], one, false);
    MadeIsFound(fs, o, fs', o', acc, Render(two), j, node);
    ShortPath(name, x);
    ComponentsOfRender(two);
    assert two[..1] == one;
  }

  lemma LinkRoot(to: Stack)
    requires GoodStack(to) && |Render(to)| <= MAX_PATH
    ensures |Join(to)| <= MAX_PATH && GoodStack([]) && |Render([])| <= MAX_PATH
  {
    JoinNothing();
  }

  lemma ShortPath(a: Name, b: Name)
    requires GoodName(a) && GoodName(b)
    ensures GoodStack([a, b]) && |Render([a, b])| <= MAX_PATH
  {
    JoinNothing();
    JoinPush([], a);
    JoinPush([a], b);
    assert [] + [a] == [a] && [a] + [b] == [a, b];
  }

  // ---- links as such, and links followed ----

  /** A walk that ends at something other than a link does not depend on following. */
  lemma {:induction false} FollowSame(fs: Fs, acc: Access, cur: u32, done: Stack, rest: Stack)
    ensures var w := Walk(fs, acc, cur, done, rest, true);
            w.Jump? || (w.At? && w.inum < |fs.inodes| && fs.inodes[w.inum].itype != TYPE_SYMLINK) ==>
              Walk(fs, acc, cur, done, rest, false) == w
    decreases |rest|
  {
    hide Dir, Expansion;
    if rest != [] && cur < |fs.inodes| && rest[0] in Dir(fs, cur) {
      var next := Dir(fs, cur)[rest[0]].inum;
      FollowSame(fs, acc, next, done + [rest[0]], rest[1..]);
      if |rest| == 1 {
        assert rest[1..] == [];
      }
    }
  }

  lemma {:induction false} FollowResolves(fs: Fs, acc: Access, st: Stack, fuel: nat)
    requires ResolveWithin(fs, acc, st, true, fuel).Ok?
    requires var i := ResolveWithin(fs, acc, st, true, fuel).value;
             i < |fs.inodes| && fs.inodes[i].itype != TYPE_SYMLINK
    ensures ResolveWithin(fs, acc, st, false, fuel) == ResolveWithin(fs, acc, st, true, fuel)
    decreases fuel
  {
    hide Walk;
    FollowSame(fs, acc, ROOT_INODE, [], st);
    var p := Start(fs, acc, st, true);
    if p.Jump? {
      FollowResolves(fs, acc, p.to, fuel - 1);
    }
  }

  /** link and readlink act on a final link itself; open and truncate on what it leads to. */
  lemma LinkItself(fs: Fs, acc: Access, done: Stack, name: Name, i: u32, path: Bytes, n: nat)
    requires LinkAt(fs, acc, done, name, i) && GoodStack(done + [name]) && |Render(done + [name])| <= MAX_PATH
    ensures var link, text := Render(done + [name]), Content(fs, i);
            && (LinkOutcome(fs, acc, link, path).Ok? ==> LinkOutcome(fs, acc, link, path).value == i)
            && (n > 0 ==> ReadlinkOutcome(fs, acc, link, n) == Ok(if n < |text| then text[..n] else text))
  {
    hide ResolvePath, Content, Render, GoodStack, DirPath, Dir, Place, DirFull, NulFree;
    FinalLinkFound(fs, acc, done, name, i);
    CutText(Content(fs, i), n);
  }

  lemma CutText(text: Bytes, n: nat)
    ensures ReadSlice(text, 0, n) == if n < |text| then text[..n] else text
  {
  }

  lemma LinkOpened(fs: Fs, acc: Access, done: Stack, name: Name, i: u32, t: Name, flags: int, size: nat)
    requires LinkAt(fs, acc, done, name, i) && Content(fs, i) == t
    requires GoodStack(done + [name]) && |Render(done + [name])| <= MAX_PATH
    requires GoodStack(done + [t]) && |Render(done + [t])| <= MAX_PATH
    ensures var link, target := Render(done + [name]), Render(done + [t]);
            Settles(fs, acc, done + [t], false, 38) ==>
              && OpenTarget(fs, acc, link, flags) == OpenTarget(fs, acc, target, flags)
              && TruncateOutcome(fs, acc, link, size) == TruncateOutcome(fs, acc, target, size)
  {
    hide ResolvePath, Content, Render, DirPath, Dir, Settles, LinkAt, Join, Cost, GoodName;
    assert done + [t] + [] == done + [t] && done + [name] + [] == done + [name];
    JoinOfRender(done + [t]);
    RelativeLink(fs, acc, done, name, i, t, [], false);
    JumpResolves(fs, acc, done + [name], done + [t], false);
  }

  lemma JoinOfRender(st: Stack)
    requires st != []
    ensures Join(st) == Render(st)
  {
  }

  // ---- round trips through the namespace ----

  /** What create has made can be opened under its path: the new file, empty. */
  lemma CreateThenOpen(fs: Fs, o: Owner, fs': Fs, o': Owner, acc: Access, path: Bytes, i: u32, node: Node, flags: int)
    requires SysInv(fs, o) && SysInv(fs', o') && Searchable(fs', acc) && Place(fs, acc, path, false).Ok?
    requires var p := Place(fs, acc, path, false).value; Entered(TreeOf(fs), TreeOf(fs'), p.0, p.1, i, node)
    requires node.kind == TYPE_FILE && node.content == [] && flags in {1, 2, 3, 6, 7}
    requires i < |fs'.inodes| && acc(fs'.inodes[i], if flags == 1 then 4 else if flags in {2, 6} then 2 else 6)
    ensures PathFits(fs', acc, path) ==>
              OpenTarget(fs', acc, path, flags) == Ok(i) && Content(fs', i) == []
  {
    hide SysInv, Components, GoodName, PathFits, Place, NodeOf, ResolveWithin, Searchable, Content, WithEntry;
    MadeIsFound(fs, o, fs', o', acc, path, i, node);
    NodeLinks(fs', i);
    if ResolvePath(fs', acc, path, true) == Ok(i) {
      FollowResolves(fs', acc, Components(path, 0), 40);
    }
  }

  /** What symlink has stored is what readlink gives. */
  lemma SymlinkThenReadlink(fs: Fs, o: Owner, fs': Fs, o': Owner, acc: Access, path: Bytes, i: u32, node: Node, n: nat)
    requires SysInv(fs, o) && SysInv(fs', o') && Searchable(fs', acc) && Place(fs, acc, path, false).Ok?
    requires var p := Place(fs, acc, path, false).value; Entered(TreeOf(fs), TreeOf(fs'), p.0, p.1, i, node)
    requires node.kind == TYPE_SYMLINK && n > 0
    ensures PathFits(fs', acc, path) ==>
              ReadlinkOutcome(fs', acc, path, n)
              == Ok(if n < |node.content| then node.content[..n] else node.content)
  {
    hide SysInv, Components, GoodName, PathFits, Place, NodeOf, ResolvePath, Searchable, Content, WithEntry;
    MadeIsFound(fs, o, fs', o', acc, path, i, node);
    NodeLinks(fs', i);
    CutText(node.content, n);
  }

  /** After link both paths name the same inode. */
  lemma LinkBothFound(fs: Fs, o: Owner, fs': Fs, o': Owner, acc: Access, existing: Bytes, path: Bytes)
    requires SysInv(fs, o) && SysInv(fs', o') && Searchable(fs', acc) && LinkOutcome(fs, acc, existing, path).Ok?
    requires var p := Place(fs, acc, path, false).value;
             LinkedTo(TreeOf(fs), TreeOf(fs'), p.0, p.1, LinkOutcome(fs, acc, existing, path).value)
    ensures ResolvePath(fs, acc, existing, true).Ok?
    ensures ResolvePath(fs', acc, existing, true) == ResolvePath(fs, acc, existing, true)
    ensures PathFits(fs', acc, path) ==>
              ResolvePath(fs', acc, path, true) == ResolvePath(fs', acc, existing, true)
  {
    hide SysInv, Components, GoodName, PathFits, Place, NodeOf, ResolvePath, Searchable, WithEntry, WithLinks, DirFull;
    LinkedIsFound(fs, o, fs', o', acc, path, LinkOutcome(fs, acc, existing, path).value);
  }
}
