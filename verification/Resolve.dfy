/** Path resolution through symbolic links (src/namespace.c): each pass walks the components of a
    canonical path and either ends, fails, or rewrites the path and starts again. */
module Resolve {
  import opened Layout
  import opened Encoding
  import opened Context
  import opened Ownership
  import opened PointerTree
  import opened FileContent
  import opened RangeIo
  import opened Paths
  import opened Directory

  const X_OK: nat := 1
  const W_OK: nat := 2
  const R_OK: nat := 4
  const FOLLOW_FINAL: nat := 1
  const NOFOLLOW_FINAL: nat := 2
  const MAX_SYMLINK_DEPTH: nat := 40

  /** The permission check of src/metadata.c, uninterpreted. */
  type Access = (Inode, nat) -> bool

  /** What a pass ends with: an inode, a rewritten path, or a failure. */
  datatype Pass = At(inum: u32) | Jump(to: Stack) | Fail(error: Error)

  /** Every directory is in order and its entries lead to allocated inodes. */
  ghost predicate Names(fs: Fs, o: Owner) {
    && FsInv(fs, o) && Allocated(fs, ROOT_INODE) && fs.inodes[ROOT_INODE].itype == TYPE_DIR
    && forall d: nat :: Allocated(fs, d) && fs.inodes[d].itype == TYPE_DIR ==>
         DirOk(fs, d) && forall name :: name in Dir(fs, d) ==> Allocated(fs, Dir(fs, d)[name].inum)
  }

  // ---- the specification ----

  /** The target text of a symbolic link. */
  ghost function LinkTarget(fs: Fs, i: nat): Result<Bytes>
    requires i < |fs.inodes|
  {
    var ino := fs.inodes[i];
    if ino.itype != TYPE_SYMLINK || ino.size == 0 || ino.size > MAX_PATH then Err(EIO) else Ok(CString(Content(fs, i)))
  }

  /** The path a link found after the components done is replaced by. */
  function Combined(done: Stack, target: Bytes, rest: Stack): Bytes {
    (if target != [] && target[0] == SLASH then target else Join(done) + [SLASH] + target) + Join(rest)
  }

  ghost function Expansion(fs: Fs, i: nat, done: Stack, rest: Stack): (p: Pass)
    requires i < |fs.inodes|
    ensures !p.At?
  {
    var t := LinkTarget(fs, i);
    if t.Err? then Fail(t.error)
    else
      var n := Fold([], Components(Combined(done, t.value, rest), 0));
      if n.Ok? then Jump(n.value) else Fail(n.error)
  }

  /** One pass from inode cur, the components done behind it and rest ahead. */
  ghost function Walk(fs: Fs, acc: Access, cur: u32, done: Stack, rest: Stack, nofollow: bool): Pass
    decreases |rest|
  {
    if rest == [] then At(cur)
    else if cur >= |fs.inodes| then Fail(EINVAL)
    else if !acc(fs.inodes[cur], X_OK) then Fail(EACCES)
    else if fs.inodes[cur].itype != TYPE_DIR then Fail(ENOTDIR)
    else if rest[0] !in Dir(fs, cur) then Fail(ENOENT)
    else
      var next := Dir(fs, cur)[rest[0]].inum;
      if next >= |fs.inodes| then Fail(EINVAL)
      else if fs.inodes[next].itype == TYPE_SYMLINK && !(|rest| == 1 && nofollow) then
        Expansion(fs, next, done, rest[1..])
      else if |rest| > 1 && fs.inodes[next].itype != TYPE_DIR then Fail(ENOTDIR)
      else Walk(fs, acc, next, done + [rest[0]], rest[1..], nofollow)
  }

  ghost function Start(fs: Fs, acc: Access, st: Stack, nofollow: bool): Pass {
    Walk(fs, acc, ROOT_INODE, [], st, nofollow)
  }

  /** Resolution in at most fuel passes. */
  ghost function ResolveWithin(fs: Fs, acc: Access, st: Stack, nofollow: bool, fuel: nat): Result<u32>
    decreases fuel
  {
    if fuel == 0 then Err(ELOOP)
    else
      match Start(fs, acc, st, nofollow)
      case At(i) => Ok(i)
      case Fail(e) => Err(e)
      case Jump(to) => ResolveWithin(fs, acc, to, nofollow, fuel - 1)
  }

  ghost function ResolvePath(fs: Fs, acc: Access, path: Bytes, nofollow: bool): Result<u32> {
    if Canonical(path) then ResolveWithin(fs, acc, Components(path, 0), nofollow, MAX_SYMLINK_DEPTH) else Err(EINVAL)
  }

  /** resolve_parent: the directory of the last component, and that component. */
  ghost function ParentOf(fs: Fs, acc: Access, path: Bytes): Result<(u32, Name)> {
    var st := Components(path, 0);
    if !Canonical(path) || st == [] then Err(EINVAL)
    else
      var r := ResolveWithin(fs, acc, st[..|st| - 1], false, MAX_SYMLINK_DEPTH);
      if r.Ok? then Ok((r.value, st[|st| - 1])) else Err(r.error)
  }

  // ---- termination and depth ----

  /** At most n rewrites bring the path to an end. */
  ghost predicate Settles(fs: Fs, acc: Access, st: Stack, nofollow: bool, n: nat)
    decreases n
  {
    var p := Start(fs, acc, st, nofollow);
    p.Jump? ==> n > 0 && Settles(fs, acc, p.to, nofollow, n - 1)
  }

  lemma {:induction false} FoldError(st: Stack, cs: seq<Name>)
    ensures Fold(st, cs).Err? ==> Fold(st, cs) == Err(ENAMETOOLONG)
    decreases |cs|
  {
    if cs != [] && Push(st, cs[0]).Ok? {
      FoldError(Push(st, cs[0]).value, cs[1..]);
    }
  }

  lemma {:induction false} WalkError(fs: Fs, acc: Access, cur: u32, done: Stack, rest: Stack, nofollow: bool)
    ensures Walk(fs, acc, cur, done, rest, nofollow) != Fail(ELOOP)
    decreases |rest|
  {
    hide Components, Fold, Dir;
    if rest != [] && cur < |fs.inodes| && rest[0] in Dir(fs, cur) {
      var next := Dir(fs, cur)[rest[0]].inum;
      WalkError(fs, acc, next, done + [rest[0]], rest[1..], nofollow);
      if next < |fs.inodes| && LinkTarget(fs, next).Ok? {
        FoldError([], Components(Combined(done, LinkTarget(fs, next).value, rest[1..]), 0));
      }
    }
  }

  /** ELOOP means exactly that one pass more than the allowed number would have been needed: with
      the forty passes of the code, thirty-nine rewrites. */
  lemma {:induction false} LoopExactly(fs: Fs, acc: Access, st: Stack, nofollow: bool, fuel: nat)
    requires fuel > 0
    ensures ResolveWithin(fs, acc, st, nofollow, fuel) == Err(ELOOP) <==> !Settles(fs, acc, st, nofollow, fuel - 1)
    decreases fuel
  {
    hide Walk;
    WalkError(fs, acc, ROOT_INODE, [], st, nofollow);
    var p := Start(fs, acc, st, nofollow);
    if p.Jump? && fuel > 1 {
      LoopExactly(fs, acc, p.to, nofollow, fuel - 1);
    }
  }

  /** Allowing more passes never changes an answer other than ELOOP. */
  lemma {:induction false} MoreDepth(fs: Fs, acc: Access, st: Stack, nofollow: bool, fuel: nat, more: nat)
    requires ResolveWithin(fs, acc, st, nofollow, fuel) != Err(ELOOP) && fuel <= more
    ensures ResolveWithin(fs, acc, st, nofollow, more) == ResolveWithin(fs, acc, st, nofollow, fuel)
    decreases fuel
  {
    hide Walk;
    var p := Start(fs, acc, st, nofollow);
    if p.Jump? {
      MoreDepth(fs, acc, p.to, nofollow, fuel - 1, more - 1);
    }
  }

  /** Name is a link in the root directory to the name target there. */
  ghost predicate LinksTo(fs: Fs, acc: Access, name: Name, target: Name) {
    && GoodName(target) && NulFree(target) && ROOT_INODE < |fs.inodes|
    && acc(fs.inodes[ROOT_INODE], X_OK) && fs.inodes[ROOT_INODE].itype == TYPE_DIR && name in Dir(fs, ROOT_INODE)
    && var i := Dir(fs, ROOT_INODE)[name].inum;
       i < |fs.inodes| && fs.inodes[i].itype == TYPE_SYMLINK && Content(fs, i) == target
  }

  lemma LinkJumps(fs: Fs, acc: Access, name: Name, target: Name)
    requires LinksTo(fs, acc, name, target)
    ensures Start(fs, acc, [name], false) == Jump([target])
  {
    hide Components, Fold, Dir, Content, Join;
    CStringWhole(target);
    JoinNothing();
    JoinPush([], target);
    assert [] + [target] == [target];
    var st: Stack := [target];
    assert [name][1..] == [];
    assert Combined([], target, []) == Join(st) == Render(st);
    ComponentsOfRender(st);
    assert [] + st == st;
    FoldRebuild([], st);
  }

  /** A link that names itself never settles, so resolving it always ends in ELOOP. */
  lemma {:induction false} SelfLink(fs: Fs, acc: Access, name: Name, n: nat)
    requires LinksTo(fs, acc, name, name)
    ensures !Settles(fs, acc, [name], false, n)
    ensures ResolveWithin(fs, acc, [name], false, n + 1) == Err(ELOOP)
    decreases n
  {
    hide LinksTo, Start;
    LinkJumps(fs, acc, name, name);
    if n > 0 {
      SelfLink(fs, acc, name, n - 1);
    }
    LoopExactly(fs, acc, [name], false, n + 1);
  }

  /** A chain of links in the root directory, each to the next, that ends at something else. */
  ghost predicate LinkChain(fs: Fs, acc: Access, names: seq<Name>) {
    && names != [] && (forall i :: 0 <= i < |names| - 1 ==> LinksTo(fs, acc, names[i], names[i + 1]))
    && var last := names[|names| - 1];
       && ROOT_INODE < |fs.inodes| && acc(fs.inodes[ROOT_INODE], X_OK) && fs.inodes[ROOT_INODE].itype == TYPE_DIR
       && last in Dir(fs, ROOT_INODE) && Dir(fs, ROOT_INODE)[last].inum < |fs.inodes|
       && fs.inodes[Dir(fs, ROOT_INODE)[last].inum].itype != TYPE_SYMLINK
  }

  /** A chain of n links settles after exactly n rewrites, and resolves in exactly n + 1 passes. */
  lemma {:induction false} ChainResolves(fs: Fs, acc: Access, names: seq<Name>, n: nat)
    requires LinkChain(fs, acc, names)
    ensures Settles(fs, acc, [names[0]], false, n) <==> n >= |names| - 1
    ensures ResolveWithin(fs, acc, [names[0]], false, n + 1)
            == if n >= |names| - 1 then Ok(Dir(fs, ROOT_INODE)[names[|names| - 1]].inum) else Err(ELOOP)
    decreases |names|
  {
    hide LinksTo, Dir, Start;
    var st: Stack := [names[0]];
    if |names| == 1 {
      ChainEnds(fs, acc, names[0]);
    } else {
      LinkJumps(fs, acc, names[0], names[1]);
      var rest := names[1..];
      forall i | 0 <= i < |rest| - 1 ensures LinksTo(fs, acc, rest[i], rest[i + 1]) {
        assert LinksTo(fs, acc, names[i + 1], names[i + 1 + 1]);
      }
      assert LinkChain(fs, acc, rest);
      if n > 0 {
        ChainResolves(fs, acc, rest, n - 1);
      }
    }
  }

  lemma ChainEnds(fs: Fs, acc: Access, last: Name)
    requires LinkChain(fs, acc, [last])
    ensures Start(fs, acc, [last], false) == At(Dir(fs, ROOT_INODE)[last].inum)
  {
    hide Dir;
    assert [last][1..] == [];
    var next := Dir(fs, ROOT_INODE)[last].inum;
    WalkEnd(fs, acc, next, [] + [last], false);
    assert Walk(fs, acc, next, [] + [last], [last][1..], false) == At(next);
  }

  /** Forty link expansions are one too many for the code, although a forty-first pass would do. */
  lemma FortyExpansions(fs: Fs, acc: Access, names: seq<Name>)
    requires LinkChain(fs, acc, names) && |names| == MAX_SYMLINK_DEPTH + 1
    ensures Settles(fs, acc, [names[0]], false, 40) && !Settles(fs, acc, [names[0]], false, 39)
    ensures ResolveWithin(fs, acc, [names[0]], false, MAX_SYMLINK_DEPTH) == Err(ELOOP)
    ensures ResolveWithin(fs, acc, [names[0]], false, MAX_SYMLINK_DEPTH + 1).Ok?
  {
    hide LinkChain, Settles, ResolveWithin, Dir;
    ChainResolves(fs, acc, names, 40);
    ChainResolves(fs, acc, names, 39);
  }

  // ---- what a resolved path means ----

  /** Plain descent through the directory maps, without links. */
  ghost function Lookup(fs: Fs, cur: u32, st: Stack): Result<u32>
    decreases |st|
  {
    if st == [] then Ok(cur)
    else if cur >= |fs.inodes| || fs.inodes[cur].itype != TYPE_DIR || st[0] !in Dir(fs, cur) then Err(ENOENT)
    else Lookup(fs, Dir(fs, cur)[st[0]].inum, st[1..])
  }

  /** n rewrites turn one path into the other. */
  ghost predicate Rewrites(fs: Fs, acc: Access, st: Stack, to: Stack, nofollow: bool, n: nat)
    decreases n
  {
    if n == 0 then to == st
    else Start(fs, acc, st, nofollow).Jump? && Rewrites(fs, acc, Start(fs, acc, st, nofollow).to, to, nofollow, n - 1)
  }

  lemma {:induction false} WalkLookup(fs: Fs, acc: Access, cur: u32, done: Stack, rest: Stack, nofollow: bool)
    requires Walk(fs, acc, cur, done, rest, nofollow).At?
    ensures Lookup(fs, cur, rest) == Ok(Walk(fs, acc, cur, done, rest, nofollow).inum)
    decreases |rest|
  {
    hide Dir;
    if rest != [] {
      WalkLookup(fs, acc, Dir(fs, cur)[rest[0]].inum, done + [rest[0]], rest[1..], nofollow);
    }
  }

  /** A path resolves to i when fewer than fuel rewrites lead to a path that plain descent takes to i. */
  lemma {:induction false} Resolved(fs: Fs, acc: Access, st: Stack, nofollow: bool, fuel: nat) returns (to: Stack,
      n: nat)
    requires ResolveWithin(fs, acc, st, nofollow, fuel).Ok?
    ensures n < fuel && Rewrites(fs, acc, st, to, nofollow, n) && Start(fs, acc, to, nofollow).At?
    ensures Lookup(fs, ROOT_INODE, to) == ResolveWithin(fs, acc, st, nofollow, fuel)
    decreases fuel
  {
    hide Walk;
    var p := Start(fs, acc, st, nofollow);
    if p.At? {
      WalkLookup(fs, acc, ROOT_INODE, [], st, nofollow);
      to, n := st, 0;
    } else {
      to, n := Resolved(fs, acc, p.to, nofollow, fuel - 1);
      n := n + 1;
    }
  }

  lemma {:induction false} LookupAllocated(fs: Fs, o: Owner, cur: u32, st: Stack)
    requires Names(fs, o) && Allocated(fs, cur) && Lookup(fs, cur, st).Ok?
    ensures Allocated(fs, Lookup(fs, cur, st).value)
    decreases |st|
  {
    hide Dir, FsInv, DirOk;
    if st != [] {
      LookupAllocated(fs, o, Dir(fs, cur)[st[0]].inum, st[1..]);
    }
  }

  lemma ResolvedAllocated(fs: Fs, o: Owner, acc: Access, st: Stack, nofollow: bool, fuel: nat)
    requires Names(fs, o) && ResolveWithin(fs, acc, st, nofollow, fuel).Ok?
    ensures Allocated(fs, ResolveWithin(fs, acc, st, nofollow, fuel).value)
  {
    hide FsInv, Lookup, ResolveWithin, DirOk, Dir;
    var to, n := Resolved(fs, acc, st, nofollow, fuel);
    LookupAllocated(fs, o, ROOT_INODE, to);
  }

  // ---- agreement of the two resolvers ----

  lemma JoinLast(a: Stack, x: Name)
    ensures Join(a + [x]) == Join(a) + [SLASH] + x
  {
    JoinPush(a, x);
  }

  /** Rewriting a path with one more component at the end appends that component. */
  lemma ExpansionLast(fs: Fs, i: nat, done: Stack, rest: Stack, x: Name)
    requires i < |fs.inodes| && GoodName(x) && Expansion(fs, i, done, rest + [x]).Jump?
    ensures Expansion(fs, i, done, rest).Jump?
    ensures Expansion(fs, i, done, rest + [x]).to == Expansion(fs, i, done, rest).to + [x]
  {
    hide Components, Fold, LinkTarget, Join;
    var t := LinkTarget(fs, i).value;
    var a, b := Combined(done, t, rest), Combined(done, t, rest + [x]);
    JoinLast(rest, x);
    JoinNothing();
    JoinPush([], x);
    var st: Stack := [x];
    assert [] + [x] == st;
    assert b == a + Render(st);
    NormalizedCompose(a, Render(st));
    ComponentsOfRender(st);
    FoldOne(Fold([], Components(a, 0)).value, x, []);
    assert [x] + [] == st;
    if Fold([], Components(a, 0)).Ok? {
      FoldNothing(Fold([], Components(a, 0)).value + [x]);
    }
  }

  /** A walk that stops short of the last component, and the same walk with that component. */
  lemma {:induction false} WalkLast(fs: Fs, acc: Access, cur: u32, done: Stack, rest: Stack, x: Name)
    requires GoodName(x)
    ensures var full, part := Walk(fs, acc, cur, done, rest + [x], true), Walk(fs, acc, cur, done, rest, false);
            && (full.Jump? ==> part.Jump? && full.to == part.to + [x])
            && (full.At? ==> part.At? && part.inum < |fs.inodes| && fs.inodes[part.inum].itype == TYPE_DIR
                             && x in Dir(fs, part.inum) && full.inum == Dir(fs, part.inum)[x].inum)
    decreases |rest|
  {
    hide Dir, Expansion;
    var all := rest + [x];
    if rest == [] {
      assert all[0] == x && all[1..] == [];
    } else {
      assert all[0] == rest[0] && all[1..] == rest[1..] + [x];
      if cur < |fs.inodes| && rest[0] in Dir(fs, cur) {
        var next := Dir(fs, cur)[rest[0]].inum;
        WalkLast(fs, acc, next, done + [rest[0]], rest[1..], x);
        if next < |fs.inodes| && Expansion(fs, next, done, rest[1..] + [x]).Jump? {
          ExpansionLast(fs, next, done, rest[1..], x);
        }
      }
    }
  }

  /** Whatever no-follow resolution finds is the entry of the last name in the directory that
      resolving the parent finds, through any chain of link expansions on the way. */
  lemma {:induction false} ResolversAgree(fs: Fs, acc: Access, init: Stack, x: Name, fuel: nat)
    requires GoodName(x) && ResolveWithin(fs, acc, init + [x], true, fuel).Ok?
    ensures var parent := ResolveWithin(fs, acc, init, false, fuel);
            && parent.Ok? && parent.value < |fs.inodes| && fs.inodes[parent.value].itype == TYPE_DIR
            && x in Dir(fs, parent.value)
            && ResolveWithin(fs, acc, init + [x], true, fuel) == Ok(Dir(fs, parent.value)[x].inum)
    decreases fuel
  {
    hide Walk, Dir;
    WalkLast(fs, acc, ROOT_INODE, [], init, x);
    var p := Start(fs, acc, init, false);
    if Start(fs, acc, init + [x], true).Jump? {
      ResolversAgree(fs, acc, p.to, x, fuel - 1);
    }
  }

  /** The same for paths: what lstat sees is what unlink acts on. */
  lemma LstatSeesUnlinked(fs: Fs, acc: Access, path: Bytes)
    requires path != [SLASH] && ResolvePath(fs, acc, path, true).Ok?
    ensures var p := ParentOf(fs, acc, path);
            && p.Ok? && p.value.0 < |fs.inodes| && fs.inodes[p.value.0].itype == TYPE_DIR
            && p.value.1 in Dir(fs, p.value.0)
            && ResolvePath(fs, acc, path, true) == Ok(Dir(fs, p.value.0)[p.value.1].inum)
  {
    hide ResolveWithin, Dir, Components, Join;
    var st := CanonicalStack(path);
    var init, x := st[..|st| - 1], st[|st| - 1];
    assert init + [x] == st;
    ResolversAgree(fs, acc, init, x, MAX_SYMLINK_DEPTH);
  }

  lemma CanonicalStack(path: Bytes) returns (st: Stack)
    requires Canonical(path)
    ensures st == Components(path, 0) && GoodStack(st) && path == Render(st) && |path| <= MAX_PATH
    ensures path == [SLASH] <==> st == []
  {
    hide Components;
    st :| GoodStack(st) && path == Render(st) && |path| <= MAX_PATH;
    ComponentsOfRender(st);
    JoinLong(st);
  }

  // ---- the resolver as coded ----

  lemma CStringWhole(s: Bytes)
    requires NulFree(s)
    ensures CString(s) == s
  {
    assert s[..|s|] == s;
  }

  lemma NamesShape(fs: Fs, o: Owner)
    requires Names(fs, o)
    ensures FsInv(fs, o) && WellFormed(fs) && Allocated(fs, ROOT_INODE)
  {
    hide FsInv, DirOk, Dir;
    WellFormedInv(fs, o);
  }

  lemma NamesDir(fs: Fs, o: Owner, d: nat)
    requires Names(fs, o) && Allocated(fs, d)
    ensures d < |fs.inodes| && (fs.inodes[d].itype == TYPE_DIR ==> DirOk(fs, d))
    ensures fs.inodes[d].itype == TYPE_DIR ==>
              forall name :: name in Dir(fs, d) ==> Allocated(fs, Dir(fs, d)[name].inum)
  {
    hide FsInv, DirOk, Dir;
  }

  /** read_symlink_target: the whole target sits in the first block. */
  method ReadSymlinkTarget(u: Ufs, inum: u32, ino: Inode, ghost o: Owner) returns (r: Result<Bytes>)
    requires u.Valid() && FsInv(u.fs, o) && Allocated(u.fs, inum) && inum < |u.fs.inodes| && ino == u.fs.inodes[inum]
    ensures r == LinkTarget(u.fs, inum)
    ensures r.Ok? ==> NulFree(r.value) && |r.value| <= MAX_PATH
  {
    hide Ufs.Valid, FsInv, Val, SlotVal, Holding, Content, Current, NulFree;
    if ino.itype != TYPE_SYMLINK || ino.size == 0 || ino.size > MAX_PATH {
      return Err(EIO);
    }
    SameCurrent(u.fs, inum, o);
    CurrentHolding(u.fs, inum, ino, o);
    PositionPresent(u.fs, o, inum, 0);
    var physical := GetInodeDataBlock(u, ino, 0, inum, o);
    var block := u.ReadData(physical.value);
    ChunkRead(u.fs, o, inum, 0, ino.size);
    var target := block[..ino.size];
    assert Content(u.fs, inum)[0..ino.size] == Content(u.fs, inum);
    assert target == Content(u.fs, inum);
    return Ok(CString(target));
  }

  lemma SameCurrent(fs: Fs, i: nat, o: Owner)
    requires FsInv(fs, o) && Allocated(fs, i)
    ensures i < |fs.inodes| && Current(fs, i, fs.inodes[i], o)
  {
    hide FsInv;
  }

  /** Where the walk of a rendered path stands after k components. */
  function Position(st: Stack, k: nat): nat
    requires k <= |st|
  {
    if k < |st| then |Join(st[..k])| + 1 else |Join(st)|
  }

  /** The component at a position, and what follows it. */
  lemma ComponentAt(path: Bytes, st: Stack, k: nat)
    requires GoodStack(st) && k < |st| && path == Join(st)
    ensures var start, next := Position(st, k), |Join(st[..k])| + 1 + |st[k]|;
            && start <= next <= |path| && path[start..next] == st[k] && path[next..] == Join(st[k + 1..])
            && NextSlash(path, start) == next && (next == |path| <==> k + 1 == |st|)
            && Position(st, k + 1) == (if k + 1 == |st| then next else next + 1)
  {
    hide Join;
    var a, c, b := st[..k], st[k], st[k + 1..];
    assert st == a + [c] + b && st[..k + 1] == a + [c];
    JoinAppend(a + [c], b);
    JoinPush(a, c);
    JoinLong(b);
    JoinNothing();
    var start, next := |Join(a)| + 1, |Join(a)| + 1 + |c|;
    assert path == Join(a) + [SLASH] + c + Join(b);
    assert path[start..next] == c;
    assert path[next..] == Join(b);
    assert forall j :: start <= j < next ==> path[j] == c[j - start];
    assert next < |path| ==> path[next] == Join(b)[0];
    assert st[..|st|] == st;
    NextIs(path, start, next);
  }

  lemma PositionInside(path: Bytes, st: Stack, k: nat)
    requires GoodStack(st) && k <= |st| && path == Join(st)
    ensures Position(st, k) < |path| <==> k < |st|
  {
    hide Join, NextSlash;
    if k < |st| {
      ComponentAt(path, st, k);
    }
  }

  /** One more component after the parent: the buffer append of the resolver. */
  function AppendName(parent: Bytes, c: Name): Bytes { (if |parent| > 1 then parent + [SLASH] else parent) + c }

  lemma ParentStep(st: Stack, k: nat)
    requires GoodStack(st) && k < |st|
    ensures Render(st[..k + 1]) == AppendName(Render(st[..k]), st[k])
    ensures |Render(st[..k + 1])| <= |Join(st)|
  {
    hide Join, Render;
    assert st[..k + 1] == st[..k] + [st[k]];
    PushLength(st[..k], st[k]);
    assert st == st[..k + 1] + st[k + 1..];
    JoinAppend(st[..k + 1], st[k + 1..]);
    PushLength(st[..k], st[k]);
  }

  /** The string a link's target is combined into never overflows its buffer. */
  lemma CombinedFits(st: Stack, k: nat, target: Bytes)
    requires GoodStack(st) && k < |st| && |Join(st)| <= MAX_PATH && |target| <= MAX_PATH
    ensures var c := Combined(st[..k], target, st[k + 1..]); |c| < 2 * MAX_PATH + 3 && c[0] == SLASH
  {
    hide Join;
    assert st == (st[..k] + [st[k]]) + st[k + 1..];
    JoinAppend(st[..k] + [st[k]], st[k + 1..]);
    JoinPush(st[..k], st[k]);
    JoinLong(st[..k]);
    JoinNothing();
  }

  /** Expand the link found after k components: the rewritten path, in the buffer. */
  method ExpandLink(u: Ufs, inum: u32, ino: Inode, parent: Bytes, remainder: Bytes, ghost st: Stack, ghost k: nat,
      ghost o: Owner)
    returns (r: Result<Bytes>, ghost to: Stack)
    requires u.Valid() && FsInv(u.fs, o) && Allocated(u.fs, inum) && inum < |u.fs.inodes| && ino == u.fs.inodes[inum]
    requires GoodStack(st) && k < |st| && |Join(st)| <= MAX_PATH
    requires parent == Render(st[..k]) && remainder == Join(st[k + 1..])
    ensures r.Ok? ==> Expansion(u.fs, inum, st[..k], st[k + 1..]) == Jump(to)
                      && GoodStack(to) && r.value == Render(to) && |r.value| <= MAX_PATH
    ensures r.Err? ==> Expansion(u.fs, inum, st[..k], st[k + 1..]) == Fail(r.error)
  {
    hide Ufs.Valid, FsInv, Fold, Components, Join, LinkTarget;
    to := [];
    var target := ReadSymlinkTarget(u, inum, ino, o);
    if target.Err? {
      return Err(target.error), to;
    }
    var t := target.value;
    JoinNothing();
    ParentIsJoin(st[..k]);
    var combined: Bytes;
    if t != [] && t[0] == SLASH {
      combined := t + remainder;
    } else if parent == [SLASH] {
      combined := [SLASH] + t + remainder;
    } else {
      combined := parent + [SLASH] + t + remainder;
    }
    assert combined == Combined(st[..k], t, st[k + 1..]);
    CombinedFits(st, k, t);
    var output := new byte[MAX_PATH + 1](_ => 0);
    var normalized := NormalizeAbsolutePath(combined, output);
    if normalized.Err? {
      return Err(normalized.error), to;
    }
    to := Fold([], Components(combined, 0)).value;
    ComponentsPlain(combined, 0);
    FoldGood([], Components(combined, 0));
    return Ok(output[..normalized.value]), to;
  }

  lemma ParentIsJoin(st: Stack)
    ensures GoodStack(st) ==> Join(st) == if Render(st) == [SLASH] then [] else Render(st)
  {
    JoinNothing();
    if GoodStack(st) && st != [] {
      JoinLong(st);
    }
  }

  lemma WalkStep(fs: Fs, acc: Access, cur: u32, st: Stack, k: nat, nofollow: bool)
    requires k < |st| && cur < |fs.inodes|
    ensures var w := Walk(fs, acc, cur, st[..k], st[k..], nofollow);
            if !acc(fs.inodes[cur], X_OK) then w == Fail(EACCES)
            else if fs.inodes[cur].itype != TYPE_DIR then w == Fail(ENOTDIR)
            else if st[k] !in Dir(fs, cur) then w == Fail(ENOENT)
            else
              var next := Dir(fs, cur)[st[k]].inum; var final := k + 1 == |st|;
              if next >= |fs.inodes| then w == Fail(EINVAL)
              else if fs.inodes[next].itype == TYPE_SYMLINK && !(final && nofollow) then
                w == Expansion(fs, next, st[..k], st[k + 1..])
              else if !final && fs.inodes[next].itype != TYPE_DIR then w == Fail(ENOTDIR)
              else w == Walk(fs, acc, next, st[..k + 1], st[k + 1..], nofollow)
  {
    hide Dir, Expansion;
    assert st[k..][0] == st[k] && st[k..][1..] == st[k + 1..];
    assert st[..k] + [st[k]] == st[..k + 1];
  }

  /** resolve_absolute, one pass per activation. */
  method ResolveAbsolute(u: Ufs, path: Bytes, nofollow: bool, depth: nat, acc: Access, ghost st: Stack, ghost o: Owner)
    returns (r: Result<u32>)
    requires u.Valid() && Names(u.fs, o) && depth <= MAX_SYMLINK_DEPTH
    requires GoodStack(st) && path == Render(st) && |path| <= MAX_PATH
    ensures r == ResolveWithin(u.fs, acc, st, nofollow, MAX_SYMLINK_DEPTH - depth)
    decreases MAX_SYMLINK_DEPTH - depth
  {
    hide Ufs.Valid, Names, Fold, Components, Join, Walk, Dir, DirOk, Expansion, NextSlash, FsInv, Render, NoSlash;
    if depth >= MAX_SYMLINK_DEPTH {
      return Err(ELOOP);
    }
    NamesShape(u.fs, o);
    ParentIsJoin(st);
    if path == [SLASH] {
      RenderIsRoot(st);
      WalkEnd(u.fs, acc, ROOT_INODE, [], nofollow);
      return Ok(ROOT_INODE);
    }
    var current: u32, position: nat, parent: Bytes := ROOT_INODE, 1, [SLASH];
    ghost var k := 0;
    assert st[..0] == [] && st[0..] == st && st[..|st|] == st;
    JoinNothing();
    RenderNothing();
    PositionInside(path, st, 0);
    while position < |path|
      invariant k <= |st| && position == Position(st, k) && (position < |path| <==> k < |st|)
      invariant Allocated(u.fs, current) && current < |u.fs.inodes|
      invariant k < |st| ==> parent == Render(st[..k])
      invariant Start(u.fs, acc, st, nofollow) == Walk(u.fs, acc, current, st[..k], st[k..], nofollow)
    {
      ComponentAt(path, st, k);
      PositionInside(path, st, k + 1);
      WalkStep(u.fs, acc, current, st, k, nofollow);
      NamesDir(u.fs, o, current);
      var currentInode := u.ReadInode(current);
      if !acc(currentInode.value, X_OK) {
        return Err(EACCES);
      }
      var start := position;
      position := ScanNext(path, position);
      var c := path[start..position];
      assert c == st[k] && 0 < |c| <= MAX_NAME;
      var next := DirectoryFind(u, current, c, o);
      if next.Err? {
        return Err(next.error);
      }
      var ino := u.ReadInode(next.value);
      var isFinal := position == |path|;
      NamesDir(u.fs, o, next.value);
      if ino.value.itype == TYPE_SYMLINK && !(isFinal && nofollow) {
        ghost var to;
        var expanded;
        expanded, to := ExpandLink(u, next.value, ino.value, parent, path[position..], st, k, o);
        if expanded.Err? {
          return Err(expanded.error);
        }
        r := ResolveAbsolute(u, expanded.value, nofollow, depth + 1, acc, to, o);
        return;
      }
      if !isFinal && ino.value.itype != TYPE_DIR {
        return Err(ENOTDIR);
      }
      current := next.value;
      if !isFinal {
        ParentStep(st, k);
        parent := AppendName(parent, c);
        assert |parent| <= MAX_PATH;
        position := position + 1;
      }
      k := k + 1;
    }
    assert st[k..] == [];
    WalkEnd(u.fs, acc, current, st, nofollow);
    return Ok(current);
  }

  lemma RenderIsRoot(st: Stack)
    requires GoodStack(st) && Render(st) == [SLASH]
    ensures st == []
  {
    JoinLong(st);
  }

  lemma WalkEnd(fs: Fs, acc: Access, cur: u32, done: Stack, nofollow: bool)
    ensures Walk(fs, acc, cur, done, [], nofollow) == At(cur)
  {
  }

  /** resolve_path_ex */
  method ResolvePathEx(u: Ufs, path: Bytes, flags: nat, acc: Access, ghost o: Owner) returns (r: Result<u32>)
    requires u.Valid() && Names(u.fs, o)
    ensures r == if flags != 0 && flags != FOLLOW_FINAL && flags != NOFOLLOW_FINAL then Err(EINVAL)
                 else ResolvePath(u.fs, acc, path, flags == NOFOLLOW_FINAL)
    ensures r.Ok? ==> Allocated(u.fs, r.value)
  {
    hide Ufs.Valid, Names, Components, Join, ResolveWithin;
    if flags != 0 && flags != FOLLOW_FINAL && flags != NOFOLLOW_FINAL {
      return Err(EINVAL);
    }
    var ok := ValidatePath(path);
    if !ok {
      return Err(EINVAL);
    }
    ghost var st := CanonicalStack(path);
    r := ResolveAbsolute(u, path, flags == NOFOLLOW_FINAL, 0, acc, st, o);
    if r.Ok? {
      ResolvedAllocated(u.fs, o, acc, st, flags == NOFOLLOW_FINAL, MAX_SYMLINK_DEPTH);
    }
  }

  /** The last slash, as strrchr finds it. */
  method LastSlash(path: Bytes) returns (at: nat)
    requires path != [] && path[0] == SLASH
    ensures at < |path| && path[at] == SLASH && forall j :: at < j < |path| ==> path[j] != SLASH
  {
    at := |path| - 1;
    while path[at] != SLASH
      invariant at < |path| && forall j :: at < j < |path| ==> path[j] != SLASH
      decreases at
    {
      at := at - 1;
    }
  }

  lemma SplitAtLast(path: Bytes, st: Stack, at: nat)
    requires GoodStack(st) && st != [] && path == Join(st)
    requires at < |path| && path[at] == SLASH && forall j :: at < j < |path| ==> path[j] != SLASH
    ensures path[..at] == Join(st[..|st| - 1]) && path[at + 1..] == st[|st| - 1]
  {
    hide Join;
    var init, x := st[..|st| - 1], st[|st| - 1];
    assert init + [x] == st;
    JoinPush(init, x);
    assert path == Join(init) + [SLASH] + x;
    var n := |Join(init)|;
    assert forall j :: n < j < |path| ==> path[j] == x[j - n - 1];
    assert path[n] == SLASH;
    assert at == n;
  }

  /** resolve_parent */
  method ResolveParent(u: Ufs, path: Bytes, acc: Access, ghost o: Owner) returns (r: Result<(u32, Name)>)
    requires u.Valid() && Names(u.fs, o)
    ensures r == ParentOf(u.fs, acc, path)
    ensures r.Ok? ==> Allocated(u.fs, r.value.0) && GoodName(r.value.1) && (NulFree(path) ==> NulFree(r.value.1))
  {
    hide Ufs.Valid, Names, Components, Join, ResolveWithin;
    var ok := ValidatePath(path);
    if !ok {
      return Err(EINVAL);
    }
    ghost var st := CanonicalStack(path);
    if path == [SLASH] {
      return Err(EINVAL);
    }
    JoinLong(st);
    var at := LastSlash(path);
    SplitAtLast(path, st, at);
    var name := path[at + 1..];
    ghost var init := st[..|st| - 1];
    JoinNothing();
    JoinLong(init);
    var parentPath := if at == 0 then [SLASH] else path[..at];
    assert parentPath == Render(init);
    ComponentsOfRender(init);
    assert Canonical(parentPath);
    var parent := ResolvePathEx(u, parentPath, FOLLOW_FINAL, acc, o);
    if parent.Err? {
      return Err(parent.error);
    }
    return Ok((parent.value, name));
  }
}
