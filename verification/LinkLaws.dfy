/** What resolution does with a symbolic link anywhere on a path, and what it asks for on the way. */
module LinkLaws {
  import opened Layout
  import opened Encoding
  import opened Context
  import opened FileContent
  import opened Paths
  import opened ShellPath
  import opened PathLaws
  import opened Directory
  import opened Resolve

  // ---- plain descent ----

  /** Descent along the names in st stays on directories that may be searched, links not followed. */
  ghost predicate DirPath(fs: Fs, acc: Access, cur: u32, st: Stack)
    decreases |st|
  {
    && cur < |fs.inodes| && fs.inodes[cur].itype == TYPE_DIR && acc(fs.inodes[cur], 1)
    && (st == [] || (st[0] in Dir(fs, cur) && DirPath(fs, acc, Dir(fs, cur)[st[0]].inum, st[1..])))
  }

  lemma {:induction false} DirPathEnd(fs: Fs, acc: Access, cur: u32, st: Stack)
    requires DirPath(fs, acc, cur, st)
    ensures Lookup(fs, cur, st).Ok?
    ensures var d := Lookup(fs, cur, st).value;
            d < |fs.inodes| && fs.inodes[d].itype == TYPE_DIR && acc(fs.inodes[d], 1)
    decreases |st|
  {
    hide Dir;
    if st != [] {
      DirPathEnd(fs, acc, Dir(fs, cur)[st[0]].inum, st[1..]);
    }
  }

  /** A walk follows such a descent. */
  lemma {:induction false} WalkAlong(fs: Fs, acc: Access, cur: u32, front: Stack, st: Stack, rest: Stack,
      nofollow: bool)
    requires DirPath(fs, acc, cur, st) && Lookup(fs, cur, st).Ok?
    ensures Walk(fs, acc, cur, front, st + rest, nofollow)
            == Walk(fs, acc, Lookup(fs, cur, st).value, front + st, rest, nofollow)
    decreases |st|
  {
    hide Dir, Expansion;
    if st == [] {
      assert st + rest == rest && front + st == front;
    } else {
      var all, next := st + rest, Dir(fs, cur)[st[0]].inum;
      assert all[0] == st[0] && all[1..] == st[1..] + rest;
      WalkAlong(fs, acc, next, front + [st[0]], st[1..], rest, nofollow);
      assert front + [st[0]] + st[1..] == front + st;
      assert next < |fs.inodes| && fs.inodes[next].itype == TYPE_DIR;
    }
  }

  /** Resolving a path of directories. */
  lemma DirPathStart(fs: Fs, acc: Access, st: Stack, nofollow: bool)
    requires DirPath(fs, acc, ROOT_INODE, st)
    ensures Lookup(fs, ROOT_INODE, st).Ok? && Start(fs, acc, st, nofollow) == At(Lookup(fs, ROOT_INODE, st).value)
  {
    hide Dir;
    DirPathEnd(fs, acc, ROOT_INODE, st);
    WalkAlong(fs, acc, ROOT_INODE, [], st, [], nofollow);
    assert st + [] == st && [] + st == st;
  }

  // ---- one link ----

  /** Directory path done leads to a directory in which name is link i. */
  ghost predicate LinkAt(fs: Fs, acc: Access, done: Stack, name: Name, i: u32) {
    && DirPath(fs, acc, ROOT_INODE, done) && Lookup(fs, ROOT_INODE, done).Ok?
    && var d := Lookup(fs, ROOT_INODE, done).value;
       && d < |fs.inodes| && name in Dir(fs, d) && Dir(fs, d)[name].inum == i
       && i < |fs.inodes| && fs.inodes[i].itype == TYPE_SYMLINK
       && 0 < fs.inodes[i].size <= 255 && NulFree(Content(fs, i))
  }

  /** The path being resolved is rebuilt from the text, the path before the link and the path after it. */
  lemma LinkExpands(fs: Fs, acc: Access, done: Stack, name: Name, i: u32, rest: Stack, nofollow: bool)
    requires LinkAt(fs, acc, done, name, i) && (rest != [] || !nofollow)
    ensures Start(fs, acc, done + [name] + rest, nofollow) == Expansion(fs, i, done, rest)
  {
    hide Dir, Expansion, DirPath, Content;
    var tail := [name] + rest;
    assert done + [name] + rest == done + tail;
    DirPathEnd(fs, acc, ROOT_INODE, done);
    WalkAlong(fs, acc, ROOT_INODE, [], done, tail, nofollow);
    assert [] + done == done && tail[1..] == rest && tail[0] == name;
  }

  /** The canonical rest of a path splits into its components. */
  lemma RestSplits(p: Bytes, rest: Stack)
    requires GoodStack(rest)
    ensures Components(p + Join(rest), 0) == Components(p, 0) + rest
  {
    hide Components, Join;
    JoinLong(rest);
    JoinNothing();
    ComponentsConcat(p, Join(rest), 0);
    assert Join(rest)[0..] == Join(rest);
    ComponentsOfJoin(Join(rest), 0, rest);
  }

  /** A relative text is read from the directory that holds the link, an absolute one from the root. */
  lemma LinkTextRead(fs: Fs, acc: Access, done: Stack, name: Name, i: u32, rest: Stack, nofollow: bool)
    requires LinkAt(fs, acc, done, name, i) && (rest != [] || !nofollow) && GoodStack(done) && GoodStack(rest)
    requires |Render(done)| <= MAX_PATH
    ensures var text := Content(fs, i);
            Start(fs, acc, done + [name] + rest, nofollow)
            == match Fold(if text[0] == SLASH then [] else done, Components(text, 0) + rest)
               case Ok(to) => Jump(to)
               case Err(e) => Fail(e)
  {
    hide Dir, DirPath, Content, Components, Fold, Join, NulFree;
    LinkExpands(fs, acc, done, name, i, rest, nofollow);
    var text := Content(fs, i);
    CStringWhole(text);
    var p := if text[0] == SLASH then text else Join(done) + [SLASH] + text;
    RestSplits(p, rest);
    var cs := Components(text, 0);
    if text[0] != SLASH {
      assert Join(done) + [SLASH] + text == Join(done) + ([SLASH] + text);
      ComponentsConcat(Join(done), [SLASH] + text, 0);
      assert Join(done)[0..] == Join(done);
      ComponentsOfJoin(Join(done), 0, done);
      LeadingSlash(text);
      assert done + cs + rest == done + (cs + rest);
      FoldAppend([], done, cs + rest);
      FoldWhole(done);
    }
  }

  /** A link whose text is one name jumps to that name beside it. */
  lemma RelativeLink(fs: Fs, acc: Access, done: Stack, name: Name, i: u32, t: Name, rest: Stack, nofollow: bool)
    requires LinkAt(fs, acc, done, name, i) && Content(fs, i) == t && (rest != [] || !nofollow)
    requires GoodStack(done + [t] + rest) && |Join(done + [t] + rest)| <= 255
    ensures Start(fs, acc, done + [name] + rest, nofollow) == Jump(done + [t] + rest)
  {
    hide Dir, DirPath, Content, Components, Fold, Join, LinkAt;
    StackParts(done, t, rest);
    LinkTextRead(fs, acc, done, name, i, rest, nofollow);
    NameAlone(t);
    assert done + [t] + rest == done + ([t] + rest);
    FoldRebuild(done, [t] + rest);
  }

  lemma StackParts(done: Stack, t: Name, rest: Stack)
    requires GoodStack(done + [t] + rest) && |Join(done + [t] + rest)| <= MAX_PATH
    ensures GoodStack(done) && GoodName(t) && GoodStack(rest) && |Render(done)| <= MAX_PATH
  {
    hide Join, GoodName;
    var all := done + [t] + rest;
    assert forall k :: 0 <= k < |done| ==> done[k] == all[k];
    assert all[|done|] == t;
    assert forall k :: 0 <= k < |rest| ==> rest[k] == all[|done| + 1 + k];
    JoinAppend(done + [t], rest);
    JoinPush(done, t);
    assert Join(all) == Join(done) + [SLASH] + t + Join(rest);
  }

  lemma NameAlone(t: Name)
    requires 0 < |t| && NoSlash(t)
    ensures Components(t, 0) == [t]
  {
    hide Components;
    LeadingSlash(t);
    assert [] + [SLASH] + t + [] == [SLASH] + t;
    ComponentsAfter([], t, []);
    NoComponents([]);
    assert [] + [t] + [] == [t];
  }

  /** A link whose text is an absolute path jumps there. */
  lemma AbsoluteLink(fs: Fs, acc: Access, done: Stack, name: Name, i: u32, to: Stack, rest: Stack, nofollow: bool)
    requires LinkAt(fs, acc, done, name, i) && Content(fs, i) == Render(to) && (rest != [] || !nofollow)
    requires GoodStack(done) && |Render(done)| <= MAX_PATH && GoodStack(to + rest) && |Join(to + rest)| <= 255
    ensures Start(fs, acc, done + [name] + rest, nofollow) == Jump(to + rest)
  {
    hide Dir, DirPath, Content, Components, Fold, Join, LinkAt, GoodName;
    assert forall k :: 0 <= k < |to| ==> to[k] == (to + rest)[k];
    assert forall k :: 0 <= k < |rest| ==> rest[k] == (to + rest)[|to| + k];
    LinkTextRead(fs, acc, done, name, i, rest, nofollow);
    ComponentsOfRender(to);
    JoinLong(to);
    assert [] + (to + rest) == to + rest;
    FoldRebuild([], to + rest);
  }

  /** A link to "../t" jumps to t beside the directory it is in, and in the root directory to t there. */
  lemma ParentLink(fs: Fs, acc: Access, done: Stack, name: Name, i: u32, t: Name, rest: Stack, nofollow: bool)
    requires LinkAt(fs, acc, done, name, i) && Content(fs, i) == [DOT, DOT, SLASH] + t && (rest != [] || !nofollow)
    requires GoodStack(done) && |Render(done)| <= MAX_PATH
    requires var up := if done == [] then [] else done[..|done| - 1];
             GoodStack(up + [t] + rest) && |Join(up + [t] + rest)| <= 255
    ensures var up := if done == [] then [] else done[..|done| - 1];
            Start(fs, acc, done + [name] + rest, nofollow) == Jump(up + [t] + rest)
  {
    hide Dir, DirPath, Content, Components, Fold, Join, LinkAt;
    var up := if done == [] then [] else done[..|done| - 1];
    StackParts(up, t, rest);
    LinkTextRead(fs, acc, done, name, i, rest, nofollow);
    DotNames();
    var dots: Name := [DOT, DOT];
    assert [DOT, DOT, SLASH] + t == dots + [SLASH] + t + [];
    ComponentsAfter(dots, t, []);
    NoComponents([]);
    NameAlone(dots);
    assert [dots] + [t] + [] + rest == [dots] + ([t] + rest);
    FoldOne(done, dots, [t] + rest);
    assert up + [t] + rest == up + ([t] + rest);
    FoldRebuild(up, [t] + rest);
  }

  // ---- whole paths ----

  /** After a jump one pass less is left, which only matters when none is. */
  lemma JumpResolves(fs: Fs, acc: Access, from: Stack, to: Stack, nofollow: bool)
    requires GoodStack(from) && GoodStack(to) && |Render(from)| <= MAX_PATH && |Render(to)| <= MAX_PATH
    requires Start(fs, acc, from, nofollow) == Jump(to)
    ensures ResolvePath(fs, acc, Render(from), nofollow)
            == if Settles(fs, acc, to, nofollow, 38) then ResolvePath(fs, acc, Render(to), nofollow) else Err(ELOOP)
  {
    hide Start, Components, Settles, Render;
    assert Canonical(Render(from)) && Canonical(Render(to));
    ComponentsOfRender(from);
    ComponentsOfRender(to);
    LoopExactly(fs, acc, to, nofollow, 39);
    if Settles(fs, acc, to, nofollow, 38) {
      MoreDepth(fs, acc, to, nofollow, 39, 40);
    }
  }

  /** Without following, a final link is found itself. */
  lemma FinalLinkFound(fs: Fs, acc: Access, done: Stack, name: Name, i: u32)
    requires LinkAt(fs, acc, done, name, i) && GoodStack(done + [name]) && |Render(done + [name])| <= MAX_PATH
    ensures ResolvePath(fs, acc, Render(done + [name]), true) == Ok(i)
  {
    hide Dir, DirPath, Content, Components, Render;
    var last: Stack := [name];
    DirPathEnd(fs, acc, ROOT_INODE, done);
    WalkAlong(fs, acc, ROOT_INODE, [], done, last, true);
    assert last[1..] == [] && last[0] == name && [] + done == done;
    WalkEnd(fs, acc, i, done + [name], true);
    assert Start(fs, acc, done + [name], true) == At(i);
    ComponentsOfRender(done + [name]);
    assert Canonical(Render(done + [name]));
  }

  /** A walk that follows does not end at a link. */
  lemma {:induction false} NeverALink(fs: Fs, acc: Access, cur: u32, done: Stack, rest: Stack)
    requires cur < |fs.inodes| && fs.inodes[cur].itype != TYPE_SYMLINK
    requires Walk(fs, acc, cur, done, rest, false).At?
    ensures var i := Walk(fs, acc, cur, done, rest, false).inum; i < |fs.inodes| && fs.inodes[i].itype != TYPE_SYMLINK
    decreases |rest|
  {
    hide Dir, Expansion;
    if rest != [] {
      NeverALink(fs, acc, Dir(fs, cur)[rest[0]].inum, done + [rest[0]], rest[1..]);
    }
  }

  /** Following, no link is ever the answer, unless the root is one. */
  lemma {:induction false} FollowedIsNoLink(fs: Fs, acc: Access, st: Stack, fuel: nat)
    requires ROOT_INODE < |fs.inodes| && fs.inodes[ROOT_INODE].itype != TYPE_SYMLINK
    requires ResolveWithin(fs, acc, st, false, fuel).Ok?
    ensures var i := ResolveWithin(fs, acc, st, false, fuel).value;
            i < |fs.inodes| && fs.inodes[i].itype != TYPE_SYMLINK
    decreases fuel
  {
    hide Walk;
    var p := Start(fs, acc, st, false);
    if p.At? {
      NeverALink(fs, acc, ROOT_INODE, [], st);
    } else {
      FollowedIsNoLink(fs, acc, p.to, fuel - 1);
    }
  }

  /** Every directory on the way must be searchable: one that is not makes the walk fail with EACCES. */
  lemma {:induction false} SearchNeeded(fs: Fs, acc: Access, cur: u32, done: Stack, rest: Stack, nofollow: bool)
    requires Walk(fs, acc, cur, done, rest, nofollow).At?
    ensures forall k :: 0 <= k < |rest| ==>
              var d := Lookup(fs, cur, rest[..k]);
              d.Ok? && d.value < |fs.inodes| && fs.inodes[d.value].itype == TYPE_DIR && acc(fs.inodes[d.value], 1)
    decreases |rest|
  {
    hide Dir, Expansion;
    if rest != [] {
      var next := Dir(fs, cur)[rest[0]].inum;
      SearchNeeded(fs, acc, next, done + [rest[0]], rest[1..], nofollow);
      forall k | 0 <= k < |rest|
        ensures var d := Lookup(fs, cur, rest[..k]);
                d.Ok? && d.value < |fs.inodes| && fs.inodes[d.value].itype == TYPE_DIR && acc(fs.inodes[d.value], 1)
      {
        if k > 0 {
          assert rest[..k][0] == rest[0] && rest[..k][1..] == rest[1..][..k - 1];
        }
      }
    }
  }

  /** A directory that may not be searched stops every path through it. */
  lemma SearchDenied(fs: Fs, acc: Access, done: Stack, name: Name, rest: Stack, nofollow: bool)
    requires DirPath(fs, acc, ROOT_INODE, done) && Lookup(fs, ROOT_INODE, done).Ok? && rest != []
    requires var d := Lookup(fs, ROOT_INODE, done).value;
             && d < |fs.inodes| && name in Dir(fs, d)
             && var i := Dir(fs, d)[name].inum;
                i < |fs.inodes| && fs.inodes[i].itype == TYPE_DIR && !acc(fs.inodes[i], 1)
    ensures Start(fs, acc, done + [name] + rest, nofollow) == Fail(EACCES)
  {
    hide Dir, DirPath, Expansion;
    var tail := [name] + rest;
    assert done + [name] + rest == done + tail;
    DirPathEnd(fs, acc, ROOT_INODE, done);
    WalkAlong(fs, acc, ROOT_INODE, [], done, tail, nofollow);
    assert [] + done == done && tail[1..] == rest && tail[0] == name;
  }
}
