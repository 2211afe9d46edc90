/** What ".", ".." and repeated slashes mean, stated on whole paths for both normalisers. */
module PathLaws {
  import opened Layout
  import opened Paths
  import opened ShellPath

  // ---- the normal form ----

  /** A trailing component is split off last. */
  lemma ComponentsAfter(p: Bytes, c: Name, q: Bytes)
    requires 0 < |c| && NoSlash(c) && (q == [] || q[0] == SLASH)
    ensures Components(p + [SLASH] + c + q, 0) == Components(p, 0) + [c] + Components(q, 0)
  {
    hide Components;
    var s := [SLASH] + c + q;
    assert p + [SLASH] + c + q == p + s;
    ComponentsConcat(p, s, 0);
    assert s[0..] == s;
    ComponentsHead(s, 0, c, q);
    ComponentsShift([SLASH] + c, q, 0);
    assert Components(p, 0) + ([c] + Components(q, 0)) == Components(p, 0) + [c] + Components(q, 0);
  }

  /** Normalising p/c/q, step by step. */
  lemma NormalizedAfter(p: Bytes, c: Name, q: Bytes)
    requires 0 < |c| && NoSlash(c) && (q == [] || q[0] == SLASH)
    ensures var first := Fold([], Components(p, 0));
            Fold([], Components(p + [SLASH] + c + q, 0))
            == if first.Err? then first
               else if Push(first.value, c).Err? then Push(first.value, c)
               else Fold(Push(first.value, c).value, Components(q, 0))
  {
    hide Components, Push, Fold;
    var a, b := Components(p, 0), Components(q, 0);
    ComponentsAfter(p, c, q);
    assert a + [c] + b == a + ([c] + b);
    FoldAppend([], a, [c] + b);
    if Fold([], a).Ok? {
      FoldOne(Fold([], a).value, c, b);
    }
  }

  lemma DotNames()
    ensures NoSlash([DOT]) && NoSlash([DOT, DOT])
  {
  }

  /** "x/.." goes nowhere, provided x could be entered at all. */
  lemma ParentUndoes(p: Bytes, x: Name, q: Bytes)
    requires GoodName(x) && (q == [] || q[0] == SLASH)
    ensures Normalized(p + [SLASH] + x + [SLASH, DOT, DOT] + q)
            == if Normalized(p + [SLASH] + x).Ok? then Normalized(p + q) else Normalized(p + [SLASH] + x)
  {
    hide Components, Fold, Join;
    DotNames();
    var up: Bytes, tail := [DOT, DOT], [SLASH, DOT, DOT] + q;
    assert p + [SLASH] + x + [SLASH, DOT, DOT] + q == p + [SLASH] + x + [SLASH] + up + q;
    NormalizedAfter(p + [SLASH] + x, up, q);
    assert p + [SLASH] + x + [] == p + [SLASH] + x;
    NormalizedAfter(p, x, []);
    NormalizedCompose(p, q);
    NoComponents([]);
    if Fold([], Components(p, 0)).Ok? {
      var st := Fold([], Components(p, 0)).value;
      if Push(st, x).Ok? {
        FoldNothing(st + [x]);
        assert (st + [x])[..|st|] == st;
      }
    }
  }

  /** ".." in the root directory stays there. */
  lemma RootIsItsParent(q: Bytes)
    requires q == [] || q[0] == SLASH
    ensures Normalized([SLASH, DOT, DOT] + q) == Normalized([SLASH] + q)
  {
    hide Components, Fold, Join;
    DotNames();
    var up: Bytes := [DOT, DOT];
    assert [] + [SLASH] + up + q == [SLASH, DOT, DOT] + q;
    NormalizedAfter([], up, q);
    NoComponents([]);
    FoldNothing([]);
    LeadingSlash(q);
  }

  /** "." stays where it is. */
  lemma DotStays(p: Bytes, q: Bytes)
    requires q == [] || q[0] == SLASH
    ensures Normalized(p + [SLASH, DOT] + q) == Normalized(p + q)
  {
    hide Components, Fold, Join;
    DotNames();
    var here: Bytes := [DOT];
    assert p + [SLASH] + here + q == p + [SLASH, DOT] + q;
    NormalizedAfter(p, here, q);
    NormalizedCompose(p, q);
  }

  /** One more slash changes nothing. */
  lemma SlashesJoin(p: Bytes, q: Bytes)
    requires q == [] || q[0] == SLASH
    ensures Normalized(p + [SLASH] + q) == Normalized(p + q)
  {
    hide Components, Fold, Join;
    assert p + [SLASH] + q == p + ([SLASH] + q);
    NormalizedCompose(p, [SLASH] + q);
    NormalizedCompose(p, q);
    LeadingSlash(q);
  }

  /** A name is entered if it and the longer path fit. */
  lemma NameEntered(st: Stack, x: Name)
    requires GoodStack(st) && |Render(st)| <= 255 && 0 < |x| && NoSlash(x) && x != [DOT] && x != [DOT, DOT]
    ensures Normalized(Render(st) + [SLASH] + x)
            == if |x| <= 31 && |Render(st + [x])| <= 255 then Ok(Render(st + [x])) else Err(ENAMETOOLONG)
  {
    hide Components, Fold, Join;
    var p := Render(st);
    assert p + [SLASH] + x + [] == p + [SLASH] + x;
    NormalizedAfter(p, x, []);
    NoComponents([]);
    ComponentsOfRender(st);
    FoldWhole(st);
    FoldNothing(st + [x]);
  }

  lemma RootName(x: Name)
    requires GoodName(x)
    ensures Normalized([SLASH] + x) == Ok([SLASH] + x)
  {
    hide Normalized, Join, Render, GoodName;
    var none: Stack, one: Stack := [], [x];
    assert none + [x] == one;
    PushLength(none, x);
    RenderNothing();
    assert [SLASH] + [] + x == [SLASH] + x;
    assert |[SLASH] + x| <= MAX_PATH by {
      NameShort(x);
    }
    assert GoodStack(one) && [SLASH] + x == Render(one);
    CanonicalFixed([SLASH] + x);
  }

  lemma NameShort(x: Name)
    requires GoodName(x)
    ensures 0 < |x| <= MAX_NAME
  {
  }

  /** In bytes: "/a/../b" is "/b". */
  lemma ParentExample()
    ensures Normalized([47, 97, 47, 46, 46, 47, 98]) == Ok([47, 98])
  {
    hide Components, Fold, Normalized;
    var a: Name, b: Name, p: Bytes := [97], [98], [];
    RootName(a);
    RootName(b);
    ParentUndoes(p, a, [SLASH] + b);
    assert p + [SLASH] + a == [SLASH] + a && p + ([SLASH] + b) == [SLASH] + b == [47, 98];
    assert p + [SLASH] + a + [SLASH, DOT, DOT] + ([SLASH] + b) == [47, 97, 47, 46, 46, 47, 98];
  }

  // ---- the shell ----

  /** "../q" read in directory st/x is q read in st. */
  lemma ShellParent(st: Stack, x: Name, q: Bytes)
    requires GoodStack(st + [x]) && |Render(st + [x])| <= MAX_PATH && (q == [] || q[0] == SLASH)
    ensures ShellNormalized(Render(st + [x]), [DOT, DOT] + q) == Normalized(Render(st) + q)
  {
    hide Components, Fold, Join, Normalized;
    var full := st + [x];
    assert full[|st|] == x && full[..|st|] == st;
    assert forall k :: 0 <= k < |st| ==> st[k] == full[k];
    JoinPush(st, x);
    var p := if st == [] then [] else Render(st);
    JoinNothing();
    assert Render(full) == p + [SLASH] + x;
    assert Render(full) + [SLASH] + ([DOT, DOT] + q) == p + [SLASH] + x + [SLASH, DOT, DOT] + q;
    ParentUndoes(p, x, q);
    assert Canonical(Render(full));
    CanonicalFixed(Render(full));
    if st == [] {
      assert p + [SLASH] + q == Render(st) + q;
      SlashesJoin(p, q);
    }
  }

  /** At the root it is q itself. */
  lemma ShellRootParent(q: Bytes)
    requires q == [] || q[0] == SLASH
    ensures ShellNormalized([SLASH], [DOT, DOT] + q) == Normalized([SLASH] + q)
  {
    hide Components, Fold, Join, Normalized;
    var s: Bytes := [DOT, DOT] + q;
    assert [SLASH] + [SLASH] + s == [] + [SLASH] + ([SLASH] + s) && [] + ([SLASH] + s) == [SLASH, DOT, DOT] + q;
    SlashesJoin([], [SLASH] + s);
    RootIsItsParent(q);
  }

  /** A plain name is looked up in the current directory, an absolute path is not. */
  lemma ShellName(st: Stack, x: Name, s: Bytes)
    requires GoodStack(st + [x]) && |Render(st + [x])| <= MAX_PATH && |Render(st)| <= MAX_PATH
    ensures ShellNormalized(Render(st), x) == Ok(Render(st + [x]))
    ensures ShellNormalized(Render(st), Render(st + [x])) == Ok(Render(st + [x]))
    ensures ShellNormalized(Render(st), [SLASH] + s) == Normalized([SLASH] + s)
  {
    hide Components, Fold, Join, Normalized;
    var full := st + [x];
    assert full[|st|] == x;
    assert forall k :: 0 <= k < |st| ==> st[k] == full[k];
    NameEntered(st, x);
    JoinLong(full);
    assert Canonical(Render(full));
    CanonicalFixed(Render(full));
  }
}
