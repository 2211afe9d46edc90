/** Path strings: the validator and the normaliser of src/namespace.c and the second normaliser of
    apps/userfs_shell.c, against one specification: folding components through a stack. */
module Paths {
  import opened Layout

  const SLASH: byte := 47
  const DOT: byte := 46

  type Name = Bytes
  type Stack = seq<Name>

  // ---- the specification ----

  predicate NoSlash(s: Bytes) { forall k :: 0 <= k < |s| ==> s[k] != SLASH }

  /** A component a canonical path may contain. */
  predicate GoodName(c: Name) {
    0 < |c| <= MAX_NAME && NoSlash(c) && c != [DOT] && c != [DOT, DOT]
  }

  predicate GoodStack(st: Stack) { forall k :: 0 <= k < |st| ==> GoodName(st[k]) }

  /** "/a/b" for the stack [a, b]; empty for the empty stack. */
  function Join(st: Stack): Bytes {
    if st == [] then [] else Join(st[..|st| - 1]) + [SLASH] + st[|st| - 1]
  }

  function Render(st: Stack): Bytes { if st == [] then [SLASH] else Join(st) }

  /** The first position from i on that is a slash, or the end. */
  function NextSlash(s: Bytes, i: nat): (j: nat)
    requires i <= |s|
    ensures i <= j <= |s| && (j < |s| ==> s[j] == SLASH)
    ensures forall k :: i <= k < j ==> s[k] != SLASH
    decreases |s| - i
  {
    if i == |s| || s[i] == SLASH then i else NextSlash(s, i + 1)
  }

  /** The first position from i on that is not a slash, or the end. */
  function SkipSlashes(s: Bytes, i: nat): (j: nat)
    requires i <= |s|
    ensures i <= j <= |s| && (j < |s| ==> s[j] != SLASH)
    ensures forall k :: i <= k < j ==> s[k] == SLASH
    decreases |s| - i
  {
    if i == |s| || s[i] != SLASH then i else SkipSlashes(s, i + 1)
  }

  /** The non-empty components of s from position i on. */
  function Components(s: Bytes, i: nat): seq<Name>
    requires i <= |s|
    decreases |s| - i
  {
    var a := SkipSlashes(s, i);
    if a == |s| then []
    else
      var b := NextSlash(s, a);
      [s[a..b]] + Components(s, b)
  }

  /** One component: "." stays, ".." pops if it can, anything else is pushed if it fits. */
  function Push(st: Stack, c: Name): Result<Stack> {
    if c == [DOT] then Ok(st)
    else if c == [DOT, DOT] then Ok(if st == [] then [] else st[..|st| - 1])
    else if |c| > MAX_NAME || |Join(st + [c])| > MAX_PATH then Err(ENAMETOOLONG)
    else Ok(st + [c])
  }

  function Fold(st: Stack, cs: seq<Name>): Result<Stack>
    decreases |cs|
  {
    if cs == [] then Ok(st)
    else if Push(st, cs[0]).Err? then Push(st, cs[0])
    else Fold(Push(st, cs[0]).value, cs[1..])
  }

  function Normalized(s: Bytes): Result<Bytes> {
    match Fold([], Components(s, 0))
    case Ok(st) => Ok(Render(st))
    case Err(e) => Err(e)
  }

  ghost predicate Canonical(p: Bytes) {
    exists st :: GoodStack(st) && p == Render(st) && |p| <= MAX_PATH
  }

  // ---- facts about rendering and splitting ----

  lemma JoinPush(st: Stack, c: Name)
    ensures Join(st + [c]) == Join(st) + [SLASH] + c
  {
    assert (st + [c])[..|st|] == st;
  }

  lemma {:induction false} JoinAppend(a: Stack, b: Stack)
    ensures Join(a + b) == Join(a) + Join(b)
  {
    if b == [] {
      assert a + b == a;
    } else {
      var init := b[..|b| - 1];
      assert (a + b)[..|a + b| - 1] == a + init;
      JoinAppend(a, init);
    }
  }

  lemma {:induction false} JoinLong(st: Stack)
    requires GoodStack(st)
    ensures |Join(st)| >= 2 * |st|
    ensures st != [] ==> Join(st)[0] == SLASH && Join(st)[|Join(st)| - 1] != SLASH
  {
    if st != [] {
      JoinLong(st[..|st| - 1]);
    }
  }

  /** Taking a first component off. */
  lemma ComponentsHead(s: Bytes, i: nat, c: Name, rest: Bytes)
    requires i <= |s| && s[i..] == [SLASH] + c + rest
    requires 0 < |c| && NoSlash(c) && (rest == [] || rest[0] == SLASH)
    ensures i + 1 + |c| <= |s|
    ensures Components(s, i) == [c] + Components(s, i + 1 + |c|)
  {
    hide NextSlash, SkipSlashes;
    var b := i + 1 + |c|;
    HeadAt(s, i, c, rest);
    SkipIs(s, i, i + 1);
    NextIs(s, i + 1, b);
  }

  lemma HeadAt(s: Bytes, i: nat, c: Name, rest: Bytes)
    requires i <= |s| && s[i..] == [SLASH] + c + rest
    requires 0 < |c| && NoSlash(c) && (rest == [] || rest[0] == SLASH)
    ensures var b := i + 1 + |c|;
            && b <= |s| && s[i] == SLASH && s[i + 1..b] == c && (b < |s| ==> s[b] == SLASH)
            && forall k :: i + 1 <= k < b ==> s[k] != SLASH
  {
    var t, b := s[i..], i + 1 + |c|;
    assert forall k :: 0 <= k < |t| ==> s[i + k] == t[k];
    assert t[0] == SLASH && t[1..1 + |c|] == c;
    assert s[i + 1..b] == c;
    forall k | i + 1 <= k < b ensures s[k] != SLASH {
      assert s[k] == c[k - i - 1];
    }
    assert b < |s| ==> s[b] == t[1 + |c|] == rest[0];
  }

  lemma {:induction false} SkipIs(s: Bytes, i: nat, a: nat)
    requires i <= a < |s| && s[a] != SLASH && forall k :: i <= k < a ==> s[k] == SLASH
    ensures SkipSlashes(s, i) == a
    decreases a - i
  {
    if i < a {
      SkipIs(s, i + 1, a);
    }
  }

  lemma {:induction false} NextIs(s: Bytes, i: nat, b: nat)
    requires i <= b <= |s| && (b < |s| ==> s[b] == SLASH) && forall k :: i <= k < b ==> s[k] != SLASH
    ensures NextSlash(s, i) == b
    decreases b - i
  {
    if i < b {
      NextIs(s, i + 1, b);
    }
  }

  /** Splitting a rendered stack gives the stack back. */
  lemma {:induction false} ComponentsOfJoin(s: Bytes, i: nat, st: Stack)
    requires GoodStack(st) && i <= |s| && s[i..] == Join(st)
    ensures Components(s, i) == st
    decreases |st|
  {
    hide Join, Components;
    if st == [] {
      JoinNothing();
      assert |s[i..]| == 0;
      NoComponents(s);
    } else {
      JoinHead(st);
      var rest := Join(st[1..]);
      JoinLong(st[1..]);
      JoinNothing();
      ComponentsHead(s, i, st[0], rest);
      var n := i + 1 + |st[0]|;
      assert s[n..] == s[i..][1 + |st[0]|..] == rest;
      ComponentsOfJoin(s, n, st[1..]);
      assert [st[0]] + st[1..] == st;
    }
  }

  lemma NoComponents(s: Bytes)
    ensures Components(s, |s|) == []
  {
  }

  lemma JoinHead(st: Stack)
    requires st != []
    ensures Join(st) == [SLASH] + st[0] + Join(st[1..])
  {
    JoinAppend([st[0]], st[1..]);
    assert [st[0]] + st[1..] == st;
    JoinPush([], st[0]);
    assert [] + [st[0]] == [st[0]];
  }

  lemma JoinNothing()
    ensures Join([]) == []
  {
  }

  lemma ComponentsOfRender(st: Stack)
    requires GoodStack(st)
    ensures Components(Render(st), 0) == st
  {
    var s := Render(st);
    assert s[0..] == s;
    if st == [] {
      assert SkipSlashes(s, 0) == SkipSlashes(s, 1) == 1;
    } else {
      ComponentsOfJoin(s, 0, st);
    }
  }

  /** Different stacks render differently. */
  lemma RenderInjective(a: Stack, b: Stack)
    requires GoodStack(a) && GoodStack(b) && Render(a) == Render(b)
    ensures a == b
  {
    ComponentsOfRender(a);
    ComponentsOfRender(b);
  }

  lemma {:induction false} FoldAppend(st: Stack, a: seq<Name>, b: seq<Name>)
    ensures Fold(st, a + b) == match Fold(st, a) case Ok(mid) => Fold(mid, b) case Err(e) => Err(e)
    decreases |a|
  {
    if a == [] {
      assert a + b == b;
    } else {
      assert (a + b)[0] == a[0] && (a + b)[1..] == a[1..] + b;
      if Push(st, a[0]).Ok? {
        FoldAppend(Push(st, a[0]).value, a[1..], b);
      }
    }
  }

  predicate Plain(cs: seq<Name>) { forall k :: 0 <= k < |cs| ==> 0 < |cs[k]| && NoSlash(cs[k]) }

  lemma {:induction false} ComponentsPlain(s: Bytes, i: nat)
    requires i <= |s|
    ensures Plain(Components(s, i))
    decreases |s| - i
  {
    var a := SkipSlashes(s, i);
    if a < |s| {
      ComponentsPlain(s, NextSlash(s, a));
    }
  }

  lemma PushGood(st: Stack, c: Name)
    requires GoodStack(st) && |Render(st)| <= MAX_PATH && 0 < |c| && NoSlash(c) && Push(st, c).Ok?
    ensures GoodStack(Push(st, c).value) && |Render(Push(st, c).value)| <= MAX_PATH
  {
    hide Join;
    if st != [] {
      var init := st[..|st| - 1];
      JoinPush(init, st[|st| - 1]);
      assert init + [st[|st| - 1]] == st;
      assert GoodStack(init);
    }
  }

  /** The stack of a successful fold is a canonical path. */
  lemma {:induction false} FoldGood(st: Stack, cs: seq<Name>)
    requires GoodStack(st) && |Render(st)| <= MAX_PATH && Plain(cs) && Fold(st, cs).Ok?
    ensures GoodStack(Fold(st, cs).value) && |Render(Fold(st, cs).value)| <= MAX_PATH
    decreases |cs|
  {
    hide Push, Render, GoodStack;
    if cs != [] {
      PushGood(st, cs[0]);
      FoldGood(Push(st, cs[0]).value, cs[1..]);
    }
  }

  /** Folding a good stack over nothing rebuilds it. */
  lemma {:induction false} FoldRebuild(a: Stack, b: Stack)
    requires GoodStack(a + b) && |Join(a + b)| <= MAX_PATH
    ensures Fold(a, b) == Ok(a + b)
    decreases |b|
  {
    if b == [] {
      assert a + b == a;
    } else {
      assert a + b == (a + [b[0]]) + b[1..];
      assert b[0] == (a + b)[|a|];
      JoinAppend(a + [b[0]], b[1..]);
      FoldRebuild(a + [b[0]], b[1..]);
    }
  }

  // ---- main results about the specification ----

  /** Normalised paths are canonical. */
  lemma NormalizedCanonical(s: Bytes)
    requires Normalized(s).Ok?
    ensures Canonical(Normalized(s).value)
  {
    ComponentsPlain(s, 0);
    FoldGood([], Components(s, 0));
  }

  /** Canonical paths are exactly the fixed points of normalisation. */
  lemma CanonicalFixed(p: Bytes)
    ensures Canonical(p) <==> Normalized(p) == Ok(p)
  {
    if Canonical(p) {
      var st :| GoodStack(st) && p == Render(st) && |p| <= MAX_PATH;
      ComponentsOfRender(st);
      assert [] + st == st;
      FoldRebuild([], st);
    } else if Normalized(p).Ok? {
      NormalizedCanonical(p);
    }
  }

  /** Splitting p/q is splitting p, then q. */
  lemma {:induction false} ComponentsConcat(p: Bytes, q: Bytes, i: nat)
    requires i <= |p| && (q == [] || q[0] == SLASH)
    ensures Components(p + q, i) == Components(p, i) + Components(q, 0)
    decreases |p| - i
  {
    hide NextSlash, SkipSlashes, Components;
    var s := p + q;
    SkipConcat(p, q, i);
    ComponentsStep(p, i);
    ComponentsStep(s, i);
    var a := SkipSlashes(p, i);
    if a == |p| {
      ComponentsShift(p, q, 0);
      SkipThenComponents(s, i, |p|);
      assert [] + Components(q, 0) == Components(q, 0);
    } else {
      NextConcat(p, q, a);
      var b := NextSlash(p, a);
      assert s[a..b] == p[a..b];
      ComponentsConcat(p, q, b);
      assert [p[a..b]] + (Components(p, b) + Components(q, 0)) == [p[a..b]] + Components(p, b) + Components(q, 0);
    }
  }

  /** Unfolding Components once. */
  lemma ComponentsStep(s: Bytes, i: nat)
    requires i <= |s|
    ensures var a := SkipSlashes(s, i);
            Components(s, i) == if a == |s| then [] else [s[a..NextSlash(s, a)]] + Components(s, NextSlash(s, a))
  {
  }

  lemma {:induction false} SkipConcat(p: Bytes, q: Bytes, i: nat)
    requires i <= |p|
    ensures SkipSlashes(p, i) < |p| ==> SkipSlashes(p + q, i) == SkipSlashes(p, i)
    ensures SkipSlashes(p, i) == |p| ==> SkipSlashes(p + q, i) == SkipSlashes(p + q, |p|)
    decreases |p| - i
  {
    if i < |p| && p[i] == SLASH {
      SkipConcat(p, q, i + 1);
    }
  }

  lemma {:induction false} NextConcat(p: Bytes, q: Bytes, i: nat)
    requires i <= |p| && (q == [] || q[0] == SLASH)
    ensures NextSlash(p + q, i) == NextSlash(p, i)
    decreases |p| - i
  {
    if i < |p| && p[i] != SLASH {
      NextConcat(p, q, i + 1);
    }
  }

  lemma SkipThenComponents(s: Bytes, i: nat, j: nat)
    requires i <= j <= |s| && SkipSlashes(s, i) == SkipSlashes(s, j)
    ensures Components(s, i) == Components(s, j)
  {
  }

  lemma {:induction false} ComponentsShift(p: Bytes, q: Bytes, i: nat)
    requires i <= |q|
    ensures Components(p + q, |p| + i) == Components(q, i)
    decreases |q| - i
  {
    hide NextSlash, SkipSlashes;
    SkipShift(p, q, i);
    var a := SkipSlashes(q, i);
    if a < |q| {
      NextShift(p, q, a);
      var b := NextSlash(q, a);
      assert (p + q)[|p| + a..|p| + b] == q[a..b];
      ComponentsShift(p, q, b);
    }
  }

  lemma {:induction false} SkipShift(p: Bytes, q: Bytes, i: nat)
    requires i <= |q|
    ensures SkipSlashes(p + q, |p| + i) == |p| + SkipSlashes(q, i)
    decreases |q| - i
  {
    if i < |q| && q[i] == SLASH {
      SkipShift(p, q, i + 1);
    }
  }

  lemma {:induction false} NextShift(p: Bytes, q: Bytes, i: nat)
    requires i <= |q|
    ensures NextSlash(p + q, |p| + i) == |p| + NextSlash(q, i)
    decreases |q| - i
  {
    if i < |q| && q[i] != SLASH {
      NextShift(p, q, i + 1);
    }
  }

  /** Normalising p followed by /q continues from the stack of p. */
  lemma NormalizedCompose(p: Bytes, q: Bytes)
    requires q == [] || q[0] == SLASH
    ensures Fold([], Components(p + q, 0))
            == match Fold([], Components(p, 0)) case Ok(st) => Fold(st, Components(q, 0)) case Err(e) => Err(e)
  {
    ComponentsConcat(p, q, 0);
    FoldAppend([], Components(p, 0), Components(q, 0));
  }

  // ---- the validator as coded ----

  /** validate_path accepts exactly the canonical paths. */
  method ValidatePath(path: Bytes) returns (ok: bool)
    ensures ok <==> Canonical(path)
  {
    hide Join, Fold;
    if path == [] || path[0] != SLASH {
      NotCanonical(path);
      return false;
    }
    if |path| > MAX_PATH {
      return false;
    }
    if |path| == 1 {
      assert path == Render([]);
      return true;
    }
    if path[|path| - 1] == SLASH {
      NotCanonical(path);
      return false;
    }
    ok := ValidateComponents(path);
  }

  lemma NotCanonical(path: Bytes)
    requires path == [] || path[0] != SLASH || (|path| > 1 && path[|path| - 1] == SLASH)
    ensures !Canonical(path)
  {
    forall st | GoodStack(st) ensures path != Render(st) {
      JoinLong(st);
    }
  }

  /** A canonical path read up to the k-th slash agrees with its components up to there. */
  lemma NextComponent(path: Bytes, full: Stack, k: nat, start: nat, index: nat)
    requires GoodStack(full) && full != [] && path == Join(full) && k < |full| && start == |Join(full[..k])| + 1
    requires start <= index <= |path| && (index == |path| || path[index] == SLASH)
    requires forall j :: start <= j < index ==> path[j] != SLASH
    ensures path[start..index] == full[k]
    ensures index == |Join(full[..k + 1])| && (index < |path| <==> k + 1 < |full|)
  {
    hide Join;
    var a, c, b := full[..k], full[k], full[k + 1..];
    assert full == a + [c] + b && full[..k + 1] == a + [c];
    JoinAppend(a + [c], b);
    JoinPush(a, c);
    JoinLong(b);
    var e := start + |c|;
    assert path == Join(a) + [SLASH] + c + Join(b);
    assert path[start..e] == c;
    assert forall j :: start <= j < e ==> path[j] == c[j - start];
    assert b != [] ==> path[e] == Join(b)[0];
    JoinNothing();
    assert b == [] ==> Join(b) == [];
    assert index == e;
  }

  lemma PrefixStep(path: Bytes, start: nat, index: nat)
    requires 1 <= start <= index <= |path| && path[start - 1] == SLASH
    ensures path[..index] == path[..start - 1] + [SLASH] + path[start..index]
  {
  }

  method ValidateComponents(path: Bytes) returns (ok: bool)
    requires 1 < |path| <= MAX_PATH && path[0] == SLASH && path[|path| - 1] != SLASH
    ensures ok <==> Canonical(path)
  {
    hide Join, Fold, Components;
    var start, index := 1, 1;
    ghost var done: Stack, full: Stack := [], Components(path, 0);
    ghost var canon := GoodStack(full) && path == Render(full) && full != [];
    CanonicalComponents(path);
    JoinNothing();
    assert full[..0] == [];
    while index <= |path|
      invariant 1 <= start <= index <= |path| + 1
      invariant index == |path| + 1 ==> start == |path| + 1
      invariant start <= |path| ==> path[start - 1] == SLASH
      invariant forall j :: start <= j < index && j < |path| ==> path[j] != SLASH
      invariant GoodStack(done) && Join(done) == path[..start - 1]
      invariant canon ==> |done| <= |full| && done == full[..|done|] && (start <= |path| ==> |done| < |full|)
    {
      if index == |path| || path[index] == SLASH {
        var c := path[start..index];
        if canon {
          NextComponent(path, full, |done|, start, index);
        }
        if |c| == 0 || |c| > MAX_NAME || c == [DOT] || c == [DOT, DOT] {
          return false;
        }
        JoinPush(done, c);
        PrefixStep(path, start, index);
        if canon {
          assert full[..|done| + 1] == done + [c];
        }
        done := done + [c];
        start := index + 1;
      }
      index := index + 1;
    }
    assert path[..start - 1] == path;
    assert path == Render(done);
    return true;
  }

  lemma CanonicalComponents(path: Bytes)
    requires |path| > 1
    ensures var full := Components(path, 0);
            Canonical(path) ==> GoodStack(full) && path == Render(full) && full != []
  {
    if Canonical(path) {
      var st :| GoodStack(st) && path == Render(st) && |path| <= MAX_PATH;
      ComponentsOfRender(st);
    }
  }

  // ---- the namespace normaliser as coded ----

  /** The output buffer holds the rendered stack, NUL-terminated. */
  ghost predicate Holds(output: array<byte>, used: nat, st: Stack)
    reads output
  {
    && used < output.Length && output[..used] == Render(st) && output[used] == 0
  }

  /** The recorded starts are the lengths of the rendered prefixes. */
  ghost predicate Starts(starts: array<nat>, st: Stack)
    reads starts
  {
    |st| <= starts.Length && forall k :: 0 <= k < |st| ==> starts[k] == |Render(st[..k])|
  }

  lemma RenderPrefix(st: Stack)
    requires GoodStack(st) && st != []
    ensures var init := st[..|st| - 1];
            |Render(init)| < |Render(st)| && Render(st)[..|Render(init)|] == Render(init)
    ensures var init := st[..|st| - 1]; var last := st[|st| - 1];
            Render(st) == (if init == [] then [] else Render(init)) + [SLASH] + last
  {
    var init, last := st[..|st| - 1], st[|st| - 1];
    assert init + [last] == st;
    PushLength(init, last);
    assert GoodName(last);
    if init == [] {
      assert [] + [SLASH] + last == [SLASH] + last;
    }
  }

  /** Write one component at the end of the buffer. */
  method Append(output: array<byte>, used: nat, ghost st: Stack, c: Name) returns (used': nat)
    requires Holds(output, used, st) && GoodStack(st) && GoodName(c)
    requires output.Length == MAX_PATH + 1 && |Join(st + [c])| <= MAX_PATH
    modifies output
    ensures Holds(output, used', st + [c])
  {
    hide Render, Join;
    PushLength(st, c);
    used' := used;
    ghost var was := output[..used];
    if used > 1 {
      output[used'] := SLASH;
      used' := used' + 1;
    }
    ghost var mid := output[..used'];
    forall k | 0 <= k < |c| {
      output[used' + k] := c[k];
    }
    assert output[..used' + |c|] == mid + c;
    used' := used' + |c|;
    output[used'] := 0;
    assert output[..used'] == mid + c;
  }

  /** Cut the buffer back to the stack without its last component. */
  method CutBack(output: array<byte>, used: nat, ghost st: Stack)
    requires GoodStack(st) && st != [] && used == |Render(st[..|st| - 1])|
    requires |Render(st)| < output.Length && output[..|Render(st)|] == Render(st)
    modifies output
    ensures Holds(output, used, st[..|st| - 1]) && GoodStack(st[..|st| - 1]) && used < |Render(st)|
  {
    hide Render;
    RenderPrefix(st);
    assert output[..used] == output[..|Render(st)|][..used];
    output[used] := 0;
  }

  /** The length arithmetic of both normalisers. */
  lemma PushLength(st: Stack, c: Name)
    requires GoodStack(st)
    ensures |Render(st)| >= 1 && (|Render(st)| > 1 <==> st != [])
    ensures |Join(st + [c])| == |Render(st)| + (if |Render(st)| > 1 then 1 else 0) + |c|
    ensures Render(st + [c]) == Render(st) + (if |Render(st)| > 1 then [SLASH] else []) + c
  {
    JoinPush(st, c);
    JoinLong(st);
    if st == [] {
      assert [] + [SLASH] + c == [SLASH] + c;
    }
  }

  lemma StackFits(st: Stack)
    requires GoodStack(st) && |Render(st)| <= MAX_PATH
    ensures |st| < MAX_PATH
  {
    JoinLong(st);
  }

  /** One component of the input, applied to the buffer and the array of starts. */
  method ApplyComponent(output: array<byte>, starts: array<nat>, depth: nat, used: nat, c: Name, ghost st: Stack)
    returns (r: Result<(nat, nat)>, ghost st': Stack)
    requires output.Length == MAX_PATH + 1 && starts.Length == MAX_PATH + 1
    requires depth == |st| && GoodStack(st) && Holds(output, used, st) && Starts(starts, st) && |Render(st)| <= MAX_PATH
    requires 0 < |c| && NoSlash(c)
    modifies output, starts
    ensures r.Ok? <==> Push(st, c).Ok?
    ensures r.Err? ==> Push(st, c) == Err(r.error)
    ensures r.Ok? ==> Push(st, c) == Ok(st') && r.value.0 == |st'| && GoodStack(st') && |Render(st')| <= MAX_PATH
                      && Holds(output, r.value.1, st') && Starts(starts, st')
  {
    hide Join, Render;
    st' := st;
    if c == [DOT] {
      return Ok((depth, used)), st;
    }
    if c == [DOT, DOT] {
      if depth > 0 {
        var back := starts[depth - 1];
        CutBack(output, back, st);
        st' := st[..depth - 1];
        RenderPrefix(st);
        assert forall k :: 0 <= k < depth - 1 ==> st'[..k] == st[..k];
        return Ok((depth - 1, back)), st';
      }
      return Ok((depth, used)), st;
    }
    PushLength(st, c);
    if |c| > MAX_NAME {
      return Err(ENAMETOOLONG), st;
    }
    if used + (if used > 1 then 1 else 0) + |c| > MAX_PATH {
      return Err(ENAMETOOLONG), st;
    }
    StackFits(st);
    starts[depth] := used;
    st' := st + [c];
    assert forall k :: 0 <= k < |st| ==> st'[..k] == st[..k];
    assert st'[..|st|] == st;
    var used' := Append(output, used, st, c);
    return Ok((depth + 1, used')), st';
  }

  /** normalize_absolute_path. The output holds the normal form; on failure a component or the
      result was too long. Neither the output nor the array of starts can overflow. */
  method NormalizeAbsolutePath(input: Bytes, output: array<byte>) returns (r: Result<nat>)
    requires output.Length == MAX_PATH + 1
    modifies output
    ensures input == [] || input[0] != SLASH ==> r == Err(EINVAL)
    ensures input != [] && input[0] == SLASH ==>
              (r.Ok? ==> r.value < output.Length && output[r.value] == 0 && Normalized(input) == Ok(output[..r.value]))
              && (r.Err? ==> Normalized(input) == Err(r.error))
  {
    hide Join, Render, Fold, Components, NextSlash, SkipSlashes, Push;
    if input == [] || input[0] != SLASH {
      return Err(EINVAL);
    }
    var starts := new nat[MAX_PATH + 1](_ => 0);
    var depth: nat, pos: nat, used: nat := 0, 0, 1;
    output[0], output[1] := SLASH, 0;
    ghost var st: Stack := [];
    RenderNothing();
    assert output[..1] == [SLASH];
    while pos < |input|
      invariant pos <= |input| && fresh(starts) && starts.Length == MAX_PATH + 1
      invariant depth == |st| && GoodStack(st) && Holds(output, used, st) && Starts(starts, st)
      invariant |Render(st)| <= MAX_PATH
      invariant Fold([], Components(input, 0)) == Fold(st, Components(input, pos))
    {
      ComponentsStep(input, pos);
      var start := ScanSkip(input, pos);
      pos := start;
      NoComponents(input);
      if start == |input| {
        break;
      }
      pos := ScanNext(input, start);
      var c := input[start..pos];
      FoldOne(st, c, Components(input, pos));
      var step;
      step, st := ApplyComponent(output, starts, depth, used, c, st);
      if step.Err? {
        return Err(step.error);
      }
      depth, used := step.value.0, step.value.1;
    }
    NoComponents(input);
    FoldNothing(st);
    return Ok(used);
  }

  lemma RenderNothing()
    ensures Render([]) == [SLASH]
  {
  }

  lemma FoldNothing(st: Stack)
    ensures Fold(st, []) == Ok(st)
  {
  }

  lemma FoldOne(st: Stack, c: Name, rest: seq<Name>)
    ensures Fold(st, [c] + rest) == if Push(st, c).Ok? then Fold(Push(st, c).value, rest) else Push(st, c)
  {
    assert ([c] + rest)[1..] == rest;
  }

  method ScanSkip(s: Bytes, i: nat) returns (j: nat)
    requires i <= |s|
    ensures j == SkipSlashes(s, i)
  {
    j := i;
    while j < |s| && s[j] == SLASH
      invariant i <= j <= |s| && SkipSlashes(s, j) == SkipSlashes(s, i)
    {
      j := j + 1;
    }
  }

  method ScanNext(s: Bytes, i: nat) returns (j: nat)
    requires i <= |s|
    ensures j == NextSlash(s, i)
  {
    j := i;
    while j < |s| && s[j] != SLASH
      invariant i <= j <= |s| && NextSlash(s, j) == NextSlash(s, i)
    {
      j := j + 1;
    }
  }
}
