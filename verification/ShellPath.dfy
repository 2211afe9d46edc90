/** The shell's own path normaliser (apps/userfs_shell.c): it keeps no stack of starts and finds
    the parent by scanning the output backwards, yet computes the same function. */
module ShellPath {
  import opened Layout
  import opened Paths

  /** What the shell must produce: the normal form of the input read from the current directory. */
  function ShellNormalized(cwd: Bytes, input: Bytes): Result<Bytes> {
    if input == [] then Err(EINVAL)
    else if input[0] == SLASH then Normalized(input)
    else Normalized(cwd + [SLASH] + input)
  }

  /** A leading slash changes nothing. */
  lemma LeadingSlash(q: Bytes)
    ensures Components([SLASH] + q, 0) == Components(q, 0)
  {
    hide NextSlash, Components;
    ComponentsShift([SLASH], q, 0);
    SkipThenComponents([SLASH] + q, 0, 1);
  }

  /** Reading the input from a canonical current directory starts from that directory's stack. */
  lemma FromDirectory(cwd: Bytes, st: Stack, input: Bytes)
    requires GoodStack(st) && cwd == Render(st) && |cwd| <= MAX_PATH
    ensures Fold([], Components(cwd + [SLASH] + input, 0)) == Fold(st, Components(input, 0))
  {
    hide Components, Join, Fold, NextSlash, SkipSlashes;
    var q := [SLASH] + input;
    assert cwd + [SLASH] + input == cwd + q;
    NormalizedCompose(cwd, q);
    ComponentsOfRender(st);
    LeadingSlash(input);
    FoldWhole(st);
  }

  lemma FoldWhole(st: Stack)
    requires GoodStack(st) && |Render(st)| <= MAX_PATH
    ensures Fold([], st) == Ok(st)
  {
    hide Fold, Join;
    JoinNothing();
    assert [] + st == st;
    FoldRebuild([], st);
  }

  /** Scanning back from the end of a rendered path stops after the last slash. */
  method ScanBack(output: array<byte>, used: nat, ghost st: Stack) returns (used': nat)
    requires GoodStack(st) && st != [] && used == |Render(st)| < output.Length && output[..used] == Render(st)
    ensures used' == |Render(st[..|st| - 1])|
  {
    hide Join, Render;
    RenderPrefix(st);
    PushLength(st[..|st| - 1], st[|st| - 1]);
    ghost var last := st[|st| - 1];
    ghost var n := used - |last|;
    assert GoodName(last);
    assert forall k :: n <= k < used ==> Render(st)[k] == last[k - n];
    assert Render(st)[n - 1] == SLASH;
    used' := used;
    while used' > 1 && output[used' - 1] != SLASH
      invariant n <= used' <= used && used' >= 1
    {
      assert output[used' - 1] == output[..used][used' - 1];
      used' := used' - 1;
    }
    assert output[..used][used' - 1] == output[used' - 1];
    if used' > 1 {
      used' := used' - 1;
    }
  }

  /** One component of the input, applied to the output buffer alone. */
  method ShellComponent(output: array<byte>, used: nat, c: Name, ghost st: Stack)
    returns (r: Result<nat>, ghost st': Stack)
    requires output.Length == MAX_PATH + 1
    requires GoodStack(st) && Holds(output, used, st) && |Render(st)| <= MAX_PATH
    requires 0 < |c| && NoSlash(c)
    modifies output
    ensures r.Ok? <==> Push(st, c).Ok?
    ensures r.Err? ==> Push(st, c) == Err(r.error)
    ensures r.Ok? ==> Push(st, c) == Ok(st') && GoodStack(st') && |Render(st')| <= MAX_PATH
                      && Holds(output, r.value, st')
  {
    hide Join, Render;
    st' := st;
    if c == [DOT] {
      return Ok(used), st;
    }
    PushLength(st, c);
    if c == [DOT, DOT] {
      if used > 1 {
        var back := ScanBack(output, used, st);
        RenderPrefix(st);
        CutBack(output, back, st);
        return Ok(back), st[..|st| - 1];
      }
      return Ok(used), st;
    }
    if |c| > MAX_NAME {
      return Err(ENAMETOOLONG), st;
    }
    if used + (if used > 1 then 1 else 0) + |c| > MAX_PATH {
      return Err(ENAMETOOLONG), st;
    }
    var used' := Append(output, used, st, c);
    return Ok(used'), st + [c];
  }

  /** normalize_shell_path, started from the current directory. */
  method NormalizeShellPath(input: Bytes, cwd: Bytes, output: array<byte>) returns (r: Result<nat>)
    requires Canonical(cwd) && output.Length == MAX_PATH + 1
    modifies output
    ensures r.Ok? ==> r.value < output.Length && output[r.value] == 0
                      && ShellNormalized(cwd, input) == Ok(output[..r.value])
    ensures r.Err? ==> ShellNormalized(cwd, input) == Err(r.error)
  {
    hide Join, Render, Fold, Components, NextSlash, SkipSlashes, Push;
    if input == [] {
      return Err(EINVAL);
    }
    var used: nat;
    ghost var st: Stack;
    ghost var whole := if input[0] == SLASH then input else cwd + [SLASH] + input;
    if input[0] == SLASH {
      output[0], output[1] := SLASH, 0;
      used, st := 1, [];
      RenderNothing();
      assert output[..1] == [SLASH];
    } else {
      st :| GoodStack(st) && cwd == Render(st) && |cwd| <= MAX_PATH;
      forall k | 0 <= k < |cwd| {
        output[k] := cwd[k];
      }
      used := |cwd|;
      output[used] := 0;
      assert output[..used] == cwd;
      FromDirectory(cwd, st, input);
    }
    var pos: nat := 0;
    while pos < |input|
      invariant pos <= |input|
      invariant GoodStack(st) && Holds(output, used, st) && |Render(st)| <= MAX_PATH
      invariant Fold([], Components(whole, 0)) == Fold(st, Components(input, pos))
    {
      ComponentsStep(input, pos);
      var start := ScanSkip(input, pos);
      pos := start;
      NoComponents(input);
      if start == |input| {
        break;
      }
      pos := ScanNext(input, start);
      var c := input[start..pos];
      FoldOne(st, c, Components(input, pos));
      var step;
      step, st := ShellComponent(output, used, c, st);
      if step.Err? {
        return Err(step.error);
      }
      used := step.value;
    }
    NoComponents(input);
    FoldNothing(st);
    return Ok(used);
  }

  /** The current directory stays canonical: whatever the shell accepts may become the next one. */
  lemma ShellCanonical(cwd: Bytes, input: Bytes)
    requires ShellNormalized(cwd, input).Ok?
    ensures Canonical(ShellNormalized(cwd, input).value)
  {
    hide Normalized, Canonical;
    NormalizedCanonical(if input[0] == SLASH then input else cwd + [SLASH] + input);
  }
}
