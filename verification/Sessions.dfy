/** Everything a process does to the disk between mounting and a crash: journal transactions with
    direct block writes and syncs in between (src/journal.c, and its callers). */
module Sessions {
  import opened Layout
  import opened Disk
  import opened Journal
  import opened CrashSafety

  /** One step: a committed transaction, a transaction given up before its commit, a direct write, a sync. */
  datatype Action = Commit(seqNo: u32, puts: seq<Put>) | Abandon | Direct(put: Put) | Flush

  ghost predicate ValidAction(a: Action) {
    (a.Commit? ==> ValidStaging(a.puts)) && (a.Direct? ==> !InJournal(a.put.b))
  }

  ghost predicate ValidActions(acts: seq<Action>) { forall i :: 0 <= i < |acts| ==> ValidAction(acts[i]) }

  /** What the step does to the disk. */
  ghost function ActionOps(a: Action): seq<Op>
    requires ValidAction(a)
  {
    match a
    case Commit(seqNo, puts) => CommitOps(seqNo, puts)
    case Abandon => []
    case Direct(put) => [Write(put)]
    case Flush => [Sync]
  }

  ghost function SessionOps(acts: seq<Action>): seq<Op>
    requires ValidActions(acts)
  {
    if acts == [] then [] else SessionOps(acts[..|acts| - 1]) + ActionOps(acts[|acts| - 1])
  }

  // ---- sequence numbers ----

  /** The next sequence number of a process that has done these steps. */
  function NextSeq(acts: seq<Action>): u32 {
    if acts == [] then 1
    else
      var n, last := NextSeq(acts[..|acts| - 1]), acts[|acts| - 1];
      if last.Commit? || last.Abandon? then AddU32(n, 1) else n
  }

  /** Each transaction carries the number it was begun with, counted from 1. */
  ghost predicate Numbered(acts: seq<Action>) {
    forall i :: 0 <= i < |acts| && acts[i].Commit? ==> acts[i].seqNo == NextSeq(acts[..i])
  }

  /** How many transactions these steps begin. */
  function Begun(acts: seq<Action>): (n: nat)
    ensures n <= |acts|
  {
    if acts == [] then 0
    else Begun(acts[..|acts| - 1]) + if acts[|acts| - 1].Commit? || acts[|acts| - 1].Abandon? then 1 else 0
  }

  lemma {:induction false} SeqCounts(acts: seq<Action>)
    ensures NextSeq(acts) == (1 + Begun(acts)) % 0x1_0000_0000
  {
    if acts != [] {
      SeqCounts(acts[..|acts| - 1]);
    }
  }

  lemma {:induction false} BegunMore(acts: seq<Action>, i: nat, j: nat)
    requires i <= j <= |acts|
    ensures Begun(acts[..i]) <= Begun(acts[..j]) <= Begun(acts[..i]) + j - i
    ensures i < j && acts[i].Commit? ==> Begun(acts[..i]) < Begun(acts[..j])
    decreases j - i
  {
    if i < j {
      BegunMore(acts, i, j - 1);
      assert acts[..j][..j - 1] == acts[..j - 1] && acts[..j][j - 1] == acts[j - 1];
    }
  }

  /** No two transactions of a session carry the same number unless 2^32 steps lie between them. */
  lemma NumbersDiffer(acts: seq<Action>, i: nat, j: nat)
    requires Numbered(acts) && i < j < |acts| && acts[i].Commit? && acts[j].Commit? && j - i < 0x1_0000_0000
    ensures acts[i].seqNo != acts[j].seqNo
  {
    SeqCounts(acts[..i]);
    SeqCounts(acts[..j]);
    BegunMore(acts, i, j);
  }

  // ---- the abstract run ----

  /** The step with the transaction as one atomic, durable change. */
  function Act(st: DiskState, a: Action): DiskState {
    match a
    case Commit(seqNo, puts) => DiskState(Overlay(View(st), puts), [])
    case Abandon => st
    case Direct(put) => st.(pending := st.pending + [put])
    case Flush => DiskState(View(st), [])
  }

  function ActAll(st: DiskState, acts: seq<Action>): DiskState {
    if acts == [] then st else Act(ActAll(st, acts[..|acts| - 1]), acts[|acts| - 1])
  }

  /** The first transaction, if there is one, does not meet a commit record with its number. */
  ghost predicate NotStale(st: DiskState, acts: seq<Action>) {
    forall i :: 0 <= i < |acts| && acts[i].Commit? && (forall j :: 0 <= j < i ==> !acts[j].Commit?) ==>
      !Stale(st, acts[i].seqNo)
  }

  /** How many steps are over after k disk operations. */
  ghost function Completed(acts: seq<Action>, k: nat): (n: nat)
    requires ValidActions(acts)
    ensures n <= |acts|
  {
    if acts == [] || k >= |SessionOps(acts)| then |acts| else Completed(acts[..|acts| - 1], k)
  }

  /** The commit record of the transaction in progress, if there is one, is durable. */
  ghost predicate PastCommitPoint(acts: seq<Action>, k: nat)
    requires ValidActions(acts)
  {
    var n := Completed(acts, k);
    n < |acts| && acts[n].Commit? && k >= |SessionOps(acts[..n])| + CommitPoint(acts[n].puts)
  }

  // ---- the concrete run follows the abstract one ----

  ghost predicate Alike(a: DiskState, b: DiskState) { SameOutside(a.durable, b.durable) && a.pending == b.pending }

  lemma AlikeView(a: DiskState, b: DiskState)
    requires Alike(a, b)
    ensures SameOutside(View(a), View(b))
  {
    hide Overlay;
    OverlayOutside(a.durable, b.durable, a.pending);
  }

  lemma AlikeCrash(a: DiskState, b: DiskState, img: Image)
    requires Alike(a, b) && CrashOutside(a, img)
    ensures CrashOutside(b, img)
  {
  }

  lemma DurableCrash(a: Image, img: Image)
    requires SameOutside(img, a)
    ensures CrashOutside(DiskState(a, []), img)
  {
  }

  /** No transaction so far, and the commit block as it was; or no commit record at all. */
  ghost predicate RecordKept(st: DiskState, now: DiskState, acts: seq<Action>) {
    if exists i :: 0 <= i < |acts| && acts[i].Commit? then forall s :: !Commits(now.durable[JOURNAL_COMMIT], s)
    else now.durable[JOURNAL_COMMIT] == st.durable[JOURNAL_COMMIT]
  }

  /** Between steps the journal is clean, and outside it the disk is what the abstract run says. */
  lemma {:induction false} SessionState(st: DiskState, acts: seq<Action>)
    requires ValidActions(acts) && QuietJournal(st) && CleanHeader(st.durable)
    ensures var now := Run(st, SessionOps(acts));
            && QuietJournal(now) && CleanHeader(now.durable) && Alike(now, ActAll(st, acts))
            && RecordKept(st, now, acts)
  {
    hide Run, CommitOps, HeaderOf, Commits, Overlay, View;
    if acts == [] {
      RunNothing(st);
    } else {
      var init, a := acts[..|acts| - 1], acts[|acts| - 1];
      assert forall i :: 0 <= i < |init| ==> init[i] == acts[i];
      SessionState(st, init);
      var mid := Run(st, SessionOps(init));
      RunAppend(st, SessionOps(init), ActionOps(a));
      ActionState(mid, ActAll(st, init), a);
      RecordStep(st, mid, init, a);
    }
  }

  lemma ActionState(mid: DiskState, abs: DiskState, a: Action)
    requires ValidAction(a) && QuietJournal(mid) && CleanHeader(mid.durable) && Alike(mid, abs)
    ensures var now := Run(mid, ActionOps(a));
            && QuietJournal(now) && CleanHeader(now.durable) && Alike(now, Act(abs, a))
            && (if a.Commit? then forall s :: !Commits(now.durable[JOURNAL_COMMIT], s)
                else now.durable[JOURNAL_COMMIT] == mid.durable[JOURNAL_COMMIT])
  {
    hide CommitOps, HeaderOf, Commits, Overlay, Run;
    AlikeView(mid, abs);
    match a
    case Abandon => {
      RunNothing(mid);
    }
    case Commit(seqNo, puts) => {
      CommitDone(mid, seqNo, puts);
      OverlayOutside(View(mid), View(abs), puts);
    }
    case Direct(put) => {
      RunSingle(mid, Write(put));
    }
    case Flush => {
      RunSingle(mid, Sync);
      assert JOURNAL_START !in Targets(mid.pending) && JOURNAL_COMMIT !in Targets(mid.pending);
      OverlayMiss(mid.durable, mid.pending, JOURNAL_START);
      OverlayMiss(mid.durable, mid.pending, JOURNAL_COMMIT);
    }
  }

  lemma RunSingle(st: DiskState, op: Op)
    ensures Run(st, [op]) == Step(st, op)
  {
    assert [op][..0] == [];
    RunNothing(st);
  }

  lemma RecordStep(st: DiskState, mid: DiskState, init: seq<Action>, a: Action)
    requires ValidAction(a) && RecordKept(st, mid, init)
    requires var now := Run(mid, ActionOps(a));
             if a.Commit? then forall s :: !Commits(now.durable[JOURNAL_COMMIT], s)
             else now.durable[JOURNAL_COMMIT] == mid.durable[JOURNAL_COMMIT]
    ensures RecordKept(st, Run(mid, ActionOps(a)), init + [a])
  {
    hide Run, Commits, CommitOps;
    var acts := init + [a];
    if exists i :: 0 <= i < |init| && init[i].Commit? {
      var i :| 0 <= i < |init| && init[i].Commit?;
      assert acts[i].Commit?;
    } else if a.Commit? {
      assert acts[|init|].Commit?;
    } else {
      assert forall i :: 0 <= i < |acts| ==> !acts[i].Commit?;
    }
  }

  /** So a transaction after these steps does not meet a matching commit record. */
  lemma StillNotStale(st: DiskState, init: seq<Action>, a: Action)
    requires ValidActions(init) && NotStale(st, init + [a]) && a.Commit?
    requires RecordKept(st, Run(st, SessionOps(init)), init)
    ensures !Stale(Run(st, SessionOps(init)), a.seqNo)
  {
    hide Run, Commits;
    var acts := init + [a];
    if forall i :: 0 <= i < |init| ==> !init[i].Commit? {
      assert acts[|init|] == a;
      assert forall j :: 0 <= j < |init| ==> !acts[j].Commit?;
    }
  }

  // ---- the main result ----

  /** Over a whole session, with direct writes and syncs between its transactions, every crash at
      every step recovers to what a crash of the abstract run could have left after a prefix of the
      steps: all completed ones, and at most the one in progress, which is in the prefix if it is a
      transaction past its commit point. Only the first transaction can meet a commit record of an
      earlier process. */
  lemma {:induction false} SessionCrash(st: DiskState, acts: seq<Action>, k: nat, img: Image) returns (j: nat)
    requires ValidActions(acts) && QuietJournal(st) && CleanHeader(st.durable) && NotStale(st, acts)
    requires k <= |SessionOps(acts)| && CrashImage(Run(st, SessionOps(acts)[..k]), img)
    ensures Completed(acts, k) <= j <= Completed(acts, k) + 1 && j <= |acts|
    ensures PastCommitPoint(acts, k) ==> j == Completed(acts, k) + 1
    ensures CrashOutside(ActAll(st, acts[..j]), Recovered(img))
  {
    hide Run, CommitOps, HeaderOf, Recovered, CrashImage, CrashOutside, Act, ActAll, ActionOps, SessionOps, Completed,
      PastCommitPoint, NotStale, QuietJournal, CleanHeader, ValidAction;
    if acts == [] {
      EmptySession(st, k, img);
      j := 0;
      assert acts[..0] == acts;
    } else {
      var init, a := acts[..|acts| - 1], acts[|acts| - 1];
      assert acts == init + [a];
      SessionSplit(init, a);
      NotStaleInit(st, init, a);
      var before := SessionOps(init);
      if k <= |before| {
        assert SessionOps(acts)[..k] == before[..k];
        j := SessionCrash(st, init, k, img);
        assert acts[..j] == init[..j];
        if ActionOps(a) == [] && k == |before| {
          CompletedAll(init, k);
          CompletedAll(acts, k);
          AbandonedLast(st, init, a);
          assert acts[..|acts|] == acts && init[..|init|] == init;
          j := |acts|;
        } else {
          CompletedInit(init, a, k);
        }
      } else {
        assert SessionOps(acts)[..k] == before + ActionOps(a)[..k - |before|];
        j := LastCrash(st, init, a, k - |before|, img);
        CompletedLast(init, a, k);
      }
    }
  }

  lemma EmptySession(st: DiskState, k: nat, img: Image)
    requires QuietJournal(st) && CleanHeader(st.durable)
    requires k <= |SessionOps([])| && CrashImage(Run(st, SessionOps([])[..k]), img)
    ensures Completed([], k) == 0 && !PastCommitPoint([], k) && CrashOutside(ActAll(st, []), Recovered(img))
  {
    hide HeaderOf, Recovered, Run, CrashImage, CrashOutside;
    assert SessionOps([])[..k] == [];
    RunNothing(st);
    IdleCrash(st, st, img);
  }

  lemma SessionSplit(init: seq<Action>, a: Action)
    requires ValidActions(init + [a])
    ensures ValidActions(init) && ValidAction(a) && SessionOps(init + [a]) == SessionOps(init) + ActionOps(a)
  {
    hide ValidAction, ActionOps;
    var acts := init + [a];
    assert acts[..|init|] == init && acts[|init|] == a;
    forall i | 0 <= i < |init| ensures ValidAction(init[i]) {
      assert acts[i] == init[i];
    }
  }

  lemma NotStaleInit(st: DiskState, init: seq<Action>, a: Action)
    requires NotStale(st, init + [a])
    ensures NotStale(st, init)
  {
    hide Stale;
    var acts := init + [a];
    forall i | 0 <= i < |init| && init[i].Commit? && (forall j :: 0 <= j < i ==> !init[j].Commit?)
      ensures !Stale(st, init[i].seqNo)
    {
      assert acts[i] == init[i];
      assert forall j :: 0 <= j < i ==> acts[j] == init[j];
    }
  }

  /** A step without disk operations changes nothing in the abstract run. */
  lemma AbandonedLast(st: DiskState, init: seq<Action>, a: Action)
    requires ValidAction(a) && ActionOps(a) == []
    ensures ActAll(st, init + [a]) == ActAll(st, init)
  {
    hide CommitOps, Overlay, View;
    assert (init + [a])[..|init|] == init;
    if a.Commit? {
      Lengths(a.seqNo, a.puts);
    }
  }

  lemma CompletedAll(acts: seq<Action>, k: nat)
    requires ValidActions(acts) && k == |SessionOps(acts)|
    ensures Completed(acts, k) == |acts| && !PastCommitPoint(acts, k)
  {
  }

  /** A crash before the last step begins. */
  lemma CompletedInit(init: seq<Action>, a: Action, k: nat)
    requires ValidActions(init + [a]) && ValidActions(init) && ValidAction(a) && k <= |SessionOps(init)|
    requires k < |SessionOps(init)| || ActionOps(a) != []
    ensures Completed(init + [a], k) == Completed(init, k)
    ensures PastCommitPoint(init + [a], k) ==> PastCommitPoint(init, k)
  {
    hide CommitOps, CommitPoint;
    var acts := init + [a];
    assert acts[..|init|] == init && acts[|init|] == a;
    assert SessionOps(acts) == SessionOps(init) + ActionOps(a);
    var n := Completed(init, k);
    if PastCommitPoint(acts, k) {
      if n == |init| {
        CommitPointPositive(a.puts);
      } else {
        assert acts[n] == init[n] && acts[..n] == init[..n];
      }
    }
  }

  lemma CommitPointPositive(puts: seq<Put>)
    ensures CommitPoint(puts) > 0
  {
  }

  /** A crash inside the last step. */
  lemma CompletedLast(init: seq<Action>, a: Action, k: nat)
    requires ValidActions(init + [a]) && ValidActions(init) && |SessionOps(init)| < k <= |SessionOps(init + [a])|
    ensures Completed(init + [a], k) == if k == |SessionOps(init + [a])| then |init| + 1 else |init|
    ensures PastCommitPoint(init + [a], k) ==> a.Commit? && k - |SessionOps(init)| >= CommitPoint(a.puts)
    ensures PastCommitPoint(init + [a], k) ==> k < |SessionOps(init + [a])|
  {
    hide CommitOps, CommitPoint;
    var acts := init + [a];
    assert acts[..|init|] == init && acts[|init|] == a;
  }

  /** With no step in progress, recovery does nothing. */
  lemma IdleCrash(now: DiskState, abs: DiskState, img: Image)
    requires QuietJournal(now) && CleanHeader(now.durable) && Alike(now, abs) && CrashImage(now, img)
    ensures CrashOutside(abs, Recovered(img))
  {
    hide HeaderOf, Recovered;
    CleanCrash(now, img);
    RecoveredIs(img);
    AlikeCrash(now, abs, img);
  }

  lemma CleanCrash(st: DiskState, img: Image)
    requires QuietJournal(st) && CleanHeader(st.durable) && CrashImage(st, img)
    ensures CleanHeader(img) && CrashOutside(st, img)
  {
    hide HeaderOf;
    assert img[JOURNAL_START] == st.durable[JOURNAL_START];
  }

  lemma LastCrash(st: DiskState, init: seq<Action>, a: Action, r: nat, img: Image) returns (j: nat)
    requires ValidActions(init) && ValidActions(init + [a]) && ValidAction(a)
    requires QuietJournal(st) && CleanHeader(st.durable)
    requires NotStale(st, init + [a]) && 0 < r <= |ActionOps(a)|
    requires CrashImage(Run(st, SessionOps(init) + ActionOps(a)[..r]), img)
    ensures |init| <= j <= |init| + 1 && (r == |ActionOps(a)| ==> j == |init| + 1)
    ensures a.Commit? && r >= CommitPoint(a.puts) ==> j == |init| + 1
    ensures CrashOutside(ActAll(st, (init + [a])[..j]), Recovered(img))
  {
    hide Run, CommitOps, HeaderOf, Commits, Overlay, View, Recovered, CrashImage, CrashOutside, CommitPoint;
    var acts := init + [a];
    assert acts[..|init|] == init && acts[|init|] == a && acts[..|acts|] == acts;
    assert ValidAction(acts[|init|]);
    SessionState(st, init);
    var mid, abs := Run(st, SessionOps(init)), ActAll(st, init);
    RunAppend(st, SessionOps(init), ActionOps(a)[..r]);
    if a.Commit? {
      StillNotStale(st, init, a);
      j := CommitCrash(mid, abs, a, r, img);
      j := j + |init|;
    } else {
      assert ActionOps(a)[..r] == ActionOps(a);
      ActionState(mid, abs, a);
      IdleCrash(Run(mid, ActionOps(a)), Act(abs, a), img);
      j := |acts|;
    }
  }

  lemma CommitCrash(mid: DiskState, abs: DiskState, a: Action, r: nat, img: Image) returns (j: nat)
    requires a.Commit? && ValidAction(a) && QuietJournal(mid) && CleanHeader(mid.durable) && Alike(mid, abs)
    requires !Stale(mid, a.seqNo) && r <= |ActionOps(a)| && CrashImage(Run(mid, ActionOps(a)[..r]), img)
    ensures j <= 1 && (r >= CommitPoint(a.puts) ==> j == 1) && (r == |ActionOps(a)| ==> j == 1)
    ensures CrashOutside(if j == 0 then abs else Act(abs, a), Recovered(img))
  {
    hide Run, CommitOps, HeaderOf, Commits, Overlay, Recovered, CrashImage, CrashOutside;
    Lengths(a.seqNo, a.puts);
    CommitAtomic(mid, a.seqNo, a.puts, r, img);
    AlikeView(mid, abs);
    OverlayOutside(View(mid), View(abs), a.puts);
    if SameOutside(Recovered(img), Overlay(View(mid), a.puts)) {
      DurableCrash(Overlay(View(abs), a.puts), Recovered(img));
      j := 1;
    } else {
      AlikeCrash(mid, abs, Recovered(img));
      j := 0;
    }
  }

  // ---- the log of a mounted file system ----

  /** What has been done to the disk since prior is a session whose next number is next. */
  ghost predicate Logged(trace: seq<Op>, prior: seq<Op>, next: u32) {
    exists acts :: LogIs(trace, prior, next, acts)
  }

  ghost predicate LogIs(trace: seq<Op>, prior: seq<Op>, next: u32, acts: seq<Action>) {
    ValidActions(acts) && Numbered(acts) && NextSeq(acts) == next && trace == prior + SessionOps(acts)
  }

  lemma LoggedNothing(prior: seq<Op>)
    ensures Logged(prior, prior, 1)
  {
    assert prior == prior + SessionOps([]);
    assert LogIs(prior, prior, 1, []);
  }

  /** One more step. */
  lemma LoggedStep(trace: seq<Op>, prior: seq<Op>, next: u32, a: Action)
    requires Logged(trace, prior, next) && ValidAction(a) && (a.Commit? ==> a.seqNo == next)
    ensures Logged(trace + ActionOps(a), prior, if a.Commit? || a.Abandon? then AddU32(next, 1) else next)
  {
    hide ActionOps, SessionOps, ValidAction;
    var acts :| LogIs(trace, prior, next, acts);
    var more := acts + [a];
    assert more[..|acts|] == acts && more[|acts|] == a;
    forall i | 0 <= i < |more| && more[i].Commit? ensures more[i].seqNo == NextSeq(more[..i]) {
      if i < |acts| {
        assert more[i] == acts[i] && more[..i] == acts[..i];
      }
    }
    SessionSplit(acts, a);
    assert LogIs(trace + ActionOps(a), prior, NextSeq(more), more);
  }
}
