/** What a crash can do to a journal transaction (src/journal.c): commit is all-or-nothing,
    recovery may itself be interrupted any number of times, and a stale commit record left by
    an earlier process is exactly what can break atomicity. */
module CrashSafety {
  import opened Layout
  import opened Disk
  import opened Journal

  ghost predicate SameOutside(a: Image, b: Image) {
    forall n: BlockNum :: !InJournal(n) ==> a[n] == b[n]
  }

  /** Outside the journal, img is a possible crash image of st. */
  ghost predicate CrashOutside(st: DiskState, img: Image) {
    forall n: BlockNum :: !InJournal(n) ==> img[n] == st.durable[n] || Put(n, img[n]) in st.pending
  }

  /** The image a complete, uninterrupted recovery leaves. */
  function Recovered(img: Image): Image {
    View(Run(DiskState(img, []), RecoverOps(img)))
  }

  /** What recovery makes of the blocks outside the journal. */
  function Replayed(img: Image): Image {
    if Replayable(img) then Overlay(img, JournalPuts(img)) else img
  }

  predicate CleanHeader(img: Image) { HeaderOf(img[JOURNAL_START]).magic != JOURNAL_MAGIC }

  lemma ClearedBlocks(img: Image)
    ensures var c := Overlay(img, ClearRound());
            c[JOURNAL_START] == ZeroBlock() && c[JOURNAL_COMMIT] == ZeroBlock()
    ensures forall n: BlockNum :: n != JOURNAL_START && n != JOURNAL_COMMIT ==> Overlay(img, ClearRound())[n] == img[n]
  {
    var puts := ClearRound();
    assert DistinctTargets(puts);
    OverlayAt(img, puts, 0);
    OverlayAt(img, puts, 1);
    assert Targets(puts) == {JOURNAL_START, JOURNAL_COMMIT};
    forall n: BlockNum | n != JOURNAL_START && n != JOURNAL_COMMIT ensures Overlay(img, puts)[n] == img[n] {
      OverlayMiss(img, puts, n);
    }
  }

  lemma RunRound(img: Image, puts: seq<Put>)
    ensures Run(DiskState(img, []), Round(puts)) == DiskState(Overlay(img, puts), [])
  {
    hide Overlay, Run, Writes;
    RoundWhole(DiskState(img, []), puts, []);
    assert Round(puts) + [] == Round(puts);
    RunNothing(DiskState(Overlay(img, puts), []));
    ViewDurable(img);
  }

  lemma RunNothing(st: DiskState)
    ensures Run(st, []) == st
  {
  }

  lemma ViewDurable(img: Image)
    ensures View(DiskState(img, [])) == img
  {
  }

  /** Outside the journal, recovery replays the journal if it verifies and does nothing
      otherwise; and it always leaves a header without the magic number. */
  lemma RecoveredIs(img: Image)
    ensures SameOutside(Recovered(img), Replayed(img))
    ensures CleanHeader(Recovered(img))
    ensures CleanHeader(img) ==> Recovered(img) == img
    ensures !CleanHeader(img) ==> Recovered(img)[JOURNAL_COMMIT] == ZeroBlock()
  {
    hide Overlay, Run, HeaderOf, Writes, ZeroBlock, Replayable, JournalPuts;
    ZeroRecords(0);
    ClearedBlocks(Replayed(img));
    ViewDurable(img);
    RunNothing(DiskState(img, []));
    ReplayableHasMagic(img);
    if !CleanHeader(img) {
      RunRound(Replayed(img), ClearRound());
      ViewDurable(Overlay(Replayed(img), ClearRound()));
      if Replayable(img) {
        RunAppend(DiskState(img, []), Round(JournalPuts(img)), Round(ClearRound()));
        RunRound(img, JournalPuts(img));
      }
    }
  }

  lemma ReplayableHasMagic(img: Image)
    ensures Replayable(img) ==> !CleanHeader(img)
  {
  }

  // ---- a journal holding a given transaction ----

  /** Header and after-images of the transaction are in place. */
  ghost predicate Holds(img: Image, seqNo: u32, puts: seq<Put>)
    requires |puts| <= MAX_TX_BLOCKS
  {
    && img[JOURNAL_START] == HeaderBlock(seqNo, Checksum(PutBlocks(puts)), PutTargets(puts))
    && forall i :: 0 <= i < |puts| ==> img[JournalSlot(i)] == puts[i].blk
  }

  /** Header in place, payload blocks M in the journal slots. */
  lemma PayloadReplay(img: Image, seqNo: u32, puts: seq<Put>, m: seq<Block>)
    requires ValidStaging(puts) && |m| == |puts|
    requires img[JOURNAL_START] == HeaderBlock(seqNo, Checksum(PutBlocks(puts)), PutTargets(puts))
    requires forall i :: 0 <= i < |puts| ==> img[JournalSlot(i)] == m[i]
    ensures Replayable(img) <==>
            Commits(img[JOURNAL_COMMIT], seqNo) && PayloadSum(m) == PayloadSum(PutBlocks(puts))
    ensures Replayable(img) ==> JournalPuts(img) == Zip(PutTargets(puts), m)
  {
    hide HeaderOf, HeaderBlock, Commits, PayloadSum;
    HeaderRoundTrip(seqNo, Checksum(PutBlocks(puts)), PutTargets(puts));
    var h := HeaderOf(img[JOURNAL_START]);
    assert h.targets[..|puts|] == PutTargets(puts);
    assert forall i :: 0 <= i < |puts| ==> h.targets[i] == h.targets[..|puts|][i];
    assert JournalBlocks(img, |puts|) == m;
  }

  /** A journal holding the transaction replays it exactly if the commit record matches. */
  lemma HoldsReplay(img: Image, seqNo: u32, puts: seq<Put>)
    requires ValidStaging(puts) && Holds(img, seqNo, puts)
    ensures Replayed(img) == if Commits(img[JOURNAL_COMMIT], seqNo) then Overlay(img, puts) else img
  {
    hide HeaderBlock, Commits, PayloadSum, Overlay, Replayable;
    PayloadReplay(img, seqNo, puts, PutBlocks(puts));
    assert Zip(PutTargets(puts), PutBlocks(puts)) == puts;
  }

  lemma {:induction false} OverlaySame(a: Image, b: Image, puts: seq<Put>, n: BlockNum)
    requires n in Targets(puts) || a[n] == b[n]
    ensures Overlay(a, puts)[n] == Overlay(b, puts)[n]
  {
    if n in Targets(puts) {
      OverlayHit(a, b, puts, n);
    } else {
      OverlayMiss(a, puts, n);
      OverlayMiss(b, puts, n);
    }
  }

  /** Images that agree outside the journal and outside the targets give the same result. */
  lemma OverlayOutside(a: Image, b: Image, puts: seq<Put>)
    requires forall n: BlockNum :: !InJournal(n) ==> n in Targets(puts) || a[n] == b[n]
    ensures SameOutside(Overlay(a, puts), Overlay(b, puts))
  {
    forall n: BlockNum | !InJournal(n) ensures Overlay(a, puts)[n] == Overlay(b, puts)[n] {
      OverlaySame(a, b, puts, n);
    }
  }

  lemma {:induction false} ViewIsCrashImage(st: DiskState)
    ensures CrashImage(st, View(st))
  {
    forall n: BlockNum ensures View(st)[n] == st.durable[n] || Put(n, View(st)[n]) in st.pending {
      if n in Targets(st.pending) {
        OverlayHit(st.durable, st.durable, st.pending, n);
      } else {
        OverlayMiss(st.durable, st.pending, n);
      }
    }
  }

  // ---- the states a commit passes through ----

  /** Unsynced writes, if any, are to blocks outside the journal. */
  ghost predicate QuietJournal(st: DiskState) {
    forall p :: p in st.pending ==> !InJournal(p.b)
  }

  /** The disk once the prepare round is durable. */
  function Prepared(st: DiskState, seqNo: u32, puts: seq<Put>): Image
    requires |puts| <= MAX_TX_BLOCKS
  {
    Overlay(View(st), PrepareRound(seqNo, puts))
  }

  function Committed(st: DiskState, seqNo: u32, puts: seq<Put>): Image
    requires |puts| <= MAX_TX_BLOCKS
  {
    Overlay(Prepared(st, seqNo, puts), CommitRound(seqNo))
  }

  function Applied(st: DiskState, seqNo: u32, puts: seq<Put>): Image
    requires |puts| <= MAX_TX_BLOCKS
  {
    Overlay(Committed(st, seqNo, puts), puts)
  }

  /** The commit record is durable from this step on. */
  function CommitPoint(puts: seq<Put>): nat { |puts| + 4 }

  /** The state after k steps of the commit: inside one of its four rounds. */
  lemma CommitPrefix(st: DiskState, seqNo: u32, puts: seq<Put>, k: nat)
    requires 0 < |puts| <= MAX_TX_BLOCKS && k <= |CommitOps(seqNo, puts)|
    ensures var n := |puts|; var now := Run(st, CommitOps(seqNo, puts)[..k]);
            if k <= n + 1 then now == st.(pending := st.pending + PrepareRound(seqNo, puts)[..k])
            else if k <= n + 3 then now == DiskState(Prepared(st, seqNo, puts), CommitRound(seqNo)[..k - n - 2])
            else if k <= 2 * n + 4 then now == DiskState(Committed(st, seqNo, puts), puts[..k - n - 4])
            else if k <= 2 * n + 7 then now == DiskState(Applied(st, seqNo, puts), ClearRound()[..k - 2 * n - 5])
            else now == DiskState(Overlay(Applied(st, seqNo, puts), ClearRound()), [])
    ensures |CommitOps(seqNo, puts)| == 2 * |puts| + 8
  {
    hide Overlay, Run, Writes;
    var n := |puts|;
    var a, b, c, d := PrepareRound(seqNo, puts), CommitRound(seqNo), puts, ClearRound();
    Lengths(seqNo, puts);
    RoundPrefix(st, a, Round(b) + (Round(c) + Round(d)), k);
    if k > n + 1 {
      var st1 := DiskState(Prepared(st, seqNo, puts), []);
      ViewDurable(st1.durable);
      var k1 := k - n - 2;
      RoundPrefix(st1, b, Round(c) + Round(d), k1);
      assert [] + b[..if k1 <= 1 then k1 else 1] == b[..if k1 <= 1 then k1 else 1];
      if k1 > 1 {
        var st2 := DiskState(Committed(st, seqNo, puts), []);
        ViewDurable(st2.durable);
        var k2 := k1 - 2;
        RoundPrefix(st2, c, Round(d), k2);
        if k2 <= n {
          assert [] + c[..k2] == c[..k2];
        } else {
          var st3 := DiskState(Applied(st, seqNo, puts), []);
          ViewDurable(st3.durable);
          var k3 := k2 - n - 1;
          assert Round(d) + [] == Round(d);
          RoundPrefix(st3, d, [], k3);
          if k3 <= 2 {
            assert [] + d[..k3] == d[..k3];
          } else {
            RunNothing(DiskState(Overlay(st3.durable, d), []));
          }
        }
      }
    }
  }

  lemma Lengths(seqNo: u32, puts: seq<Put>)
    requires 0 < |puts| <= MAX_TX_BLOCKS
    ensures |PrepareRound(seqNo, puts)| == |puts| + 1 && |CommitRound(seqNo)| == 1 && |ClearRound()| == 2
    ensures |Round(puts)| == |puts| + 1 && |Round(ClearRound())| == 3
    ensures |Round(CommitRound(seqNo)) + (Round(puts) + Round(ClearRound()))| == |puts| + 6
    ensures |CommitOps(seqNo, puts)| == 2 * |puts| + 8
    ensures CommitOps(seqNo, puts)
            == Round(PrepareRound(seqNo, puts)) + (Round(CommitRound(seqNo)) + (Round(puts) + Round(ClearRound())))
  {
    hide HeaderBlock, CommitBlock;
  }

  lemma PrepareTargets(seqNo: u32, puts: seq<Put>, p: Put)
    requires |puts| <= MAX_TX_BLOCKS && p in PrepareRound(seqNo, puts)
    ensures InJournal(p.b) && p.b != JOURNAL_COMMIT
    ensures p.b == JOURNAL_START ==> p.blk == HeaderBlock(seqNo, Checksum(PutBlocks(puts)), PutTargets(puts))
    ensures forall i :: 0 <= i < |puts| && p.b == JournalSlot(i) ==> p.blk == puts[i].blk
  {
    hide HeaderBlock;
    var a := PrepareRound(seqNo, puts);
    var j :| 0 <= j < |a| && a[j] == p;
    if j > 0 {
      assert a[j] == Copies(PutBlocks(puts))[j - 1];
    }
  }

  /** After the first sync the journal holds the transaction; nothing else has changed. */
  lemma PreparedIs(st: DiskState, seqNo: u32, puts: seq<Put>)
    requires ValidStaging(puts)
    ensures Holds(Prepared(st, seqNo, puts), seqNo, puts)
    ensures SameOutside(Prepared(st, seqNo, puts), View(st))
    ensures Prepared(st, seqNo, puts)[JOURNAL_COMMIT] == View(st)[JOURNAL_COMMIT]
  {
    hide HeaderBlock, Overlay, View;
    var a := PrepareRound(seqNo, puts);
    Lengths(seqNo, puts);
    PrepareDistinct(seqNo, puts);
    OverlayAt(View(st), a, 0);
    forall i | 0 <= i < |puts| ensures Prepared(st, seqNo, puts)[JournalSlot(i)] == puts[i].blk {
      OverlayAt(View(st), a, i + 1);
      assert a[i + 1] == Copies(PutBlocks(puts))[i];
    }
    forall p | p in a ensures InJournal(p.b) && p.b != JOURNAL_COMMIT {
      PrepareTargets(seqNo, puts, p);
    }
    forall n: BlockNum | !InJournal(n) || n == JOURNAL_COMMIT
      ensures Prepared(st, seqNo, puts)[n] == View(st)[n]
    {
      OverlayMiss(View(st), a, n);
    }
  }

  lemma PrepareDistinct(seqNo: u32, puts: seq<Put>)
    requires |puts| <= MAX_TX_BLOCKS
    ensures DistinctTargets(PrepareRound(seqNo, puts))
  {
    hide HeaderBlock;
    var a := PrepareRound(seqNo, puts);
    forall j | 0 < j < |a| ensures a[j].b == JOURNAL_START + j {
      assert a[j] == Copies(PutBlocks(puts))[j - 1];
    }
  }

  lemma CommittedIs(st: DiskState, seqNo: u32, puts: seq<Put>)
    requires ValidStaging(puts)
    ensures Holds(Committed(st, seqNo, puts), seqNo, puts)
    ensures SameOutside(Committed(st, seqNo, puts), View(st))
    ensures Committed(st, seqNo, puts)[JOURNAL_COMMIT] == CommitBlock(seqNo)
  {
    hide HeaderBlock, CommitBlock, Overlay, View, Prepared;
    PreparedIs(st, seqNo, puts);
    var b := CommitRound(seqNo);
    OverlayAt(Prepared(st, seqNo, puts), b, 0);
    forall n: BlockNum | n != JOURNAL_COMMIT
      ensures Committed(st, seqNo, puts)[n] == Prepared(st, seqNo, puts)[n]
    {
      OverlayMiss(Prepared(st, seqNo, puts), b, n);
    }
  }

  lemma AppliedIs(st: DiskState, seqNo: u32, puts: seq<Put>)
    requires ValidStaging(puts)
    ensures Holds(Applied(st, seqNo, puts), seqNo, puts)
    ensures SameOutside(Applied(st, seqNo, puts), Overlay(View(st), puts))
    ensures Applied(st, seqNo, puts)[JOURNAL_COMMIT] == CommitBlock(seqNo)
  {
    hide HeaderBlock, CommitBlock, Overlay, View, Committed;
    CommittedIs(st, seqNo, puts);
    OverlayOutside(Committed(st, seqNo, puts), View(st), puts);
    forall n: BlockNum | InJournal(n) ensures Applied(st, seqNo, puts)[n] == Committed(st, seqNo, puts)[n] {
      OverlayMiss(Committed(st, seqNo, puts), puts, n);
    }
  }

  // ---- crash outcomes, round by round ----

  /** Old or new outside the journal. */
  ghost predicate AllOrNothing(st: DiskState, puts: seq<Put>, img: Image) {
    CrashOutside(st, img) || SameOutside(img, Overlay(View(st), puts))
  }

  /** A crash before the first sync: journal slots may hold any mixture of old and new. */
  lemma CrashInPrepare(st: DiskState, seqNo: u32, puts: seq<Put>, k: nat, img: Image)
    requires ValidStaging(puts) && QuietJournal(st) && k <= |PrepareRound(seqNo, puts)|
    requires CrashImage(st.(pending := st.pending + PrepareRound(seqNo, puts)[..k]), img)
    ensures CrashOutside(st, img)
    ensures img[JOURNAL_COMMIT] == st.durable[JOURNAL_COMMIT]
    ensures img[JOURNAL_START] == st.durable[JOURNAL_START]
            || img[JOURNAL_START] == HeaderBlock(seqNo, Checksum(PutBlocks(puts)), PutTargets(puts))
    ensures forall i :: 0 <= i < |puts| ==>
              img[JournalSlot(i)] == st.durable[JournalSlot(i)] || img[JournalSlot(i)] == puts[i].blk
  {
    hide HeaderBlock, PrepareRound;
    var a := PrepareRound(seqNo, puts);
    forall p | p in a[..k]
      ensures InJournal(p.b) && p.b != JOURNAL_COMMIT
      ensures p.b == JOURNAL_START ==> p.blk == HeaderBlock(seqNo, Checksum(PutBlocks(puts)), PutTargets(puts))
      ensures forall i :: 0 <= i < |puts| && p.b == JournalSlot(i) ==> p.blk == puts[i].blk
    {
      PrepareTargets(seqNo, puts, p);
    }
    forall n: BlockNum
      ensures img[n] == st.durable[n] || Put(n, img[n]) in st.pending || Put(n, img[n]) in a[..k]
    {
    }
  }

  /** A crash around the commit record: the transaction is replayed if a matching record is there. */
  lemma CrashInCommit(st: DiskState, seqNo: u32, puts: seq<Put>, k: nat, img: Image)
    requires ValidStaging(puts) && k <= 1
    requires CrashImage(DiskState(Prepared(st, seqNo, puts), CommitRound(seqNo)[..k]), img)
    ensures SameOutside(Recovered(img), Overlay(View(st), puts)) || SameOutside(Recovered(img), View(st))
  {
    hide HeaderBlock, CommitBlock, Overlay, View, Recovered, Prepared, Commits, Replayable;
    PreparedIs(st, seqNo, puts);
    forall n: BlockNum | n != JOURNAL_COMMIT ensures img[n] == Prepared(st, seqNo, puts)[n] {
    }
    HoldsReplay(img, seqNo, puts);
    RecoveredIs(img);
    OverlayOutside(img, View(st), puts);
  }

  /** A crash while the targets are being rewritten. */
  lemma CrashInApply(st: DiskState, seqNo: u32, puts: seq<Put>, k: nat, img: Image)
    requires ValidStaging(puts) && k <= |puts|
    requires CrashImage(DiskState(Committed(st, seqNo, puts), puts[..k]), img)
    ensures SameOutside(Recovered(img), Overlay(View(st), puts))
  {
    hide HeaderBlock, CommitBlock, Overlay, View, Recovered, Committed, Commits, Replayable;
    CommittedIs(st, seqNo, puts);
    forall n: BlockNum ensures img[n] == Committed(st, seqNo, puts)[n] || n in Targets(puts) {
      if Put(n, img[n]) in puts[..k] {
        assert Put(n, img[n]) in puts;
      }
    }
    forall n: BlockNum | InJournal(n) ensures img[n] == Committed(st, seqNo, puts)[n] {
    }
    HoldsReplay(img, seqNo, puts);
    CommitRoundTrip(seqNo, seqNo);
    RecoveredIs(img);
    OverlayOutside(img, View(st), puts);
  }

  /** A crash while the journal is being cleared. */
  lemma CrashInClear(st: DiskState, seqNo: u32, puts: seq<Put>, k: nat, img: Image)
    requires ValidStaging(puts) && k <= 2
    requires CrashImage(DiskState(Applied(st, seqNo, puts), ClearRound()[..k]), img)
    ensures SameOutside(Recovered(img), Overlay(View(st), puts))
  {
    hide HeaderBlock, CommitBlock, HeaderOf, Overlay, View, Recovered, Applied, Commits, Replayable, ZeroBlock;
    AppliedIs(st, seqNo, puts);
    forall n: BlockNum | n != JOURNAL_START && n != JOURNAL_COMMIT ensures img[n] == Applied(st, seqNo, puts)[n] {
    }
    RecoveredIs(img);
    if img[JOURNAL_START] == ZeroBlock() {
      ZeroRecords(0);
    } else {
      HoldsReplay(img, seqNo, puts);
      OverlayTwice(View(st), puts);
      OverlayOutside(img, Overlay(View(st), puts), puts);
    }
  }

  lemma OverlayTwice(img: Image, puts: seq<Put>)
    ensures Overlay(Overlay(img, puts), puts) == Overlay(img, puts)
  {
    hide Overlay;
    var once := Overlay(img, puts);
    forall n: BlockNum ensures Overlay(once, puts)[n] == once[n] {
      if n in Targets(puts) {
        OverlayHit(once, img, puts, n);
      } else {
        OverlayMiss(once, puts, n);
      }
    }
  }

  // ---- main results ----

  ghost predicate Stale(st: DiskState, seqNo: u32) { Commits(st.durable[JOURNAL_COMMIT], seqNo) }

  /** Commit is crash-atomic: whatever subset of the unsynced writes survives, at whatever step,
      recovery leaves the blocks outside the journal all old or all overlaid with the staged
      images, and certainly new once the sync of the commit record has returned. Old means what a
      crash before the commit could have left, and after the first sync exactly what was written. */
  lemma CommitAtomic(st: DiskState, seqNo: u32, puts: seq<Put>, k: nat, img: Image)
    requires ValidStaging(puts) && QuietJournal(st) && CleanHeader(st.durable) && !Stale(st, seqNo)
    requires k <= |CommitOps(seqNo, puts)|
    requires CrashImage(Run(st, CommitOps(seqNo, puts)[..k]), img)
    ensures AllOrNothing(st, puts, Recovered(img))
    ensures k >= CommitPoint(puts) ==> SameOutside(Recovered(img), Overlay(View(st), puts))
    ensures k <= |puts| + 1 ==> CrashOutside(st, Recovered(img))
    ensures k > |puts| + 1 ==>
              SameOutside(Recovered(img), View(st)) || SameOutside(Recovered(img), Overlay(View(st), puts))
  {
    hide HeaderBlock, CommitBlock, HeaderOf, Overlay, View, Recovered, Prepared, Committed, Applied, Commits,
      Replayable, Run, CommitOps, ZeroBlock;
    CommitPrefix(st, seqNo, puts, k);
    var n := |puts|;
    Lengths(seqNo, puts);
    ViewIsCrashImage(st);
    if k <= n + 1 {
      CrashInPrepare(st, seqNo, puts, k, img);
      NotReplayed(img, seqNo, puts);
    } else if k <= n + 3 {
      CrashInCommit(st, seqNo, puts, k - n - 2, img);
    } else if k <= 2 * n + 4 {
      CrashInApply(st, seqNo, puts, k - n - 4, img);
    } else if k <= 2 * n + 7 {
      CrashInClear(st, seqNo, puts, k - 2 * n - 5, img);
    } else {
      CommitDone(st, seqNo, puts);
      RecoveredIs(img);
    }
  }

  /** Without a matching commit record nothing is replayed. */
  lemma NotReplayed(img: Image, seqNo: u32, puts: seq<Put>)
    requires ValidStaging(puts) && !Commits(img[JOURNAL_COMMIT], seqNo)
    requires CleanHeader(img)
             || img[JOURNAL_START] == HeaderBlock(seqNo, Checksum(PutBlocks(puts)), PutTargets(puts))
    ensures SameOutside(Recovered(img), img)
  {
    hide HeaderBlock, Recovered, Commits, PayloadSum, HeaderOf, Overlay;
    RecoveredIs(img);
    ReplayableHasMagic(img);
    if !CleanHeader(img) {
      HeaderRoundTrip(seqNo, Checksum(PutBlocks(puts)), PutTargets(puts));
    }
  }

  /** The disk after a complete commit: new outside the journal, header and commit record cleared. */
  lemma CommitDone(st: DiskState, seqNo: u32, puts: seq<Put>)
    requires ValidStaging(puts)
    ensures var done := Overlay(Applied(st, seqNo, puts), ClearRound());
            && Run(st, CommitOps(seqNo, puts)) == DiskState(done, [])
            && SameOutside(done, Overlay(View(st), puts))
            && CleanHeader(done)
            && forall s :: !Commits(done[JOURNAL_COMMIT], s)
  {
    hide Overlay, View, Applied, Commits, Run, CommitOps, HeaderOf, ZeroBlock;
    var ops := CommitOps(seqNo, puts);
    CommitPrefix(st, seqNo, puts, |ops|);
    assert ops[..|ops|] == ops;
    AppliedIs(st, seqNo, puts);
    ClearedBlocks(Applied(st, seqNo, puts));
    ZeroRecords(0);
    forall s: u32 ensures !Commits(ZeroBlock(), s) {
      ZeroRecords(s);
    }
  }
}
