/** Crashes over whole runs: sessions of transactions, recoveries that are themselves interrupted,
    and exactly when a stale commit record tears a transaction (src/journal.c). */
module CrashRuns {
  import opened Layout
  import opened Disk
  import opened Journal
  import opened CrashSafety
  import opened Sessions

  // ---- sessions of transactions only ----

  datatype Tx = Tx(seqNo: u32, puts: seq<Put>)

  ghost function Actions(txs: seq<Tx>): (acts: seq<Action>)
    ensures |acts| == |txs|
    ensures (forall i :: 0 <= i < |txs| ==> ValidStaging(txs[i].puts)) ==> ValidActions(acts)
  {
    seq(|txs|, i requires 0 <= i < |txs| => Commit(txs[i].seqNo, txs[i].puts))
  }

  /** The image after a list of transactions, as if each took effect at once. */
  function ApplyAll(img: Image, txs: seq<Tx>): Image {
    if txs == [] then img else Overlay(ApplyAll(img, txs[..|txs| - 1]), txs[|txs| - 1].puts)
  }

  lemma {:induction false} ActAllIs(st: DiskState, txs: seq<Tx>)
    requires txs != []
    ensures ActAll(st, Actions(txs)) == DiskState(ApplyAll(View(st), txs), [])
  {
    hide Overlay, View;
    var init := txs[..|txs| - 1];
    assert Actions(txs)[..|txs| - 1] == Actions(init);
    if init != [] {
      ActAllIs(st, init);
      ViewDurable(ApplyAll(View(st), init));
    }
  }

  /** Transactions back to back: a crash at any step recovers to the effect of a prefix of them, every
      completed one and at most the one in progress besides. */
  lemma SessionAtomic(st: DiskState, txs: seq<Tx>, k: nat, img: Image) returns (j: nat)
    requires forall i :: 0 <= i < |txs| ==> ValidStaging(txs[i].puts)
    requires QuietJournal(st) && CleanHeader(st.durable)
    requires txs != [] ==> !Stale(st, txs[0].seqNo)
    requires k <= |SessionOps(Actions(txs))|
    requires CrashImage(Run(st, SessionOps(Actions(txs))[..k]), img)
    ensures Completed(Actions(txs), k) <= j <= Completed(Actions(txs), k) + 1 && j <= |txs|
    ensures j == 0 ==> CrashOutside(st, Recovered(img))
    ensures j > 0 ==> SameOutside(Recovered(img), ApplyAll(View(st), txs[..j]))
  {
    hide Overlay, View, Run, Recovered, Stale, CrashImage, CleanHeader, SessionOps;
    var acts := Actions(txs);
    forall i | 0 <= i < |acts| && acts[i].Commit? && (forall j :: 0 <= j < i ==> !acts[j].Commit?)
      ensures !Stale(st, acts[i].seqNo)
    {
      assert acts[0].Commit?;
    }
    j := SessionCrash(st, acts, k, img);
    assert acts[..j] == Actions(txs[..j]);
    if j > 0 {
      ActAllIs(st, txs[..j]);
    }
  }

  // ---- recovery that is itself interrupted ----

  /** Recovery of img was cut short by a crash that left img'. */
  ghost predicate RecoveryCrash(img: Image, img': Image) {
    exists k: nat :: k <= |RecoverOps(img)| && CrashImage(Run(DiskState(img, []), RecoverOps(img)[..k]), img')
  }

  lemma JournalAgree(a: Image, b: Image)
    requires forall n: BlockNum :: InJournal(n) ==> a[n] == b[n]
    ensures Replayable(a) == Replayable(b)
    ensures Replayable(a) ==> JournalPuts(a) == JournalPuts(b)
  {
    hide HeaderOf, PayloadSum, Commits;
    var h := HeaderOf(a[JOURNAL_START]);
    if h.numBlocks <= MAX_TX_BLOCKS {
      assert JournalBlocks(a, h.numBlocks) == JournalBlocks(b, h.numBlocks);
    }
  }

  lemma JournalPutsOutside(img: Image)
    requires Replayable(img)
    ensures forall p :: p in JournalPuts(img) ==> !InJournal(p.b)
  {
    hide PayloadSum, Commits;
  }

  /** A crash while clearing leaves the other blocks alone, and either a journal recovery will
      ignore or the journal as it was. */
  lemma ClearCrash(d: Image, k: nat, img: Image)
    requires k <= 3 && CrashImage(Run(DiskState(d, []), Round(ClearRound())[..k]), img)
    ensures SameOutside(img, d)
    ensures Replayable(img) ==> forall n: BlockNum :: InJournal(n) ==> img[n] == d[n]
  {
    hide Overlay, Run, HeaderOf, ZeroBlock, PayloadSum, Writes;
    RoundPrefix(DiskState(d, []), ClearRound(), [], k);
    assert Round(ClearRound()) + [] == Round(ClearRound());
    ClearedBlocks(d);
    ViewDurable(d);
    if k == 3 {
      RunNothing(DiskState(Overlay(d, ClearRound()), []));
    } else {
      assert [] + ClearRound()[..k] == ClearRound()[..k];
    }
    ZeroRecords(0);
    ZeroRecords(HeaderOf(img[JOURNAL_START]).seqNo);
    forall n: BlockNum | n != JOURNAL_START && n != JOURNAL_COMMIT ensures img[n] == d[n] {
    }
    assert img[JOURNAL_START] == d[JOURNAL_START] || img[JOURNAL_START] == ZeroBlock();
    assert img[JOURNAL_COMMIT] == d[JOURNAL_COMMIT] || img[JOURNAL_COMMIT] == ZeroBlock();
  }

  /** A crash while replaying leaves the journal intact. */
  lemma ReplayCrash(img: Image, k: nat, img': Image)
    requires Replayable(img) && k <= |JournalPuts(img)|
    requires CrashImage(DiskState(img, JournalPuts(img)[..k]), img')
    ensures SameOutside(Recovered(img'), Recovered(img))
  {
    hide Overlay, Recovered, Replayable, JournalPuts;
    var puts := JournalPuts(img);
    JournalPutsOutside(img);
    forall n: BlockNum ensures img'[n] == img[n] || n in Targets(puts) {
      if Put(n, img'[n]) in puts[..k] {
        assert Put(n, img'[n]) in puts;
      }
    }
    JournalAgree(img, img');
    OverlayOutside(img', img, puts);
    RecoveredIs(img);
    RecoveredIs(img');
  }

  /** One interrupted recovery does not change what recovery will produce. */
  lemma OneCrash(img: Image, img': Image)
    requires RecoveryCrash(img, img')
    ensures SameOutside(Recovered(img'), Recovered(img))
  {
    hide Overlay, Recovered, Run, Replayable, JournalPuts, Writes, HeaderOf;
    var st := DiskState(img, []);
    var k: nat :| k <= |RecoverOps(img)| && CrashImage(Run(st, RecoverOps(img)[..k]), img');
    RecoveredIs(img);
    RecoveredIs(img');
    ViewDurable(img);
    ReplayableHasMagic(img);
    if CleanHeader(img) {
      RunNothing(st);
      assert img' == img;
    } else if Replayable(img) {
      var puts := JournalPuts(img);
      RoundPrefix(st, puts, Round(ClearRound()), k);
      if k <= |puts| {
        assert [] + puts[..k] == puts[..k];
        ReplayCrash(img, k, img');
      } else {
        AfterReplay(img, k - |puts| - 1, img');
      }
    } else {
      ClearCrash(img, k, img');
      if Replayable(img') {
        JournalAgree(img, img');
      }
    }
  }

  lemma AfterReplay(img: Image, k: nat, img': Image)
    requires Replayable(img) && k <= 3
    requires CrashImage(Run(DiskState(Overlay(img, JournalPuts(img)), []), Round(ClearRound())[..k]), img')
    ensures SameOutside(Recovered(img'), Recovered(img))
  {
    hide Overlay, Recovered, Run, Replayable, JournalPuts, Writes;
    var puts := JournalPuts(img);
    var d := Overlay(img, puts);
    ClearCrash(d, k, img');
    RecoveredIs(img);
    RecoveredIs(img');
    if Replayable(img') {
      JournalPutsOutside(img);
      forall n: BlockNum | InJournal(n) ensures d[n] == img[n] {
        OverlayMiss(img, puts, n);
      }
      JournalAgree(img, img');
      OverlayTwice(img, puts);
      OverlayOutside(img', d, puts);
    }
  }

  /** Recovery is crash-idempotent: any number of interrupted recoveries followed by a complete one
      gives the blocks outside the journal that one uninterrupted recovery gives. */
  lemma {:induction false} ManyCrashes(imgs: seq<Image>)
    requires |imgs| > 0
    requires forall i :: 0 <= i < |imgs| - 1 ==> RecoveryCrash(imgs[i], imgs[i + 1])
    ensures SameOutside(Recovered(imgs[|imgs| - 1]), Recovered(imgs[0]))
  {
    hide Recovered, RecoveryCrash;
    if |imgs| > 1 {
      var init := imgs[..|imgs| - 1];
      ManyCrashes(init);
      assert RecoveryCrash(imgs[|imgs| - 2], imgs[|imgs| - 2 + 1]);
      OneCrash(imgs[|imgs| - 2], imgs[|imgs| - 1]);
    }
  }

  // ---- exactly when commit is atomic ----

  /** No crash, at any step and with any surviving writes, recovers to a mixture. */
  ghost predicate Atomic(st: DiskState, seqNo: u32, puts: seq<Put>)
    requires |puts| <= MAX_TX_BLOCKS
  {
    forall k: nat, img: Image ::
      k <= |CommitOps(seqNo, puts)| && CrashImage(Run(st, CommitOps(seqNo, puts)[..k]), img)
      ==> AllOrNothing(st, puts, Recovered(img))
  }

  /** A payload the journal slots could be left holding half-way through step 2. */
  ghost predicate Survivors(st: DiskState, puts: seq<Put>, m: seq<Block>)
    requires |puts| <= MAX_TX_BLOCKS
  {
    |m| == |puts| && forall i :: 0 <= i < |m| ==> m[i] == puts[i].blk || m[i] == st.durable[JournalSlot(i)]
  }

  /** A block content that a crash before the commit could have left. */
  ghost predicate Old(st: DiskState, n: BlockNum, blk: Block) { blk == st.durable[n] || Put(n, blk) in st.pending }

  /** Such a payload that has the byte sum of the transaction but is neither its payload nor old
      content of the targets. */
  ghost predicate TornPayload(st: DiskState, puts: seq<Put>, m: seq<Block>)
    requires |puts| <= MAX_TX_BLOCKS
  {
    && Survivors(st, puts, m)
    && PayloadSum(m) == PayloadSum(PutBlocks(puts))
    && m != PutBlocks(puts)
    && exists i :: 0 <= i < |m| && !Old(st, puts[i].b, m[i])
  }

  /** An unsynced direct write that a crash can lose, and a staged image that is not old. */
  ghost predicate LostWrite(st: DiskState, puts: seq<Put>) {
    && (exists p :: p in st.pending && p.b !in Targets(puts) && p.blk != st.durable[p.b])
    && exists i :: 0 <= i < |puts| && !Old(st, puts[i].b, puts[i].blk)
  }

  /** The commit block already carries this sequence number, and either the checksum cannot tell a
      torn payload from the whole one, or the transaction can be replayed without the direct writes
      that went before it. */
  ghost predicate StaleHazard(st: DiskState, seqNo: u32, puts: seq<Put>)
    requires |puts| <= MAX_TX_BLOCKS
  {
    Stale(st, seqNo) && (LostWrite(st, puts) || exists m :: TornPayload(st, puts, m))
  }

  /** The crash image in which the new header and the payload m have survived. */
  function TornImage(st: DiskState, seqNo: u32, puts: seq<Put>, m: seq<Block>): Image
    requires |puts| <= MAX_TX_BLOCKS && |m| == |puts|
  {
    seq<Block>(TOTAL_BLOCKS, n requires 0 <= n < TOTAL_BLOCKS => TornBlock(st, seqNo, puts, m, n))
  }

  function TornBlock(st: DiskState, seqNo: u32, puts: seq<Put>, m: seq<Block>, n: BlockNum): Block
    requires |puts| <= MAX_TX_BLOCKS && |m| == |puts|
  {
    if n == JOURNAL_START then HeaderBlock(seqNo, Checksum(PutBlocks(puts)), PutTargets(puts))
    else if JOURNAL_START < n <= JOURNAL_START + |m| then m[n - JOURNAL_START - 1]
    else st.durable[n]
  }

  /** The header, the payload m and content x of block d can all survive. */
  lemma TornImageCrash(st: DiskState, seqNo: u32, puts: seq<Put>, m: seq<Block>, d: BlockNum, x: Block)
    requires ValidStaging(puts) && Survivors(st, puts, m) && !InJournal(d) && Old(st, d, x)
    ensures CrashImage(Run(st, CommitOps(seqNo, puts)[..|puts| + 1]), TornImage(st, seqNo, puts, m)[d := x])
  {
    hide HeaderBlock, Run, CommitOps, PayloadSum;
    var k, a, img := |puts| + 1, PrepareRound(seqNo, puts), TornImage(st, seqNo, puts, m)[d := x];
    Lengths(seqNo, puts);
    CommitPrefix(st, seqNo, puts, k);
    assert a[..k] == a;
    forall n: BlockNum ensures img[n] == st.durable[n] || Put(n, img[n]) in st.pending + a {
      if n == JOURNAL_START {
        assert a[0] == Put(n, img[n]);
      } else if JOURNAL_START < n <= JOURNAL_START + |m| && img[n] != st.durable[n] {
        assert a[n - JOURNAL_START] == Copies(PutBlocks(puts))[n - JOURNAL_START - 1] == Put(n, img[n]);
      }
    }
  }

  /** With the stale record and the whole byte sum, recovery installs the surviving payload. */
  lemma TornReplay(st: DiskState, seqNo: u32, puts: seq<Put>, m: seq<Block>, d: BlockNum, x: Block)
    requires ValidStaging(puts) && Stale(st, seqNo) && Survivors(st, puts, m) && !InJournal(d)
    requires PayloadSum(m) == PayloadSum(PutBlocks(puts))
    ensures var img := TornImage(st, seqNo, puts, m)[d := x];
            && (forall i :: 0 <= i < |puts| ==> Recovered(img)[puts[i].b] == m[i])
            && forall n: BlockNum :: !InJournal(n) && n !in Targets(puts) ==> Recovered(img)[n] == img[n]
  {
    hide HeaderBlock, Recovered, Commits, PayloadSum, Replayable, JournalPuts, Overlay;
    var img := TornImage(st, seqNo, puts, m)[d := x];
    PayloadReplay(img, seqNo, puts, m);
    RecoveredIs(img);
    var torn := Zip(PutTargets(puts), m);
    assert DistinctTargets(torn);
    forall i | 0 <= i < |puts| ensures Recovered(img)[puts[i].b] == m[i] {
      OverlayAt(img, torn, i);
    }
    forall n: BlockNum | !InJournal(n) && n !in Targets(puts) ensures Recovered(img)[n] == img[n] {
      ZipTargets(puts, m);
      OverlayMiss(img, torn, n);
    }
  }

  lemma ZipTargets(puts: seq<Put>, m: seq<Block>)
    requires |m| == |puts|
    ensures Targets(Zip(PutTargets(puts), m)) == Targets(puts)
  {
    var torn := Zip(PutTargets(puts), m);
    forall n: BlockNum | n in Targets(torn) ensures n in Targets(puts) {
      var i :| 0 <= i < |torn| && torn[i].b == n;
      assert puts[i] in puts;
    }
    forall n: BlockNum | n in Targets(puts) ensures n in Targets(torn) {
      var i :| 0 <= i < |puts| && puts[i].b == n;
      assert torn[i] in torn && torn[i].b == n;
    }
  }

  /** A torn payload makes some crash recover to neither the old nor the new image. */
  lemma Torn(st: DiskState, seqNo: u32, puts: seq<Put>, m: seq<Block>) returns (img: Image)
    requires ValidStaging(puts) && Stale(st, seqNo) && TornPayload(st, puts, m)
    ensures |puts| + 1 <= |CommitOps(seqNo, puts)|
    ensures CrashImage(Run(st, CommitOps(seqNo, puts)[..|puts| + 1]), img)
    ensures !AllOrNothing(st, puts, Recovered(img))
    ensures forall i :: 0 <= i < |puts| ==> Recovered(img)[puts[i].b] == m[i]
    ensures forall n: BlockNum :: !InJournal(n) && n !in Targets(puts) ==> Recovered(img)[n] == st.durable[n]
  {
    hide Recovered, Run, CommitOps, CrashImage, Commits, PayloadSum, Overlay;
    var d: BlockNum := 0;
    Lengths(seqNo, puts);
    TornImageCrash(st, seqNo, puts, m, d, st.durable[d]);
    TornReplay(st, seqNo, puts, m, d, st.durable[d]);
    img := TornImage(st, seqNo, puts, m)[d := st.durable[d]];
    var i :| 0 <= i < |m| && !Old(st, puts[i].b, m[i]);
    assert !CrashOutside(st, Recovered(img));
    var j :| 0 <= j < |m| && m[j] != PutBlocks(puts)[j];
    OverlayAt(View(st), puts, j);
    assert !SameOutside(Recovered(img), Overlay(View(st), puts));
  }

  /** So does a replay without an earlier direct write. */
  lemma Lost(st: DiskState, seqNo: u32, puts: seq<Put>) returns (img: Image)
    requires ValidStaging(puts) && QuietJournal(st) && Stale(st, seqNo) && LostWrite(st, puts)
    ensures |puts| + 1 <= |CommitOps(seqNo, puts)|
    ensures CrashImage(Run(st, CommitOps(seqNo, puts)[..|puts| + 1]), img)
    ensures !AllOrNothing(st, puts, Recovered(img))
  {
    hide Recovered, Run, CommitOps, CrashImage, Commits, PayloadSum, Overlay, View, TornImage;
    var p :| p in st.pending && p.b !in Targets(puts) && p.blk != st.durable[p.b];
    var i :| 0 <= i < |puts| && !Old(st, puts[i].b, puts[i].blk);
    var x: Block := if View(st)[p.b] == st.durable[p.b] then p.blk else st.durable[p.b];
    var m := PutBlocks(puts);
    assert Put(p.b, p.blk) == p;
    Lengths(seqNo, puts);
    TornImageCrash(st, seqNo, puts, m, p.b, x);
    TornReplay(st, seqNo, puts, m, p.b, x);
    img := TornImage(st, seqNo, puts, m)[p.b := x];
    assert !CrashOutside(st, Recovered(img)) by {
      assert Recovered(img)[puts[i].b] == puts[i].blk;
    }
    OverlayMiss(View(st), puts, p.b);
    assert Recovered(img)[p.b] == x != Overlay(View(st), puts)[p.b];
    assert !SameOutside(Recovered(img), Overlay(View(st), puts));
  }

  /** Rewriting the targets with old content leaves old content. */
  lemma RewriteOld(st: DiskState, img: Image, puts: seq<Put>, m: seq<Block>)
    requires CrashOutside(st, img) && |m| == |puts| && forall i :: 0 <= i < |m| ==> Old(st, puts[i].b, m[i])
    ensures CrashOutside(st, Overlay(img, Zip(PutTargets(puts), m)))
  {
    hide Overlay;
    var ps := Zip(PutTargets(puts), m);
    forall n: BlockNum | !InJournal(n) ensures Old(st, n, Overlay(img, ps)[n]) {
      if n in Targets(ps) {
        OverlayHit(img, img, ps, n);
        var i :| 0 <= i < |ps| && ps[i] == Put(n, Overlay(img, ps)[n]);
      } else {
        OverlayMiss(img, ps, n);
      }
    }
  }

  /** Without a direct write to lose, every crash image agrees with what was written outside the
      targets. */
  lemma NothingToLose(st: DiskState, img: Image, puts: seq<Put>)
    requires CrashOutside(st, img)
    requires forall p :: p in st.pending && p.b !in Targets(puts) ==> p.blk == st.durable[p.b]
    ensures SameOutside(Overlay(img, puts), Overlay(View(st), puts))
  {
    hide Overlay, View;
    ViewIsCrashImage(st);
    forall n: BlockNum | !InJournal(n) && n !in Targets(puts) ensures img[n] == View(st)[n] {
      if Put(n, img[n]) in st.pending {
        assert Put(n, img[n]).b !in Targets(puts);
      }
      if Put(n, View(st)[n]) in st.pending {
        assert Put(n, View(st)[n]).b !in Targets(puts);
      }
    }
    OverlayOutside(img, View(st), puts);
  }

  /** A crash in the prepare round, with a stale record but no hazard. */
  lemma PrepareWithoutHazard(st: DiskState, seqNo: u32, puts: seq<Put>, k: nat, img: Image)
    requires ValidStaging(puts) && QuietJournal(st) && CleanHeader(st.durable)
    requires !LostWrite(st, puts) && !exists m :: TornPayload(st, puts, m)
    requires k <= |PrepareRound(seqNo, puts)|
    requires CrashImage(st.(pending := st.pending + PrepareRound(seqNo, puts)[..k]), img)
    ensures AllOrNothing(st, puts, Recovered(img))
  {
    hide HeaderBlock, HeaderOf, Recovered, Commits, PayloadSum, Replayable, JournalPuts, Overlay, PrepareRound,
      CrashImage, View, Old;
    CrashInPrepare(st, seqNo, puts, k, img);
    RecoveredIs(img);
    ReplayableHasMagic(img);
    if Replayable(img) {
      var m := JournalBlocks(img, |puts|);
      PayloadReplay(img, seqNo, puts, m);
      assert !TornPayload(st, puts, m);
      if m == PutBlocks(puts) {
        assert Zip(PutTargets(puts), m) == puts;
      }
      if forall i :: 0 <= i < |m| ==> Old(st, puts[i].b, m[i]) {
        RewriteOld(st, img, puts, m);
      } else {
        assert m == PutBlocks(puts);
        NothingToLose(st, img, puts);
      }
    }
  }

  /** A transaction begun on a clean journal, with direct writes pending or not, is crash-atomic
      exactly when there is no hazard. */
  lemma AtomicExactly(st: DiskState, seqNo: u32, puts: seq<Put>)
    requires ValidStaging(puts) && QuietJournal(st) && CleanHeader(st.durable)
    ensures Atomic(st, seqNo, puts) <==> !StaleHazard(st, seqNo, puts)
  {
    hide Recovered, Run, CommitOps, TornPayload, LostWrite, CleanHeader, CrashImage, Stale, AllOrNothing;
    if StaleHazard(st, seqNo, puts) {
      if LostWrite(st, puts) {
        var img := Lost(st, seqNo, puts);
      } else {
        var m :| TornPayload(st, puts, m);
        var img := Torn(st, seqNo, puts, m);
      }
    } else {
      forall k: nat, img: Image |
        k <= |CommitOps(seqNo, puts)| && CrashImage(Run(st, CommitOps(seqNo, puts)[..k]), img)
        ensures AllOrNothing(st, puts, Recovered(img))
      {
        if Stale(st, seqNo) {
          CommitWithoutHazard(st, seqNo, puts, k, img);
        } else {
          CommitAtomic(st, seqNo, puts, k, img);
        }
      }
    }
  }

  lemma CommitWithoutHazard(st: DiskState, seqNo: u32, puts: seq<Put>, k: nat, img: Image)
    requires ValidStaging(puts) && QuietJournal(st) && CleanHeader(st.durable)
    requires !LostWrite(st, puts) && !exists m :: TornPayload(st, puts, m)
    requires k <= |CommitOps(seqNo, puts)|
    requires CrashImage(Run(st, CommitOps(seqNo, puts)[..k]), img)
    ensures AllOrNothing(st, puts, Recovered(img))
  {
    hide Overlay, View, Recovered, Prepared, Committed, Applied, Commits, Replayable, Run, CommitOps, TornPayload,
      LostWrite, PrepareRound, HeaderOf;
    CommitPrefix(st, seqNo, puts, k);
    Lengths(seqNo, puts);
    ViewIsCrashImage(st);
    var n := |puts|;
    if k <= n + 1 {
      PrepareWithoutHazard(st, seqNo, puts, k, img);
    } else if k <= n + 3 {
      CrashInCommit(st, seqNo, puts, k - n - 2, img);
    } else if k <= 2 * n + 4 {
      CrashInApply(st, seqNo, puts, k - n - 4, img);
    } else if k <= 2 * n + 7 {
      CrashInClear(st, seqNo, puts, k - 2 * n - 5, img);
    } else {
      CommitDone(st, seqNo, puts);
      RecoveredIs(img);
    }
  }

  // ---- the hazard is reachable ----

  /** A crash in step 5 can clear the header and leave the commit record; recovery then stops at the
      missing magic number and leaves the record where it is. */
  lemma StaleRecordSurvives(st: DiskState, seqNo: u32, puts: seq<Put>) returns (k: nat, img: Image)
    requires ValidStaging(puts)
    ensures k <= |CommitOps(seqNo, puts)| && CrashImage(Run(st, CommitOps(seqNo, puts)[..k]), img)
    ensures Recovered(img) == img && CleanHeader(img) && Stale(DiskState(img, []), seqNo)
    ensures SameOutside(img, Overlay(View(st), puts))
    ensures forall i :: 0 <= i < |puts| ==> img[JournalSlot(i)] == puts[i].blk
  {
    hide Overlay, View, Recovered, Applied, Commits, Run, CommitOps, HeaderOf, ZeroBlock, HeaderBlock, CommitBlock;
    k := 2 * |puts| + 7;
    Lengths(seqNo, puts);
    CommitPrefix(st, seqNo, puts, k);
    AppliedIs(st, seqNo, puts);
    var a := Applied(st, seqNo, puts);
    img := a[JOURNAL_START := ZeroBlock()];
    assert ClearRound()[..2][0] == Put(JOURNAL_START, ZeroBlock());
    ZeroRecords(0);
    RecoveredIs(img);
    CommitRoundTrip(seqNo, seqNo);
  }

  /** Two processes, each running its first transaction under the same sequence number: the first
      crashes in step 5, the second in step 2, and recovery then installs one block of the second
      transaction and not the other, because two blocks with equal byte sums look alike. */
  lemma TwoProcessTear(st: DiskState, seqNo: u32, t0: u32, t1: u32, a0: Block, a1: Block, b0: Block, b1: Block)
    returns (k: nat, img: Image, k': nat, img': Image)
    requires ValidTarget(t0) && ValidTarget(t1) && t0 != t1
    requires a0 != b0 && a1 != b1 && ByteSum(a1) == ByteSum(b1)
    ensures k <= |CommitOps(seqNo, [Put(t0, a0), Put(t1, a1)])|
    ensures CrashImage(Run(st, CommitOps(seqNo, [Put(t0, a0), Put(t1, a1)])[..k]), img)
    ensures k' <= |CommitOps(seqNo, [Put(t0, b0), Put(t1, b1)])|
    ensures CrashImage(Run(DiskState(Recovered(img), []), CommitOps(seqNo, [Put(t0, b0), Put(t1, b1)])[..k']), img')
    ensures Recovered(img)[t0] == a0 && Recovered(img)[t1] == a1
    ensures Recovered(img')[t0] == b0 && Recovered(img')[t1] == a1
  {
    hide Overlay, View, Recovered, Run, CommitOps, Commits, ByteSum, CrashImage;
    var p, q := [Put(t0, a0), Put(t1, a1)], [Put(t0, b0), Put(t1, b1)];
    k, img := StaleRecordSurvives(st, seqNo, p);
    OverlayAt(View(st), p, 0);
    OverlayAt(View(st), p, 1);
    var st' := DiskState(img, []);
    var m := [b0, a1];
    assert m[..1] == PutBlocks(q)[..1];
    assert PutBlocks(q)[0] == b0 && PutBlocks(q)[1] == b1;
    assert PutBlocks(q)[..1] == [b0];
    assert img[JournalSlot(1)] == p[1].blk == a1;
    assert !Old(st', q[0].b, m[0]);
    assert TornPayload(st', q, m);
    k' := 3;
    img' := Torn(st', seqNo, q, m);
    assert q[0].b == t0 && q[1].b == t1;
  }

  /** The same with a transaction of one block: over a disk with a stale record and another block of
      the same byte sum in the first journal slot, recovery can install that block in its place. */
  lemma OneBlockTear(d: Image, seqNo: u32, t: u32, a: Block, b: Block) returns (k: nat, img: Image)
    requires ValidTarget(t) && Stale(DiskState(d, []), seqNo) && d[JournalSlot(0)] == a
    requires a != b && ByteSum(a) == ByteSum(b) && d[t] != a
    ensures k <= |CommitOps(seqNo, [Put(t, b)])|
    ensures CrashImage(Run(DiskState(d, []), CommitOps(seqNo, [Put(t, b)])[..k]), img)
    ensures Recovered(img)[t] == a && !AllOrNothing(DiskState(d, []), [Put(t, b)], Recovered(img))
  {
    hide Overlay, View, Recovered, Run, CommitOps, Commits, ByteSum, CrashImage, AllOrNothing, HeaderOf;
    var st, q, m := DiskState(d, []), [Put(t, b)], [a];
    assert PutBlocks(q) == [b] && m[..0] == PutBlocks(q)[..0];
    assert !Old(st, q[0].b, m[0]);
    assert TornPayload(st, q, m);
    k := 2;
    img := Torn(st, seqNo, q, m);
    assert q[0].b == t;
  }
}
