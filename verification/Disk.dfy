/** The block disk under ufs_read_block, ufs_write_block and ufs_sync_image (src/userfs.c).
    Writes are visible at once but durable only after a sync; a crash keeps any of the
    unsynced writes, each block whole. */
module Disk {
  import opened Layout

  type BlockNum = b: nat | b < TOTAL_BLOCKS

  datatype Put = Put(b: BlockNum, blk: Block)

  datatype Op = Write(put: Put) | Sync

  datatype DiskState = DiskState(durable: Image, pending: seq<Put>)

  /** The image after a list of block writes, the last write to a block winning. */
  function Overlay(img: Image, puts: seq<Put>): Image {
    if puts == [] then img
    else
      var last := puts[|puts| - 1];
      Overlay(img, puts[..|puts| - 1])[last.b := last.blk]
  }

  /** What a read returns. */
  function View(st: DiskState): Image { Overlay(st.durable, st.pending) }

  function Step(st: DiskState, op: Op): DiskState {
    match op
    case Write(put) => st.(pending := st.pending + [put])
    case Sync => DiskState(View(st), [])
  }

  function Run(st: DiskState, ops: seq<Op>): DiskState {
    if ops == [] then st else Step(Run(st, ops[..|ops| - 1]), ops[|ops| - 1])
  }

  function Writes(puts: seq<Put>): (ops: seq<Op>)
    ensures |ops| == |puts|
  {
    seq(|puts|, i requires 0 <= i < |puts| => Write(puts[i]))
  }

  /** img is a possible durable image after a crash in st. */
  ghost predicate CrashImage(st: DiskState, img: Image) {
    forall b: BlockNum :: img[b] == st.durable[b] || Put(b, img[b]) in st.pending
  }

  function Targets(puts: seq<Put>): set<BlockNum> { set p | p in puts :: p.b }

  // ---- lemmas about overlays and runs ----

  lemma {:induction false} OverlayAppend(img: Image, a: seq<Put>, b: seq<Put>)
    ensures Overlay(img, a + b) == Overlay(Overlay(img, a), b)
  {
    if b == [] {
      assert a + b == a;
    } else {
      assert (a + b)[..|a + b| - 1] == a + b[..|b| - 1];
      OverlayAppend(img, a, b[..|b| - 1]);
    }
  }

  lemma {:induction false} OverlayMiss(img: Image, puts: seq<Put>, b: BlockNum)
    requires b !in Targets(puts)
    ensures Overlay(img, puts)[b] == img[b]
  {
    if puts != [] {
      var init := puts[..|puts| - 1];
      assert puts[|puts| - 1] in puts;
      assert forall p :: p in init ==> p in puts;
      OverlayMiss(img, init, b);
    }
  }

  /** A block written by the list holds one of its images, whatever lay below. */
  lemma {:induction false} OverlayHit(img: Image, img': Image, puts: seq<Put>, b: BlockNum)
    requires b in Targets(puts)
    ensures Put(b, Overlay(img, puts)[b]) in puts
    ensures Overlay(img, puts)[b] == Overlay(img', puts)[b]
  {
    var init, last := puts[..|puts| - 1], puts[|puts| - 1];
    if last.b == b {
      assert last in puts;
    } else {
      assert puts == init + [last];
      OverlayHit(img, img', init, b);
    }
  }

  predicate DistinctTargets(puts: seq<Put>) {
    forall i, j :: 0 <= i < j < |puts| ==> puts[i].b != puts[j].b
  }

  /** With distinct targets, every listed write is the one that shows. */
  lemma {:induction false} OverlayAt(img: Image, puts: seq<Put>, i: nat)
    requires i < |puts| && DistinctTargets(puts)
    ensures Overlay(img, puts)[puts[i].b] == puts[i].blk
  {
    if i < |puts| - 1 {
      OverlayAt(img, puts[..|puts| - 1], i);
    }
  }

  lemma {:induction false} RunAppend(st: DiskState, a: seq<Op>, b: seq<Op>)
    ensures Run(st, a + b) == Run(Run(st, a), b)
  {
    if b == [] {
      assert a + b == a;
    } else {
      assert (a + b)[..|a + b| - 1] == a + b[..|b| - 1];
      RunAppend(st, a, b[..|b| - 1]);
    }
  }

  lemma {:induction false} RunWrites(st: DiskState, puts: seq<Put>)
    ensures Run(st, Writes(puts)) == st.(pending := st.pending + puts)
  {
    if puts == [] {
      assert st.pending + puts == st.pending;
    } else {
      var init := puts[..|puts| - 1];
      assert Writes(puts)[..|puts| - 1] == Writes(init);
      RunWrites(st, init);
      assert st.pending + puts == (st.pending + init) + [puts[|puts| - 1]];
    }
  }

  /** A round of writes followed by a sync. */
  function Round(puts: seq<Put>): seq<Op> { Writes(puts) + [Sync] }

  /** Where a run that begins with a round has got to after k steps: still inside the round,
      or past its sync with the round durable. */
  lemma RoundPrefix(st: DiskState, puts: seq<Put>, rest: seq<Op>, k: nat)
    requires k <= |puts| + 1 + |rest|
    ensures k <= |puts| ==> Run(st, (Round(puts) + rest)[..k]) == st.(pending := st.pending + puts[..k])
    ensures k > |puts| ==>
              Run(st, (Round(puts) + rest)[..k])
              == Run(DiskState(Overlay(View(st), puts), []), rest[..k - |puts| - 1])
  {
    var ops := Round(puts) + rest;
    if k <= |puts| {
      assert ops[..k] == Writes(puts[..k]);
      RunWrites(st, puts[..k]);
    } else {
      var j := k - |puts| - 1;
      assert ops[..k] == Round(puts) + rest[..j];
      RunAppend(st, Round(puts), rest[..j]);
      assert Round(puts)[..|puts|] == Writes(puts);
      RunWrites(st, puts);
      OverlayAppend(st.durable, st.pending, puts);
    }
  }

  /** A complete round. */
  lemma RoundWhole(st: DiskState, puts: seq<Put>, rest: seq<Op>)
    ensures Run(st, Round(puts) + rest) == Run(DiskState(Overlay(View(st), puts), []), rest)
  {
    var k := |puts| + 1 + |rest|;
    RoundPrefix(st, puts, rest, k);
    assert (Round(puts) + rest)[..k] == Round(puts) + rest;
    assert rest[..k - |puts| - 1] == rest;
  }

  /** The image file. The ghost fields record what is durable and every operation issued. */
  class BlockDisk {
    var image: Image
    ghost var start: DiskState
    ghost var trace: seq<Op>

    ghost predicate Valid()
      reads this
    {
      image == View(Run(start, trace))
    }

    ghost function State(): DiskState
      reads this
    {
      Run(start, trace)
    }

    constructor (img: Image)
      ensures Valid() && image == img && State() == DiskState(img, []) && trace == []
    {
      image, start, trace := img, DiskState(img, []), [];
    }

    method ReadBlock(b: u32) returns (r: Result<Block>)
      ensures r == if b < TOTAL_BLOCKS then Ok(image[b]) else Err(EINVAL)
    {
      if b >= TOTAL_BLOCKS {
        return Err(EINVAL);
      }
      return Ok(image[b]);
    }

    method WriteBlock(b: u32, blk: Block) returns (ok: bool)
      requires Valid()
      modifies this`image, this`trace
      ensures Valid()
      ensures ok == (b < TOTAL_BLOCKS)
      ensures ok ==> image == old(image)[b := blk] && trace == old(trace) + [Write(Put(b, blk))]
      ensures !ok ==> image == old(image) && trace == old(trace)
    {
      if b >= TOTAL_BLOCKS {
        return false;
      }
      image := image[b := blk];
      ghost var op := Write(Put(b, blk));
      ghost var pending := State().pending;
      assert (trace + [op])[..|trace|] == trace;
      assert (pending + [op.put])[..|pending|] == pending;
      trace := trace + [op];
      return true;
    }

    method SyncImage()
      requires Valid()
      modifies this`trace
      ensures Valid() && trace == old(trace) + [Sync]
      ensures State() == DiskState(image, [])
    {
      assert (trace + [Sync])[..|trace|] == trace;
      trace := trace + [Sync];
    }
  }
}
