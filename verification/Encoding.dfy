/** How the records of ufs_internal.h lie in 512-byte blocks: little-endian words,
    128-byte inodes, 64-byte directory entries, and one bit per block or inode. */
module Encoding {
  import opened Layout

  // ---- little-endian words ----

  function WordByte(w: u32, j: nat): byte
    requires j < 4
  {
    if j == 0 then w % 256
    else if j == 1 then w / 256 % 256
    else if j == 2 then w / 65536 % 256
    else w / 16777216
  }

  function Word(bs: Bytes, k: nat): u32
    requires 4 * k + 4 <= |bs|
  {
    bs[4 * k] as int + 256 * bs[4 * k + 1] as int + 65536 * bs[4 * k + 2] as int + 16777216 * bs[4 * k + 3] as int
  }

  function PutWords(ws: Words): (bs: Bytes)
    ensures |bs| == 4 * |ws|
  {
    seq(4 * |ws|, p requires 0 <= p < 4 * |ws| => WordByte(ws[p / 4], p % 4))
  }

  function GetWords(bs: Bytes): (ws: Words)
    requires |bs| % 4 == 0
    ensures |ws| == |bs| / 4
  {
    seq(|bs| / 4, k requires 0 <= k < |bs| / 4 => Word(bs, k))
  }

  lemma WordOfBytes(w: u32)
    ensures WordByte(w, 0) + 256 * WordByte(w, 1) + 65536 * WordByte(w, 2) + 16777216 * WordByte(w, 3) == w
  {
    assert w / 65536 == w / 256 / 256;
    assert w / 16777216 == w / 256 / 256 / 256;
  }

  lemma BytesOfWord(a: byte, b: byte, c: byte, d: byte)
    ensures var w: u32 := a + 256 * b + 65536 * c + 16777216 * d;
            WordByte(w, 0) == a && WordByte(w, 1) == b && WordByte(w, 2) == c && WordByte(w, 3) == d
  {
    var w: u32 := a + 256 * b + 65536 * c + 16777216 * d;
    assert w / 256 == b + 256 * c + 65536 * d;
    assert w / 65536 == c + 256 * d;
    assert w / 16777216 == d;
  }

  lemma WordOfPut(ws: Words, k: nat)
    requires k < |ws|
    ensures Word(PutWords(ws), k) == ws[k]
  {
    hide WordByte;
    var bs := PutWords(ws);
    assert (4 * k + 1) / 4 == k && (4 * k + 2) / 4 == k && (4 * k + 3) / 4 == k;
    WordOfBytes(ws[k]);
  }

  /** Storing words and loading them back gives the same words. */
  lemma GetPutWords(ws: Words)
    ensures GetWords(PutWords(ws)) == ws
  {
    hide Word, PutWords;
    forall k | 0 <= k < |ws| ensures GetWords(PutWords(ws))[k] == ws[k] {
      WordOfPut(ws, k);
    }
  }

  /** Loading a word-aligned region and storing it back changes nothing. */
  lemma PutGetWords(bs: Bytes)
    requires |bs| % 4 == 0
    ensures PutWords(GetWords(bs)) == bs
  {
    forall p | 0 <= p < |bs| ensures PutWords(GetWords(bs))[p] == bs[p] {
      var k := p / 4;
      BytesOfWord(bs[4 * k], bs[4 * k + 1], bs[4 * k + 2], bs[4 * k + 3]);
    }
  }

  // ---- blocks of 128 words: pointer blocks and journal records ----

  function BlockWords(b: Block): WordBlock { GetWords(b) }

  function WordsBlock(w: WordBlock): Block { PutWords(w) }

  lemma BlockWordsRoundTrip(w: WordBlock)
    ensures BlockWords(WordsBlock(w)) == w
  {
    GetPutWords(w);
  }

  lemma WordsBlockRoundTrip(b: Block)
    ensures WordsBlock(BlockWords(b)) == b
  {
    PutGetWords(b);
  }

  // ---- inodes ----

  function InodeWords(ino: Inode): (ws: Words)
    ensures |ws| == 32
  {
    [ino.itype, ino.flags, ino.mode, ino.uid, ino.gid, ino.links,
     ino.size % 0x1_0000_0000, ino.size / 0x1_0000_0000, ino.blockCount]
    + ino.direct + [ino.single, ino.double, ino.generation] + ino.times
  }

  function InodeOfWords(ws: Words): Inode
    requires |ws| == 32
  {
    Inode(ws[0], ws[1], ws[2], ws[3], ws[4], ws[5], ws[6] as int + 0x1_0000_0000 * ws[7] as int, ws[8],
          ws[9..17], ws[17], ws[18], ws[19], ws[20..])
  }

  lemma InodeWordsRoundTrip(ino: Inode)
    ensures InodeOfWords(InodeWords(ino)) == ino
  {
    var ws := InodeWords(ino);
    assert ws[9..17] == ino.direct;
    assert ws[20..] == ino.times;
  }

  function InodeBytes(ino: Inode): (bs: Bytes)
    ensures |bs| == INODE_SIZE
  {
    PutWords(InodeWords(ino))
  }

  function InodeOfBytes(bs: Bytes): Inode
    requires |bs| == INODE_SIZE
  {
    InodeOfWords(GetWords(bs))
  }

  lemma InodeRoundTrip(ino: Inode)
    ensures InodeOfBytes(InodeBytes(ino)) == ino
  {
    GetPutWords(InodeWords(ino));
    InodeWordsRoundTrip(ino);
  }

  // ---- memcpy into a buffer ----

  function Splice(bs: Bytes, at: nat, part: Bytes): (r: Bytes)
    requires at + |part| <= |bs|
    ensures |r| == |bs|
    ensures forall p :: 0 <= p < |bs| ==> r[p] == if at <= p < at + |part| then part[p - at] else bs[p]
  {
    bs[..at] + part + bs[at + |part|..]
  }

  // ---- directory entries ----

  datatype Dirent = Dirent(used: bool, inum: u32, dtype: u32, name: Bytes)

  predicate NulFree(s: Bytes) { forall k :: 0 <= k < |s| ==> s[k] != 0 }

  predicate ValidName(name: Bytes) { 0 < |name| <= MAX_NAME && NulFree(name) }

  /** The bytes before the first NUL, as strcmp sees them. */
  function CString(bs: Bytes): (s: Bytes)
    ensures NulFree(s) && |s| <= |bs|
    ensures s == bs[..|s|] && (|s| < |bs| ==> bs[|s|] == 0)
  {
    if bs == [] || bs[0] == 0 then [] else [bs[0]] + CString(bs[1..])
  }

  lemma CStringUnique(bs: Bytes, s: Bytes)
    requires NulFree(s) && |s| < |bs| && bs[..|s|] == s && bs[|s|] == 0
    ensures CString(bs) == s
  {
    var t := CString(bs);
    assert forall k :: 0 <= k < |s| ==> bs[k] == s[k] != 0;
    assert forall k :: 0 <= k < |t| ==> bs[k] == t[k] != 0;
  }

  function DirentBytes(e: Dirent): (bs: Bytes)
    requires |e.name| <= MAX_NAME
    ensures |bs| == DIRENT_SIZE
  {
    PutWords([if e.used then 1 else 0, e.inum, e.dtype]) + (e.name + seq(DIRENT_SIZE - 12 - |e.name|, _ => 0))
  }

  function DirentOfBytes(bs: Bytes): Dirent
    requires |bs| == DIRENT_SIZE
  {
    Dirent(Word(bs, 0) != 0, Word(bs, 1), Word(bs, 2), CString(bs[12..44]))
  }

  lemma DirentRoundTrip(e: Dirent)
    requires |e.name| <= MAX_NAME && NulFree(e.name)
    ensures DirentOfBytes(DirentBytes(e)) == e
  {
    hide PutWords, Word, CString;
    var ws: Words := [if e.used then 1 else 0, e.inum, e.dtype];
    WordsPrefix(ws, e.name + seq(DIRENT_SIZE - 12 - |e.name|, _ => 0));
    NameField(e);
  }

  /** Words stored at the front of a region read back. */
  lemma WordsPrefix(ws: Words, rest: Bytes)
    ensures forall k :: 0 <= k < |ws| ==> Word(PutWords(ws) + rest, k) == ws[k]
  {
    GetPutWords(ws);
    forall k | 0 <= k < |ws| ensures Word(PutWords(ws) + rest, k) == ws[k] {
      assert Word(PutWords(ws) + rest, k) == Word(PutWords(ws), k) == GetWords(PutWords(ws))[k];
    }
  }

  lemma NameField(e: Dirent)
    requires |e.name| <= MAX_NAME && NulFree(e.name)
    ensures CString(DirentBytes(e)[12..44]) == e.name
  {
    var field := DirentBytes(e)[12..44];
    assert field == e.name + seq(32 - |e.name|, _ => 0);
    assert field[..|e.name|] == e.name;
    CStringUnique(field, e.name);
  }

  /** A zero-filled slot is an unused entry. */
  lemma ZeroDirent(bs: Bytes)
    requires |bs| == DIRENT_SIZE && forall p :: 0 <= p < DIRENT_SIZE ==> bs[p] == 0
    ensures DirentOfBytes(bs) == Dirent(false, 0, 0, [])
  {
    CStringUnique(bs[12..44], []);
  }

  // ---- bits ----

  /** Bit k of x, that is (x >> k) & 1. */
  predicate Bit(x: nat, k: nat) {
    if k == 0 then x % 2 == 1 else Bit(x / 2, k - 1)
  }

  /** x | (1 << k) */
  function OrBit(x: nat, k: nat): nat {
    if k == 0 then x / 2 * 2 + 1 else OrBit(x / 2, k - 1) * 2 + x % 2
  }

  /** x & ~(1 << k) */
  function AndNotBit(x: nat, k: nat): nat {
    if k == 0 then x / 2 * 2 else AndNotBit(x / 2, k - 1) * 2 + x % 2
  }

  lemma {:induction false} OrBitOthers(x: nat, k: nat, j: nat)
    ensures Bit(OrBit(x, k), j) == (j == k || Bit(x, j))
  {
    if k > 0 && j > 0 {
      OrBitOthers(x / 2, k - 1, j - 1);
    }
  }

  lemma {:induction false} AndNotBitOthers(x: nat, k: nat, j: nat)
    ensures Bit(AndNotBit(x, k), j) == (j != k && Bit(x, j))
  {
    if k > 0 && j > 0 {
      AndNotBitOthers(x / 2, k - 1, j - 1);
    }
  }

  /** Setting or clearing one of the low eight bits of a byte gives a byte. */
  lemma BitInByte(x: byte, k: nat)
    requires k < 8
    ensures OrBit(x, k) < 256 && AndNotBit(x, k) < 256
  {
    BitBelow(x, k, 8);
  }

  lemma {:induction false} BitBelow(x: nat, k: nat, n: nat)
    requires k < n && x < Pow2(n)
    ensures OrBit(x, k) < Pow2(n) && AndNotBit(x, k) < Pow2(n)
  {
    if k > 0 {
      BitBelow(x / 2, k - 1, n - 1);
    }
  }

  function Pow2(n: nat): nat { if n == 0 then 1 else 2 * Pow2(n - 1) }

  predicate BitAt(bm: Bytes, bit: nat)
    requires bit / 8 < |bm|
  {
    Bit(bm[bit / 8], bit % 8)
  }

  function Bits(bm: Bytes): (bits: seq<bool>)
    ensures |bits| == 8 * |bm|
  {
    seq(8 * |bm|, i requires 0 <= i < 8 * |bm| => BitAt(bm, i))
  }
}
