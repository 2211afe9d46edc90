/** What reads, writes, seeks and mappings mean together: a descriptor is a position in one byte
    sequence per file, and its flags say what it may do. */
module FileLaws {
  import opened Layout
  import opened Context
  import opened Ownership
  import opened FileContent
  import opened Resolve
  import opened FileTree
  import opened Effects
  import opened FileIo
  import opened Mmap

  /** The bytes of the file behind descriptor fd. */
  ghost function FileOf(fs: Fs, ds: seq<Descriptor>, fd: nat): (c: Bytes)
    requires fd < |ds| && ds[fd].inum as nat in TreeOf(fs)
  {
    TreeOf(fs)[ds[fd].inum as nat].content
  }

  lemma FileIs(fs: Fs, ds: seq<Descriptor>, fd: nat)
    requires HandlesOk(TreeOf(fs), ds) && fd < |ds| && ds[fd].inUse
    ensures TrustedAll(fs, ds) && ds[fd].inum < |fs.inodes| && ds[fd].inum as nat in TreeOf(fs)
    ensures fs.inodes[ds[fd].inum].generation == ds[fd].generation
    ensures FileOf(fs, ds, fd) == Content(fs, ds[fd].inum) && |FileOf(fs, ds, fd)| == fs.inodes[ds[fd].inum].size
  {
    hide NodeOf, Content, WriteEffect;
    HandlesKept(fs, ds, fd, 0, []);
    HandleTrusted(fs, ds, fd);
    NodeLinks(fs, ds[fd].inum);
  }

  // ---- one write ----

  /** The position a write starts at: bit 2 of the flags means the end of the file. */
  ghost function StartOf(fs: Fs, ds: seq<Descriptor>, fd: nat): nat
    requires fd < |ds| && ds[fd].inum as nat in TreeOf(fs)
  {
    if ds[fd].flags / 4 % 2 == 1 then |FileOf(fs, ds, fd)| else ds[fd].offset
  }

  /** c' is c with buf at start, zeros in the gap if there is one. */
  ghost predicate Written(c: Bytes, start: nat, buf: Bytes, c': Bytes) {
    && |c'| == (if start + |buf| > |c| then start + |buf| else |c|)
    && forall p :: 0 <= p < |c'| ==>
         c'[p] == if start <= p < start + |buf| then buf[p - start] else if p < |c| then c[p] else 0
  }

  lemma WriteAtIs(c: Bytes, start: nat, buf: Bytes)
    ensures Written(c, start, buf, WriteAt(c, start, buf))
  {
  }

  lemma WrittenOnce(c: Bytes, start: nat, buf: Bytes, x: Bytes, y: Bytes)
    requires Written(c, start, buf, x) && Written(c, start, buf, y)
    ensures x == y
  {
  }

  /** What a successful write of at least one byte does: it takes all of the buffer, leaves its
      descriptor behind the last byte and every other one alone, and changes this file only. */
  lemma WriteMeans(fs: Fs, ds: seq<Descriptor>, fd: int, buf: Bytes)
    requires HandlesOk(TreeOf(fs), ds) && TrustedAll(fs, ds) && buf != [] && WriteEffect(fs, ds, fd, buf).0.Ok?
    ensures 0 <= fd < |ds| && ds[fd].inUse && ds[fd].flags % 4 != 1 && ds[fd].inum as nat in TreeOf(fs)
    ensures var start, (r, ds', t') := StartOf(fs, ds, fd), WriteEffect(fs, ds, fd, buf);
            && r == Ok(|buf|) && start + |buf| <= INT64_MAX
            && ds' == ds[fd := ds[fd].(offset := start + |buf|)]
            && ds[fd].inum as nat in t' && Written(FileOf(fs, ds, fd), start, buf, t'[ds[fd].inum as nat].content)
            && t' == TreeOf(fs)[ds[fd].inum as nat :=
                 TreeOf(fs)[ds[fd].inum as nat].(content := t'[ds[fd].inum as nat].content)]
  {
    hide NodeOf, WriteAt, Content, TreeOf, Written;
    FileIs(fs, ds, fd);
    var start := StartOf(fs, ds, fd);
    TooFar(fs, ds[fd].inum, start, |buf|);
    WriteAtIs(FileOf(fs, ds, fd), start, buf);
  }

  /** Writing a, then b, is writing a + b. */
  lemma WriteTwice(fs: Fs, ds: seq<Descriptor>, fd: int, a: Bytes, fs1: Fs, b: Bytes)
    requires HandlesOk(TreeOf(fs), ds) && TrustedAll(fs, ds) && a != [] && b != []
    requires WriteEffect(fs, ds, fd, a).0.Ok? && TreeOf(fs1) == WriteEffect(fs, ds, fd, a).2
    requires TrustedAll(fs1, WriteEffect(fs, ds, fd, a).1)
    requires WriteEffect(fs1, WriteEffect(fs, ds, fd, a).1, fd, b).0.Ok?
    ensures 0 <= fd < |ds| && ds[fd].inum as nat in TreeOf(fs)
    ensures var start, (_, ds2, t2) := StartOf(fs, ds, fd), WriteEffect(fs1, WriteEffect(fs, ds, fd, a).1, fd, b);
            && start + |a| + |b| <= INT64_MAX && ds2 == ds[fd := ds[fd].(offset := start + |a| + |b|)]
            && ds[fd].inum as nat in t2
            && Written(FileOf(fs, ds, fd), start, a + b, t2[ds[fd].inum as nat].content)
            && (WriteEffect(fs, ds, fd, a + b).0.Ok? ==>
                  ds2 == WriteEffect(fs, ds, fd, a + b).1 && t2 == WriteEffect(fs, ds, fd, a + b).2)
  {
    hide WriteEffect, TreeOf, Written, HandlesOk, TrustedAll;
    var ds1, t1 := WriteEffect(fs, ds, fd, a).1, WriteEffect(fs, ds, fd, a).2;
    HandlesKept(fs, ds, fd, 0, a);
    WriteMeans(fs, ds, fd, a);
    WriteMeans(fs1, ds1, fd, b);
    var i, t2 := ds[fd].inum as nat, WriteEffect(fs1, ds1, fd, b).2;
    assert FileOf(fs1, ds1, fd) == t1[i].content;
    WrittenTwice(FileOf(fs, ds, fd), StartOf(fs, ds, fd), a, t1[i].content, StartOf(fs1, ds1, fd), b, t2[i].content);
    if WriteEffect(fs, ds, fd, a + b).0.Ok? {
      WriteMeans(fs, ds, fd, a + b);
      WrittenOnce(FileOf(fs, ds, fd), StartOf(fs, ds, fd), a + b, t2[i].content,
        WriteEffect(fs, ds, fd, a + b).2[i].content);
    }
  }

  lemma WrittenTwice(c: Bytes, start: nat, a: Bytes, c1: Bytes, start1: nat, b: Bytes, c2: Bytes)
    requires Written(c, start, a, c1) && Written(c1, start1, b, c2)
    requires start1 == start + |a| || (start == |c| && start1 == |c1|)
    ensures start1 == start + |a| && Written(c, start, a + b, c2)
  {
  }

  // ---- reading back ----

  /** After a write, a descriptor that may also read and is moved back reads what was written. */
  lemma ReadBack(fs: Fs, ds: seq<Descriptor>, fd: int, buf: Bytes, fs1: Fs)
    requires HandlesOk(TreeOf(fs), ds) && TrustedAll(fs, ds) && buf != [] && WriteEffect(fs, ds, fd, buf).0.Ok?
    requires TreeOf(fs1) == WriteEffect(fs, ds, fd, buf).2 && TrustedAll(fs1, WriteEffect(fs, ds, fd, buf).1)
    ensures 0 <= fd < |ds| && ds[fd].inum as nat in TreeOf(fs)
    ensures var start, ds1 := StartOf(fs, ds, fd), WriteEffect(fs, ds, fd, buf).1;
            && SeekOutcome(fs1, ds1, fd, start, SeekSet) == SeekOutcome(fs1, ds1, fd, -|buf|, SeekCur) == Ok(start)
            && TrustedAll(fs1, Moved(ds1, fd, start))
            && (ds[fd].flags % 4 != 2 ==> ReadOutcome(fs1, Moved(ds1, fd, start), fd, |buf|) == Ok(buf))
  {
    hide WriteEffect, TreeOf, HandlesOk, TrustedAll, Content;
    HandlesKept(fs, ds, fd, 0, buf);
    WriteMeans(fs, ds, fd, buf);
    var start, ds1 := StartOf(fs, ds, fd), WriteEffect(fs, ds, fd, buf).1;
    FileIs(fs1, ds1, fd);
    HandlesKept(fs1, ds1, fd, start, []);
    FileIs(fs1, Moved(ds1, fd, start), fd);
    var c := FileOf(fs1, ds1, fd);
    assert c[start..start + |buf|] == buf;
  }

  /** The table a successful read leaves, its descriptor behind the bytes read. */
  ghost function AfterRead(fs: Fs, ds: seq<Descriptor>, fd: int, n: nat): seq<Descriptor>
    requires TrustedAll(fs, ds) && ReadOutcome(fs, ds, fd, n).Ok?
  {
    Moved(ds, fd, ds[fd].offset + |ReadOutcome(fs, ds, fd, n).value|)
  }

  /** Reading n bytes, then m, is reading n + m. */
  lemma ReadTwice(fs: Fs, o: Owner, ds: seq<Descriptor>, fd: int, n: nat, m: nat)
    requires FsInv(fs, o) && HandlesOk(TreeOf(fs), ds) && TrustedAll(fs, ds)
    requires ReadOutcome(fs, ds, fd, n).Ok? && n + m <= INT64_MAX
    ensures var first, ds1 := ReadOutcome(fs, ds, fd, n).value, AfterRead(fs, ds, fd, n);
            && TrustedAll(fs, ds1) && ReadOutcome(fs, ds1, fd, m).Ok?
            && ReadOutcome(fs, ds, fd, n + m) == Ok(first + ReadOutcome(fs, ds1, fd, m).value)
  {
    hide NodeOf, Content, HandlesOk, TrustedAll, FsInv;
    FileIs(fs, ds, fd);
    HandleTrusted(fs, ds, fd);
    FileLimit(fs, o, ds[fd].inum);
    var first := ReadOutcome(fs, ds, fd, n).value;
    var c, at := Content(fs, ds[fd].inum), ds[fd].offset;
    var ds1 := AfterRead(fs, ds, fd, n);
    HandlesKept(fs, ds, fd, at + |first|, []);
    FileIs(fs, ds1, fd);
    assert first == ReadSlice(c, at, n);
    SlicesJoin(c, at, n, m);
  }

  lemma SlicesJoin(c: Bytes, at: nat, n: nat, m: nat)
    ensures var first := ReadSlice(c, at, n); ReadSlice(c, at, n + m) == first + ReadSlice(c, at + |first|, m)
    ensures ReadSlice(c, at, 0) == []
  {
  }

  /** What a read returns: the bytes from the offset on, as many as asked for or as there are. */
  lemma ReadMeans(fs: Fs, ds: seq<Descriptor>, fd: int, n: nat)
    requires HandlesOk(TreeOf(fs), ds) && TrustedAll(fs, ds) && ReadOutcome(fs, ds, fd, n).Ok?
    ensures 0 <= fd < |ds| && ds[fd].inUse && ds[fd].flags % 4 != 2 && ds[fd].inum as nat in TreeOf(fs)
    ensures var r, c := ReadOutcome(fs, ds, fd, n).value, FileOf(fs, ds, fd);
            && |r| <= n && (|r| < n ==> ds[fd].offset + |r| >= |c|) && (r != [] ==> ds[fd].offset + |r| <= |c|)
            && forall k :: 0 <= k < |r| ==> r[k] == c[ds[fd].offset + k]
  {
    hide NodeOf, Content, HandlesOk, TrustedAll;
    FileIs(fs, ds, fd);
  }

  // ---- seeking ----

  /** Seeking back over what was read undoes the read. */
  lemma ReadAgain(fs: Fs, o: Owner, ds: seq<Descriptor>, fd: int, n: nat)
    requires FsInv(fs, o) && HandlesOk(TreeOf(fs), ds) && TrustedAll(fs, ds) && ReadOutcome(fs, ds, fd, n).Ok?
    ensures var r, ds1 := ReadOutcome(fs, ds, fd, n).value, AfterRead(fs, ds, fd, n);
            && TrustedAll(fs, ds1) && SeekOutcome(fs, ds1, fd, -|r|, SeekCur) == Ok(ds[fd].offset)
            && Moved(ds1, fd, ds[fd].offset) == ds
  {
    hide NodeOf, Content, HandlesOk, TrustedAll, FsInv;
    FileIs(fs, ds, fd);
    HandleTrusted(fs, ds, fd);
    FileLimit(fs, o, ds[fd].inum);
    var r := ReadOutcome(fs, ds, fd, n).value;
    var ds1 := AfterRead(fs, ds, fd, n);
    HandlesKept(fs, ds, fd, ds[fd].offset + |r|, []);
    FileIs(fs, ds1, fd);
    assert ds1[fd].(offset := ds[fd].offset) == ds[fd];
  }

  /** A seek to the end lets any writable descriptor append: nothing old is changed. */
  lemma SeekEndAppends(fs: Fs, ds: seq<Descriptor>, fd: int, buf: Bytes)
    requires HandlesOk(TreeOf(fs), ds) && TrustedAll(fs, ds) && SeekOutcome(fs, ds, fd, 0, SeekEnd).Ok? && buf != []
    ensures 0 <= fd < |ds| && ds[fd].inum as nat in TreeOf(fs)
    ensures var c := FileOf(fs, ds, fd); var ds1 := Moved(ds, fd, |c|);
            && SeekOutcome(fs, ds, fd, 0, SeekEnd) == Ok(|c|) && TrustedAll(fs, ds1)
            && (WriteEffect(fs, ds1, fd, buf).0.Ok? ==>
                  && ds[fd].inum as nat in WriteEffect(fs, ds1, fd, buf).2
                  && WriteEffect(fs, ds1, fd, buf).2[ds[fd].inum as nat].content == c + buf)
  {
    hide NodeOf, Content, HandlesOk, TrustedAll, WriteEffect, Written;
    FileIs(fs, ds, fd);
    var c := FileOf(fs, ds, fd);
    var ds1 := Moved(ds, fd, |c|);
    HandlesKept(fs, ds, fd, |c|, []);
    FileIs(fs, ds1, fd);
    if WriteEffect(fs, ds1, fd, buf).0.Ok? {
      WriteMeans(fs, ds1, fd, buf);
      AppendedIs(c, buf);
      WrittenOnce(c, |c|, buf, c + buf, WriteEffect(fs, ds1, fd, buf).2[ds[fd].inum as nat].content);
    }
  }

  lemma AppendedIs(c: Bytes, buf: Bytes)
    ensures Written(c, |c|, buf, c + buf)
  {
  }

  /** A seek by a, then by b from there, is a seek by a + b; from the start it is the sum itself. */
  lemma SeekTwice(fs: Fs, ds: seq<Descriptor>, fd: int, a: int, b: int, whence: Whence)
    requires HandlesOk(TreeOf(fs), ds) && TrustedAll(fs, ds) && SeekOutcome(fs, ds, fd, a, whence).Ok?
    ensures var ds1 := Moved(ds, fd, SeekOutcome(fs, ds, fd, a, whence).value);
            TrustedAll(fs, ds1) && SeekOutcome(fs, ds1, fd, b, SeekCur) == SeekOutcome(fs, ds, fd, a + b, whence)
    ensures whence == SeekSet ==> SeekOutcome(fs, ds, fd, a, whence) == Ok(a)
  {
    hide NodeOf, Content, HandlesOk, TrustedAll;
    FileIs(fs, ds, fd);
    var at := SeekOutcome(fs, ds, fd, a, whence).value;
    HandlesKept(fs, ds, fd, at, []);
    FileIs(fs, Moved(ds, fd, at), fd);
  }

  // ---- flags ----

  /** Of the five ways to open a file, 1, 3 and 7 may read, 2, 3, 6 and 7 write, 6 and 7 append. */
  lemma FlagsMean(d: Descriptor)
    requires d.flags in {1, 2, 3, 6, 7}
    ensures CanRead(d) <==> d.flags in {1, 3, 7}
    ensures CanWrite(d) <==> d.flags in {2, 3, 6, 7}
    ensures Appends(d.flags) <==> d.flags in {6, 7}
  {
  }

  /** Opening follows links to a regular file and asks for the permissions the descriptor will use. */
  lemma OpenNeeds(fs: Fs, acc: Access, path: Bytes, flags: int, i: u32)
    ensures OpenTarget(fs, acc, path, flags) == Ok(i) <==>
              && flags in {1, 2, 3, 6, 7} && ResolvePath(fs, acc, path, false) == Ok(i)
              && i < |fs.inodes| && fs.inodes[i].itype == 1
              && acc(fs.inodes[i], if flags == 1 then 4 else if flags in {2, 6} then 2 else 6)
  {
    hide ResolvePath;
  }

  /** Truncating by path follows links to a regular file and asks for permission to write; cutting
      always succeeds then. */
  lemma TruncateNeeds(fs: Fs, acc: Access, path: Bytes, size: nat, i: u32)
    ensures TruncateOutcome(fs, acc, path, size) == Ok(i) ==>
              && ResolvePath(fs, acc, path, false) == Ok(i) && size <= 16520 * 512
              && i < |fs.inodes| && fs.inodes[i].itype == 1 && acc(fs.inodes[i], 2)
    ensures ResolvePath(fs, acc, path, false) == Ok(i) && i < |fs.inodes| && fs.inodes[i].itype == 1
            && acc(fs.inodes[i], 2) && size <= 16520 * 512 && CeilDiv(size, 512) <= fs.inodes[i].blockCount ==>
              TruncateOutcome(fs, acc, path, size) == Ok(i)
  {
    hide ResolvePath, Cost;
    if i < |fs.inodes| && CeilDiv(size, 512) <= fs.inodes[i].blockCount {
      CostMonotone(CeilDiv(size, 512), fs.inodes[i].blockCount);
    }
  }

  /** Writing inside the file always succeeds, growing past 16520 blocks never. */
  lemma WriteFits(fs: Fs, ds: seq<Descriptor>, fd: int, buf: Bytes)
    requires HandlesOk(TreeOf(fs), ds) && TrustedAll(fs, ds) && Refusal(fs, ds, fd, true, |buf|).Ok? && buf != []
    ensures 0 <= fd < |ds| && ds[fd].inum as nat in TreeOf(fs)
    ensures var end := StartOf(fs, ds, fd) + |buf|;
            && (end <= |FileOf(fs, ds, fd)| && end <= INT64_MAX ==> WriteEffect(fs, ds, fd, buf).0 == Ok(|buf|))
            && (end > |FileOf(fs, ds, fd)| && end > 16520 * 512 ==> WriteEffect(fs, ds, fd, buf).0 == Err(EFBIG))
  {
    hide TreeOf, Content, WriteAt, Cost;
    FileIs(fs, ds, fd);
  }

  /** A descriptor of an earlier life of its inode does nothing: every use of it is refused. */
  lemma StaleRefused(fs: Fs, ds: seq<Descriptor>, fd: int, n: nat, buf: Bytes, change: int, whence: Whence)
    requires TrustedAll(fs, ds) && 0 <= fd < |ds| && ds[fd].inUse && 0 < n <= INT64_MAX && 0 < |buf| <= INT64_MAX
    requires fs.inodes[ds[fd].inum].generation != ds[fd].generation
    ensures ReadOutcome(fs, ds, fd, n) == Err(EBADF) && SeekOutcome(fs, ds, fd, change, whence) == Err(EBADF)
    ensures WriteEffect(fs, ds, fd, buf) == (Err(EBADF), ds, TreeOf(fs))
    ensures forall length, prot, flags, offset :: MapRefusal(fs, ds, fd, length, prot, flags, offset).Err?
  {
    hide TreeOf, Content, WriteAt, WriteOutcome;
  }

  // ---- mappings ----

  /** A mapping needs a descriptor that may read, and to be shared and writable one that may also write. */
  lemma MapNeeds(fs: Fs, ds: seq<Descriptor>, fd: int, length: nat, prot: int, flags: int, offset: int)
    requires TrustedAll(fs, ds) && MapRefusal(fs, ds, fd, length, prot, flags, offset).Ok?
    ensures prot in {1, 3} && flags in {1, 2} && 0 <= fd < |ds| && ds[fd].inUse
    ensures Refusal(fs, ds, fd, false, 1).Ok? && (prot == 3 && flags == 1 ==> Refusal(fs, ds, fd, true, 1).Ok?)
  {
  }

  /** With such a descriptor any range that fits can be mapped. */
  lemma MapAllowed(fs: Fs, ds: seq<Descriptor>, fd: int, length: nat, prot: int, flags: int, offset: nat)
    requires TrustedAll(fs, ds) && Refusal(fs, ds, fd, false, 1).Ok? && prot in {1, 3} && flags in {1, 2}
    requires prot == 3 && flags == 1 ==> Refusal(fs, ds, fd, true, 1).Ok?
    requires 0 < length && offset + length <= 16520 * 512
    ensures MapRefusal(fs, ds, fd, length, prot, flags, offset).Ok?
  {
  }

  /** Only a shared writable mapping ever reaches the file; then the file reads as the memory. */
  lemma SyncReaches(fs: Fs, m: Mapping, data: Bytes)
    requires m.inum as nat in TreeOf(fs) && m.prot in {1, 3} && m.flags in {1, 2}
    ensures m.prot == 1 || m.flags == 2 ==> SyncEffect(fs, m, data) == (Ok(()), TreeOf(fs))
    ensures m.prot == 3 && m.flags == 1 && SyncEffect(fs, m, data).0.Ok? ==>
              var t' := SyncEffect(fs, m, data).1;
              && m.inum as nat in t'
              && Written(Content(fs, m.inum), m.offset, data, t'[m.inum as nat].content)
              && ReadSlice(t'[m.inum as nat].content, m.offset, |data|) == data
              && (forall j :: j in t' && j != m.inum ==> j in TreeOf(fs) && t'[j] == TreeOf(fs)[j])
  {
    hide NodeOf, Content, WriteAt;
    WriteAtIs(Content(fs, m.inum), m.offset, data);
    var c' := WriteAt(Content(fs, m.inum), m.offset, data);
    if data != [] {
      assert c'[m.offset..m.offset + |data|] == data;
    }
  }
}
