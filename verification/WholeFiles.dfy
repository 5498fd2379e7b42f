/** Reading whole files through descriptors: contents that a bad chunk size loses, and reads of several
    files in any order. */
module WholeFiles {
  import opened Words
  import opened FileSpec
  import opened OpenFiles
  import R = ReadSlack
  import S = SequentialRead

  // ----- a bad chunk size loses bytes -----

  function Blank(n: nat): (b: seq<byte>)
    ensures |b| == n
  {
    seq(n, _ => 0)
  }

  function OneByte(at: nat): (b: seq<byte>)
    ensures |b| == BLOCK
  {
    seq(BLOCK, i => if i == at then 1 else 0)
  }

  /** An image with one file of length `len`, all zeros except for a one at flat position `at`. */
  function OneByteImage(len: uint32, at: nat): (fs: Image)
    requires len / BLOCK < DATABLOCK_NUM && at < len
    ensures |fs.blocks| == len / BLOCK + 1
    ensures forall q :: 0 <= q < |fs.blocks| ==> fs.blocks[q] == if q == at / BLOCK then OneByte(at % BLOCK) else Blank(BLOCK)
    ensures |fs.inodes| == 1 && fs.inodes[0].len == len && |fs.inodes[0].dblocks| == DATABLOCK_NUM
    ensures forall q :: 0 <= q < DATABLOCK_NUM ==> fs.inodes[0].dblocks[q] == q
    ensures Valid(fs) && WellFormed(fs, fs.inodes[0])
  {
    var blocks := seq(len / BLOCK + 1, q => if q == at / BLOCK then OneByte(at % BLOCK) else Blank(BLOCK));
    var dblocks := seq(DATABLOCK_NUM, q requires 0 <= q < DATABLOCK_NUM => q);
    Image(0, seq(DENTRY_NUM, _ => Dentry(Blank(FILENAME_LEN), 0, 0)), [Inode(len, dblocks)], blocks)
  }

  lemma OneByteAt(len: uint32, at: nat, k: nat)
    requires len / BLOCK < DATABLOCK_NUM && at < len
    ensures ByteAt(OneByteImage(len, at), 0, k) == if k == at then 1 else 0
  {
    var fs := OneByteImage(len, at);
    var q := k / BLOCK;
    if q < DATABLOCK_NUM && GoodPage(fs, fs.inodes[0], q) {
      assert fs.inodes[0].dblocks[q] == q && q < |fs.blocks|;
      assert fs.blocks[q][k % BLOCK] == if q == at / BLOCK && k % BLOCK == at % BLOCK then 1 else 0;
    } else {
      assert at / BLOCK <= len / BLOCK;
    }
  }

  /** For every length and every bad chunk size there is a file that is read wrongly. */
  lemma BadChunkLosesContents(len: uint32, n: int32) returns (fs: Image)
    requires n > 0 && len / BLOCK < DATABLOCK_NUM && !S.GoodChunk(len, n)
    ensures Valid(fs) && |fs.inodes| == 1 && fs.inodes[0].len == len && WellFormed(fs, fs.inodes[0])
    ensures !(Contents(fs, 0) <= PickBytes(fs, 0, S.Positions(len, n, 0)))
  {
    S.ExactIffGoodChunk(len, n);
    var ps := S.Positions(len, n, 0);
    assert !S.InOrder(ps, 0, len) && len > 0;
    if |ps| < len {
      fs := OneByteImage(len, 0);
    } else {
      var j :| 0 <= j < len && ps[j] != 0 + j;
      fs := OneByteImage(len, j);
      OneByteAt(len, j, j);
      OneByteAt(len, j, ps[j]);
      assert Contents(fs, 0)[j] == 1 && PickBytes(fs, 0, ps)[j] == 0;
    }
  }

  // ----- several files, read in any order -----

  /** What one read hands over. */
  ghost function Returned(fs: Image, f: File, nbytes: int32): seq<byte>
    requires Valid(fs) && f.inode < |fs.inodes|
  {
    var r := ReadResult(fs, f, nbytes);
    if 0 <= r <= |Delivered(fs, f.inode, f.offset)| then Delivered(fs, f.inode, f.offset)[..r] else []
  }

  /** What all the reads through one descriptor hand over, among the reads of the others. */
  ghost function Received(fs: Image, files: seq<File>, calls: seq<Call>, fd: nat): seq<byte>
    requires Usable(fs, files) && fd < 8 && forall c :: c in calls ==> c.fd < 8
  {
    if calls == [] then []
    else
      var init, c := calls[..|calls| - 1], calls[|calls| - 1];
      Received(fs, files, init, fd) + if c.fd == fd then Returned(fs, AfterCalls(fs, files, init)[fd], c.nbytes) else []
  }

  function Fewer(a: nat, b: nat): nat {
    if a < b then a else b
  }

  /** One more read through the descriptor. */
  lemma ReadOn(fs: Image, f: File, n: int32)
    requires Valid(fs) && f.inode < |fs.inodes| && WellFormed(fs, fs.inodes[f.inode]) && n > 0
    ensures var len, g := fs.inodes[f.inode].len, AfterRead(fs, f, n);
            && Returned(fs, f, n) + PickBytes(fs, f.inode, S.Positions(len, n, g.offset)) ==
               PickBytes(fs, f.inode, S.Positions(len, n, f.offset))
            && g == (if f.offset < len then f.(offset := f.offset + n) else f)
            && (ReadResult(fs, f, n) == 0 <==> f.offset >= len)
  {
    var todo, rest := OneRead(fs, f, n);
  }

  /** Where `k` reads of `n` leave the descriptor. */
  lemma {:induction false} Advanced(len: nat, n: nat, k: nat)
    requires n > 0
    ensures var offset := n * Fewer(k, R.Reads(len, n, 0));
            && (offset >= len <==> k >= R.Reads(len, n, 0))
            && n * Fewer(k + 1, R.Reads(len, n, 0)) == if offset < len then offset + n else offset
  {
    var m := R.Reads(len, n, 0);
    R.ReadsCover(len, n, 0);
    if k < m {
      S.Scaled(n, k, m - 1);
      assert n * (k + 1) == n * k + n;
    }
  }

  /** `k` reads of `n` have handed over `got`, and the rest of the file is still to come. */
  ghost predicate Progress(fs: Image, ino: nat, n: int32, f: File, k: nat, got: seq<byte>)
    requires Valid(fs) && ino < |fs.inodes| && n > 0
  {
    var len := fs.inodes[ino].len;
    && f.inode == ino && f.offset == n * Fewer(k, R.Reads(len, n, 0))
    && got + PickBytes(fs, ino, S.Positions(len, n, f.offset)) == PickBytes(fs, ino, S.Positions(len, n, 0))
  }

  lemma ProgressStep(fs: Image, n: int32, f: File, k: nat, got: seq<byte>)
    requires Valid(fs) && f.inode < |fs.inodes| && WellFormed(fs, fs.inodes[f.inode]) && n > 0
    requires Progress(fs, f.inode, n, f, k, got)
    ensures Progress(fs, f.inode, n, AfterRead(fs, f, n), k + 1, got + Returned(fs, f, n))
  {
    hide AfterRead, Returned, PickBytes;
    var len, g := fs.inodes[f.inode].len, AfterRead(fs, f, n);
    ReadOn(fs, f, n);
    Advanced(len, n, k);
    Assoc(got, Returned(fs, f, n), PickBytes(fs, f.inode, S.Positions(len, n, g.offset)),
          PickBytes(fs, f.inode, S.Positions(len, n, f.offset)));
  }

  lemma {:induction false} RunProgress(fs: Image, files: seq<File>, calls: seq<Call>, fd: nat, n: int32)
    requires Usable(fs, files) && fd < 8 && n > 0 && forall c :: c in calls ==> c.fd < 8
    requires forall c :: c in calls && c.fd == fd ==> c.nbytes == n
    requires files[fd].offset == 0 && WellFormed(fs, fs.inodes[files[fd].inode])
    ensures Progress(fs, files[fd].inode, n, AfterCalls(fs, files, calls)[fd], |OnlyTo(calls, fd)|,
                     Received(fs, files, calls, fd))
  {
    hide Progress, AfterRead, Returned;
    if calls == [] {
      NoProgressYet(fs, files[fd], n);
    } else {
      var init, c := calls[..|calls| - 1], calls[|calls| - 1];
      RunProgress(fs, files, init, fd, n);
      if c.fd == fd {
        var f := AfterCalls(fs, files, init)[fd];
        SameFile(fs, files[fd].inode, n, f, |OnlyTo(init, fd)|, Received(fs, files, init, fd));
        ProgressStep(fs, n, f, |OnlyTo(init, fd)|, Received(fs, files, init, fd));
        assert OnlyTo(calls, fd) == OnlyTo(init, fd) + [c];
      } else {
        assert Received(fs, files, init, fd) + [] == Received(fs, files, init, fd);
        assert OnlyTo(calls, fd) == OnlyTo(init, fd);
      }
    }
  }

  lemma NoProgressYet(fs: Image, f: File, n: int32)
    requires Valid(fs) && f.inode < |fs.inodes| && n > 0 && f.offset == 0
    ensures Progress(fs, f.inode, n, f, 0, [])
  {
    var all := PickBytes(fs, f.inode, S.Positions(fs.inodes[f.inode].len, n, 0));
    assert [] + all == all;
  }

  lemma SameFile(fs: Image, ino: nat, n: int32, f: File, k: nat, got: seq<byte>)
    requires Valid(fs) && ino < |fs.inodes| && n > 0 && Progress(fs, ino, n, f, k, got)
    ensures f.inode == ino
  {
  }

  /** Reads through one descriptor deliver the file as if nothing else were read in between: the bytes come in
      the order of `Positions`, and the first read that returns 0 is the one after the file is covered. */
  lemma InterleavedReads(fs: Image, files: seq<File>, calls: seq<Call>, fd: nat, n: int32)
    requires Usable(fs, files) && fd < 8 && n > 0 && forall c :: c in calls ==> c.fd < 8
    requires forall c :: c in calls && c.fd == fd ==> c.nbytes == n
    requires files[fd].offset == 0 && WellFormed(fs, fs.inodes[files[fd].inode])
    ensures var f, len, k := AfterCalls(fs, files, calls)[fd], fs.inodes[files[fd].inode].len, |OnlyTo(calls, fd)|;
            && Received(fs, files, calls, fd) <= PickBytes(fs, files[fd].inode, S.Positions(len, n, 0))
            && (ReadResult(fs, f, n) == 0 <==> k >= R.Reads(len, n, 0))
            && (k >= R.Reads(len, n, 0) ==>
                  Received(fs, files, calls, fd) == PickBytes(fs, files[fd].inode, S.Positions(len, n, 0)))
  {
    hide AfterRead, Returned, Received, AfterCalls, OnlyTo;
    var f, len, k := AfterCalls(fs, files, calls)[fd], fs.inodes[files[fd].inode].len, |OnlyTo(calls, fd)|;
    RunProgress(fs, files, calls, fd, n);
    Advanced(len, n, k);
    ReadOn(fs, f, n);
    if f.offset >= len {
      var got := Received(fs, files, calls, fd);
      assert got + [] == got;
    }
  }

  /** The reads that return something are the length divided by the chunk, rounded up. */
  lemma ReadsRoundUp(len: nat, n: nat)
    requires n > 0
    ensures R.Reads(len, n, 0) == (len + n - 1) / n
  {
    var k := R.Reads(len, n, 0);
    R.ReadsCover(len, n, 0);
    var q := (len + n - 1) / n;
    assert len + n - 1 == n * q + (len + n - 1) % n;
    if k < q {
      S.Scaled(n, k + 1, q);
    } else if k > q {
      S.Scaled(n, q, k - 1);
    }
  }
}
