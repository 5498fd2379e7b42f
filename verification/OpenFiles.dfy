/** A task's descriptors and `file_read`, and reading a file to its end through them. */
module OpenFiles {
  import opened Words
  import opened FileSpec
  import opened FileSys
  import R = ReadSlack
  import S = SequentialRead

  /** A descriptor opened on inode `inode`. */
  datatype File = File(inode: uint32, offset: uint32)

  /** Every descriptor's inode exists, so no null pointer is followed. */
  predicate Usable(fs: Image, files: seq<File>) {
    Valid(fs) && |files| == 8 && forall d :: 0 <= d < 8 ==> files[d].inode < |fs.inodes|
  }

  /** How many bytes `file_read` asks `read_data` for: `nbytes` and the length are compared unsigned, and
      the request is cut to the whole length, not to what is left. */
  function Request(len: uint32, nbytes: int32): uint32 {
    if ToUint32(nbytes) > len then len else ToUint32(nbytes)
  }

  function ReadResult(fs: Image, f: File, nbytes: int32): int
    requires Valid(fs) && f.inode < |fs.inodes|
  {
    var len := fs.inodes[f.inode].len;
    if f.offset >= len then 0 else Result(fs, f.inode, f.offset, Request(len, nbytes))
  }

  function ReadStored(fs: Image, f: File, nbytes: int32): nat
    requires Valid(fs) && f.inode < |fs.inodes|
  {
    var len := fs.inodes[f.inode].len;
    if f.offset >= len then 0 else Stored(fs, f.inode, f.offset, Request(len, nbytes))
  }

  /** The descriptor afterwards: advanced by `nbytes`, however many bytes came. */
  function AfterRead(fs: Image, f: File, nbytes: int32): File
    requires Valid(fs) && f.inode < |fs.inodes|
  {
    if f.offset >= fs.inodes[f.inode].len || ReadResult(fs, f, nbytes) == -1 then f
    else f.(offset := (f.offset + ToUint32(nbytes)) % TWO_TO_THE_32)
  }

  class Task {
    const fs: Image
    var files: seq<File>

    constructor (fs: Image, files: seq<File>)
      requires Usable(fs, files)
      ensures this.fs == fs && this.files == files
    {
      this.fs, this.files := fs, files;
    }

    method FileRead(fd: int32, buf: array<byte>, nbytes: int32) returns (r: int)
      requires Usable(fs, files)
      requires 0 <= fd <= 7 ==> ReadStored(fs, files[fd], nbytes) <= buf.Length
      modifies this, buf
      ensures Usable(fs, files)
      ensures fd < 0 || fd > 7 ==> r == -1 && files == old(files) && OnlyChanged(buf, 0, 0)
      ensures r == -1 ==> files == old(files)
      ensures 0 <= fd <= 7 && old(files)[fd].offset < fs.inodes[old(files)[fd].inode].len ==>
                var f := old(files)[fd]; var len := fs.inodes[f.inode].len;
                r == Result(fs, f.inode, f.offset, if 0 <= nbytes < len then nbytes else len)
      ensures 0 <= fd <= 7 && old(files)[fd].offset >= fs.inodes[old(files)[fd].inode].len ==>
                r == 0 && files == old(files) && OnlyChanged(buf, 0, 0)
      ensures 0 <= fd <= 7 && old(files)[fd].offset < fs.inodes[old(files)[fd].inode].len && r != -1 ==>
                && files[fd].offset == (old(files)[fd].offset + ToUint32(nbytes)) % TWO_TO_THE_32
                && files[fd].inode == old(files)[fd].inode && forall d :: 0 <= d < 8 && d != fd ==> files[d] == old(files)[d]
      ensures 0 <= fd <= 7 ==> r == ReadResult(fs, old(files)[fd], nbytes)
      ensures 0 <= fd <= 7 ==> files == old(files)[fd := AfterRead(fs, old(files)[fd], nbytes)]
      ensures 0 <= fd <= 7 ==>
                var f := old(files)[fd]; var n := ReadStored(fs, f, nbytes);
                n <= |Delivered(fs, f.inode, f.offset)| &&
                buf[..n] == Delivered(fs, f.inode, f.offset)[..n] && OnlyChanged(buf, 0, n)
    {
      hide Result, Stored, Delivered;
      if fd < 0 || fd > 7 {
        return -1;
      }
      var f := files[fd];
      var len := fs.inodes[f.inode].len;
      if f.offset >= len {
        return 0;
      }
      r := ReadData(fs, f.inode, f.offset, buf, 0, if ToUint32(nbytes) > len then len else ToUint32(nbytes));
      if r != -1 {
        files := files[fd := f.(offset := (f.offset + ToUint32(nbytes)) % TWO_TO_THE_32)];
      }
    }

    /** One read, appended to what came before. */
    method ReadMore(fd: int32, n: int32, buf: array<byte>, before: seq<byte>) returns (r: int, data: seq<byte>)
      requires Usable(fs, files) && 0 <= fd <= 7 && n > 0 && buf.Length == n
      requires WellFormed(fs, fs.inodes[files[fd].inode]) && files[fd].offset < fs.inodes[files[fd].inode].len + n
      modifies this, buf
      ensures Usable(fs, files) && r >= 0
      ensures var f := old(files)[fd]; var len := fs.inodes[f.inode].len;
              && files == old(files)[fd := if f.offset < len then f.(offset := f.offset + n) else f]
              && (r == 0 <==> f.offset >= len)
              && data + PickBytes(fs, f.inode, S.Positions(len, n, files[fd].offset)) ==
                 before + PickBytes(fs, f.inode, S.Positions(len, n, f.offset))
    {
      hide Result, Delivered, ReadResult, ReadStored, AfterRead, PickBytes, WellFormed;
      ghost var f := files[fd];
      ghost var todo, rest := OneRead(fs, f, n);
      ghost var m, d := ReadStored(fs, f, n), Delivered(fs, f.inode, f.offset);
      r := FileRead(fd, buf, n);
      var got := buf[..r];
      Shorter(buf[..m], d, m, r);
      assert got == buf[..m][..r];
      Assoc(before, got, rest, todo);
      data := before + got;
    }

    /** A program that reads a file to its end, `n` bytes at a time, and keeps what each read returns. */
    method ReadToEnd(fd: int32, n: int32) returns (data: seq<byte>)
      requires Usable(fs, files) && 0 <= fd <= 7 && n > 0 && files[fd].offset == 0
      requires WellFormed(fs, fs.inodes[files[fd].inode])
      modifies this
      ensures Usable(fs, files)
      ensures data == PickBytes(fs, old(files)[fd].inode, S.Positions(fs.inodes[old(files)[fd].inode].len, n, 0))
      ensures forall d :: 0 <= d < 8 && d != fd ==> files[d] == old(files)[d]
      ensures files[fd].inode == old(files)[fd].inode && ReadResult(fs, files[fd], n) == 0
    {
      var ino := files[fd].inode;
      ghost var len := fs.inodes[ino].len;
      ghost var all := PickBytes(fs, ino, S.Positions(len, n, 0));
      data := [];
      var buf := new byte[n];
      var r := 1;
      while r != 0
        invariant Usable(fs, files) && files[fd].inode == ino
        invariant forall d :: 0 <= d < 8 && d != fd ==> files[d] == old(files)[d]
        invariant files[fd].offset < len + n
        invariant data + PickBytes(fs, ino, S.Positions(len, n, files[fd].offset)) == all
        invariant r == 0 ==> files[fd].offset >= len
        invariant r >= 0
        decreases len + n - files[fd].offset, r
      {
        r, data := ReadMore(fd, n, buf, data);
      }
      assert S.Positions(len, n, files[fd].offset) == [];
    }
  }

  /** The file's bytes at the given flat positions. */
  ghost function PickBytes(fs: Image, inode: nat, ps: seq<nat>): (b: seq<byte>)
    requires Valid(fs) && inode < |fs.inodes|
    ensures |b| == |ps|
  {
    seq(|ps|, i requires 0 <= i < |ps| => ByteAt(fs, inode, ps[i]))
  }

  function ByteAt(fs: Image, inode: nat, k: nat): byte
    requires Valid(fs) && inode < |fs.inodes|
  {
    var node := fs.inodes[inode];
    if k / BLOCK < |node.dblocks| && GoodPage(fs, node, k / BLOCK) then FlatByte(fs, node, k) else 0
  }

  /** The contents of a file. */
  ghost function Contents(fs: Image, inode: nat): (b: seq<byte>)
    requires Valid(fs) && inode < |fs.inodes|
    ensures |b| == fs.inodes[inode].len
  {
    seq(fs.inodes[inode].len, k requires 0 <= k => ByteAt(fs, inode, k))
  }

  // ----- reading in chunks -----

  lemma {:induction false} NoMissingPage(fs: Image, node: Inode, q: nat)
    requires WellFormed(fs, node) && q <= Pages(node)
    ensures StopPage(fs, node, q) == Pages(node)
    decreases Pages(node) - q
  {
    if q < Pages(node) {
      NoMissingPage(fs, node, q + 1);
    }
  }

  /** On a well-formed file a read before the end never fails and advances by exactly `n`. */
  lemma ReadsChunk(fs: Image, f: File, n: int32)
    requires Valid(fs) && f.inode < |fs.inodes| && WellFormed(fs, fs.inodes[f.inode]) && n > 0
    requires f.offset < fs.inodes[f.inode].len
    ensures var len := fs.inodes[f.inode].len;
            && ReadResult(fs, f, n) == S.ChunkSize(len, n, f.offset) > 0
            && ReadResult(fs, f, n) <= ReadStored(fs, f, n) <= n
            && AfterRead(fs, f, n) == f.(offset := f.offset + n)
            && !Refused(fs, f.inode, f.offset)
  {
    hide S.ChunkSize;
    var node := fs.inodes[f.inode];
    RequestIs(node.len, n);
    ResultIs(fs, f.inode, f.offset, n);
    S.ChunkBounds(node.len, n, f.offset);
    assert f.offset + n < TWO_TO_THE_32;
  }

  lemma RequestIs(len: uint32, n: int32)
    requires n > 0
    ensures Request(len, n) == Min(n, len) && ToUint32(n) == n
  {
  }

  lemma ResultIs(fs: Image, inode: nat, offset: nat, n: nat)
    requires Valid(fs) && inode < |fs.inodes| && WellFormed(fs, fs.inodes[inode]) && offset < fs.inodes[inode].len && n > 0
    ensures !Refused(fs, inode, offset)
    ensures var len := fs.inodes[inode].len;
            && Result(fs, inode, offset, Min(n, len)) == S.ChunkSize(len, n, offset)
            && S.ChunkSize(len, n, offset) <= Stored(fs, inode, offset, Min(n, len)) <= n
  {
    var node := fs.inodes[inode];
    assert offset / BLOCK < Pages(node);
    NoMissingPage(fs, node, offset / BLOCK);
  }

  lemma ChunkBytes(fs: Image, f: File, n: int32)
    requires Valid(fs) && f.inode < |fs.inodes| && WellFormed(fs, fs.inodes[f.inode]) && n > 0
    requires f.offset < fs.inodes[f.inode].len
    ensures var r := S.ChunkSize(fs.inodes[f.inode].len, n, f.offset);
            && r <= |Delivered(fs, f.inode, f.offset)|
            && Delivered(fs, f.inode, f.offset)[..r] ==
               PickBytes(fs, f.inode, S.ChunkPositions(fs.inodes[f.inode].len, n, f.offset))
  {
    var node := fs.inodes[f.inode];
    var r, p, o := S.ChunkSize(node.len, n, f.offset), f.offset / BLOCK, f.offset % BLOCK;
    ReadsChunk(fs, f, n);
    NoMissingPage(fs, node, p);
    var d, c := Delivered(fs, f.inode, f.offset), S.ChunkPositions(node.len, n, f.offset);
    forall i | 0 <= i < r ensures d[i] == ByteAt(fs, f.inode, c[i]) {
      SourceGood(fs, node, p, o, Pages(node), i);
    }
  }

  /** What one read contributes to reading the whole file. */
  lemma OneRead(fs: Image, f: File, n: int32) returns (todo: seq<byte>, rest: seq<byte>)
    requires Valid(fs) && f.inode < |fs.inodes| && WellFormed(fs, fs.inodes[f.inode]) && n > 0
    ensures var len := fs.inodes[f.inode].len; var r := ReadResult(fs, f, n);
            && 0 <= r <= ReadStored(fs, f, n) <= n && ReadStored(fs, f, n) <= |Delivered(fs, f.inode, f.offset)|
            && (r == 0 <==> f.offset >= len)
            && AfterRead(fs, f, n) == (if f.offset < len then f.(offset := f.offset + n) else f)
            && todo == PickBytes(fs, f.inode, S.Positions(len, n, f.offset))
            && rest == PickBytes(fs, f.inode, S.Positions(len, n, AfterRead(fs, f, n).offset))
            && Delivered(fs, f.inode, f.offset)[..r] + rest == todo
  {
    var len := fs.inodes[f.inode].len;
    todo := PickBytes(fs, f.inode, S.Positions(len, n, f.offset));
    rest := PickBytes(fs, f.inode, S.Positions(len, n, AfterRead(fs, f, n).offset));
    if f.offset < len {
      hide ReadResult, AfterRead, S.ChunkSize, S.ChunkPositions, S.Positions, Refused, PickBytes;
      ReadsChunk(fs, f, n);
      ChunkBytes(fs, f, n);
      Splits(fs, f.inode, n, f.offset);
    } else {
      assert Delivered(fs, f.inode, f.offset)[..0] + rest == rest;
    }
  }

  lemma Shorter(a: seq<byte>, b: seq<byte>, m: nat, r: nat)
    requires r <= m == |a| <= |b| && a == b[..m]
    ensures a[..r] == b[..r]
  {
  }

  lemma Assoc(a: seq<byte>, b: seq<byte>, c: seq<byte>, d: seq<byte>)
    requires b + c == d
    ensures (a + b) + c == a + d
  {
  }

  lemma Splits(fs: Image, inode: nat, n: int32, offset: nat)
    requires Valid(fs) && inode < |fs.inodes| && n > 0 && offset < fs.inodes[inode].len
    ensures var len := fs.inodes[inode].len;
            PickBytes(fs, inode, S.Positions(len, n, offset)) ==
            PickBytes(fs, inode, S.ChunkPositions(len, n, offset)) + PickBytes(fs, inode, S.Positions(len, n, offset + n))
  {
  }

  /** With a good chunk size a file read to its end is the file's contents followed by fewer than `n` other
      bytes, and by none exactly when the chunk leaves no slack. */
  lemma WholeFileRead(fs: Image, inode: nat, n: int32)
    requires Valid(fs) && inode < |fs.inodes| && n > 0
    ensures var len := fs.inodes[inode].len; var data := PickBytes(fs, inode, S.Positions(len, n, 0));
            && |data| < len + n
            && (S.GoodChunk(len, n) ==> Contents(fs, inode) <= data)
            && (S.GoodChunk(len, n) && len > 0 ==> (data == Contents(fs, inode) <==> R.NoSlack(len, n)))
  {
    var len := fs.inodes[inode].len;
    S.ExactIffGoodChunk(len, n);
    S.SlackBounded(len, n, 0);
    if S.GoodChunk(len, n) {
      var ps := S.Positions(len, n, 0);
      assert S.InOrder(ps, 0, len);
      var data := PickBytes(fs, inode, ps);
      assert data[..len] == Contents(fs, inode) by {
        forall k | 0 <= k < len ensures data[k] == Contents(fs, inode)[k] {
          assert ps[k] == 0 + k;
        }
      }
      if len > 0 {
        R.LengthIff(len, n);
      }
    }
  }

  /** The block after the last full one is needed too: in a file whose length is a number of blocks, a read
      up to the end delivers all of it if that block is in the image, and fails if it is not. */
  lemma TrailingBlockNeeded(fs: Image, inode: nat, offset: nat, length: nat)
    requires Valid(fs) && inode < |fs.inodes| && length > 0
    requires var node := fs.inodes[inode];
             node.len % BLOCK == 0 && offset + length == node.len &&
             (offset % BLOCK == 0 || offset % BLOCK + length <= BLOCK) &&
             forall q :: offset / BLOCK <= q < node.len / BLOCK ==> GoodPage(fs, node, q)
    ensures var node := fs.inodes[inode];
            Result(fs, inode, offset, length) == if GoodPage(fs, node, node.len / BLOCK) then length else -1
  {
    var node := fs.inodes[inode];
    var p, o, last := offset / BLOCK, offset % BLOCK, node.len / BLOCK;
    assert offset == p * BLOCK + o && node.len == last * BLOCK && p < last;
    assert !Refused(fs, inode, offset);
    var s := StopPage(fs, node, p);
    assert s >= last;
    EntryGrows(p, o, last, s);
  }

  // ----- descriptors do not interfere -----

  datatype Call = Call(fd: nat, nbytes: int32)

  /** The descriptors after a list of reads by one task. */
  function AfterCalls(fs: Image, files: seq<File>, calls: seq<Call>): (r: seq<File>)
    requires Usable(fs, files) && forall c :: c in calls ==> c.fd < 8
    ensures Usable(fs, r)
  {
    if calls == [] then files
    else
      var before := AfterCalls(fs, files, calls[..|calls| - 1]);
      var c := calls[|calls| - 1];
      before[c.fd := AfterRead(fs, before[c.fd], c.nbytes)]
  }

  function OnlyTo(calls: seq<Call>, fd: nat): (r: seq<Call>)
    ensures forall c :: c in r ==> c in calls && c.fd == fd
  {
    if calls == [] then []
    else
      var rest := OnlyTo(calls[..|calls| - 1], fd);
      var c := calls[|calls| - 1];
      if c.fd == fd then rest + [c] else rest
  }

  /** A descriptor's position depends on the reads made through it and on no others, so what a read
      returns does not change when reads of other descriptors fall in between. */
  lemma {:induction false} DescriptorsIndependent(fs: Image, files: seq<File>, calls: seq<Call>, fd: nat)
    requires Usable(fs, files) && fd < 8 && forall c :: c in calls ==> c.fd < 8
    ensures AfterCalls(fs, files, calls)[fd] == AfterCalls(fs, files, OnlyTo(calls, fd))[fd]
  {
    if calls != [] {
      var init, c := calls[..|calls| - 1], calls[|calls| - 1];
      DescriptorsIndependent(fs, files, init, fd);
      if c.fd == fd {
        var own := OnlyTo(calls, fd);
        assert own[..|own| - 1] == OnlyTo(init, fd);
      }
    }
  }
}
