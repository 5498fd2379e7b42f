/** `read_data` and what is built on it, in place, against `FileSpec`. */
module FileSys {
  import opened Words
  import opened FileSpec

  twostate predicate OnlyChanged(buf: array<byte>, at: nat, n: nat)
    reads buf
  {
    forall k :: 0 <= k < buf.Length && !(at <= k < at + n) ==> buf[k] == old(buf[k])
  }

  /** Copies into `buf` from `at` on.  The caller provides room for what is stored. */
  method ReadData(fs: Image, inode: uint32, offset: uint32, buf: array<byte>, at: nat, length: uint32) returns (r: int)
    requires Valid(fs) && at + Stored(fs, inode, offset, length) <= buf.Length
    modifies buf
    ensures r == Result(fs, inode, offset, length)
    ensures var n := Stored(fs, inode, offset, length); buf[at..at + n] == Delivered(fs, inode, offset)[..n]
    ensures OnlyChanged(buf, at, Stored(fs, inode, offset, length))
    ensures (inode >= |fs.inodes| || offset / BLOCK > fs.inodes[inode].len / BLOCK ||
             fs.inodes[inode].dblocks[offset / BLOCK] >= |fs.blocks|) ==> r == -1 && OnlyChanged(buf, at, 0)
  {
    if inode >= |fs.inodes| {
      return -1;
    }
    var node := fs.inodes[inode];
    var blockLength := node.len / BLOCK + 1;
    var page := offset / BLOCK;
    if page >= blockLength {
      return -1;
    }
    if node.dblocks[page] >= |fs.blocks| {
      return -1;
    }
    r := CopyBytes(fs, node, page, offset % BLOCK, buf, at, length);
  }

  /** The copying loop of `read_data`, from byte `first` of page `start`. */
  method CopyBytes(fs: Image, node: Inode, start: nat, first: nat, buf: array<byte>, at: nat, length: uint32) returns (r: int)
    requires Valid(fs) && |node.dblocks| == DATABLOCK_NUM && Pages(node) <= DATABLOCK_NUM
    requires start < Pages(node) && first < BLOCK && GoodPage(fs, node, start)
    requires at + Min(length, Entry(start, first, StopPage(fs, node, start))) <= buf.Length
    modifies buf
    ensures var s := StopPage(fs, node, start); var end := Entry(start, first, s); var n := Min(length, end);
            && r == Outcome(end, s == Pages(node), length)
            && (forall j :: 0 <= j < n ==> buf[at + j] == Bytes(fs, node, start, first, s)[j])
            && OnlyChanged(buf, at, n)
  {
    hide Bytes, StopPage, FlatByte;
    var page, off := start, first;
    var block := fs.blocks[node.dblocks[page]];
    ghost var stop := StopPage(fs, node, page);
    ghost var want := Bytes(fs, node, start, first, stop);
    ghost var end, bound := |want|, Entry(start, first, page + 1);
    EntryGrows(start, first, page + 1, stop);
    var i: nat := 0;
    while i < length
      invariant i <= length && start <= page < stop
      invariant off == (if page == start then first else 0)
      invariant GoodPage(fs, node, page) && block == fs.blocks[node.dblocks[page]]
      invariant Entry(start, first, page) <= i < bound <= end && bound == Entry(start, first, page + 1)
      invariant forall j :: 0 <= j < i ==> buf[at + j] == want[j]
      invariant OnlyChanged(buf, at, i)
    {
      ByteInPage(fs, node, start, first, stop, page, i);
      buf[at + i] := block[(i + off) % BLOCK];
      if (i + 1 + off) % BLOCK == 0 {
        Crossing(fs, node, start, first, page, i);
        page := page + 1;
        if page == Pages(node) {
          return i;
        }
        if node.dblocks[page] >= |fs.blocks| {
          assert !GoodPage(fs, node, page);
          return -1;
        }
        assert GoodPage(fs, node, page);
        block := fs.blocks[node.dblocks[page]];
        off := 0;
        bound := Entry(start, first, page + 1);
      }
      i := i + 1;
    }
    return i;
  }
}
