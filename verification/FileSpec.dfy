/** The read-only file system image, and exactly which of its bytes `read_data` delivers. */
module FileSpec {
  import opened Words

  const BLOCK := 4096
  const DATABLOCK_NUM := 1023
  const DENTRY_NUM := 63
  const FILENAME_LEN := 32

  datatype Inode = Inode(len: uint32, dblocks: seq<uint32>)

  datatype Dentry = Dentry(name: seq<byte>, fileType: uint32, inodeNum: uint32)

  datatype Image = Image(numDentries: nat, dentries: seq<Dentry>, inodes: seq<Inode>, blocks: seq<seq<byte>>)

  /** The image has the layout its header announces; an inode lists room for the block after its last byte. */
  predicate Valid(fs: Image) {
    && |fs.dentries| == DENTRY_NUM && fs.numDentries <= DENTRY_NUM
    && (forall d :: 0 <= d < DENTRY_NUM ==> |fs.dentries[d].name| == FILENAME_LEN)
    && (forall n :: 0 <= n < |fs.inodes| ==>
          |fs.inodes[n].dblocks| == DATABLOCK_NUM && fs.inodes[n].len / BLOCK < DATABLOCK_NUM)
    && (forall b :: 0 <= b < |fs.blocks| ==> |fs.blocks[b]| == BLOCK)
  }

  function Min(a: nat, b: nat): nat {
    if a < b then a else b
  }

  /** `block_length`: one more than the number of full blocks, even when the length is a multiple of 4096. */
  function Pages(node: Inode): (l: nat)
    ensures l > 0 && node.len < l * BLOCK
  {
    node.len / BLOCK + 1
  }

  predicate GoodPage(fs: Image, node: Inode, q: nat)
    requires q < |node.dblocks|
  {
    node.dblocks[q] < |fs.blocks|
  }

  /** Every page up to and including the one just after the last byte is in the image. */
  predicate WellFormed(fs: Image, node: Inode) {
    |node.dblocks| == DATABLOCK_NUM && Pages(node) <= DATABLOCK_NUM &&
    forall q :: 0 <= q < Pages(node) ==> GoodPage(fs, node, q)
  }

  /** Byte `k` of the file's blocks laid end to end. */
  function FlatByte(fs: Image, node: Inode, k: nat): byte
    requires Valid(fs) && k / BLOCK < |node.dblocks| && GoodPage(fs, node, k / BLOCK)
  {
    fs.blocks[node.dblocks[k / BLOCK]][k % BLOCK]
  }

  // ----- which byte comes i-th -----

  /** The flat position of the `i`-th byte that a read starting at byte `o` of page `p` delivers.  A read that
      starts inside a block skips the first bytes of every later block, because its offset is dropped when
      it crosses. */
  function Source(p: nat, o: nat, i: nat): nat {
    if o + i < BLOCK || o == 0 then p * BLOCK + o + i else (p + 1) * BLOCK + i
  }

  /** How many bytes such a read has delivered when it enters page `q`. */
  function Entry(p: nat, o: nat, q: nat): (n: nat)
    requires q >= p && o < BLOCK
  {
    if q == p then 0
    else if o == 0 then (q - p) * BLOCK
    else if q == p + 1 then BLOCK - o
    else (q - p - 1) * BLOCK
  }

  /** The first page from `q` on that is past the file or not in the image. */
  function StopPage(fs: Image, node: Inode, q: nat): (s: nat)
    requires q <= Pages(node) <= |node.dblocks|
    ensures q <= s <= Pages(node)
    ensures forall k :: q <= k < s ==> GoodPage(fs, node, k)
    ensures s < Pages(node) ==> !GoodPage(fs, node, s)
    decreases Pages(node) - q
  {
    if q == Pages(node) || !GoodPage(fs, node, q) then q else StopPage(fs, node, q + 1)
  }

  predicate Refused(fs: Image, inode: nat, offset: nat)
    requires Valid(fs)
  {
    inode >= |fs.inodes| || offset / BLOCK >= Pages(fs.inodes[inode]) || !GoodPage(fs, fs.inodes[inode], offset / BLOCK)
  }

  /** Where a read that is not refused stops if it asks for enough: how many bytes it has stored by then,
      and whether it ran off the end of the file rather than into a missing block. */
  function Limit(fs: Image, inode: nat, offset: nat): (r: (nat, bool))
    requires Valid(fs) && !Refused(fs, inode, offset)
  {
    var node := fs.inodes[inode];
    var s := StopPage(fs, node, offset / BLOCK);
    (Entry(offset / BLOCK, offset % BLOCK, s), s == Pages(node))
  }

  /** How many bytes `read_data` stores. */
  function Stored(fs: Image, inode: nat, offset: nat, length: nat): (n: nat)
    requires Valid(fs)
    ensures n <= length
  {
    if Refused(fs, inode, offset) then 0 else Min(length, Limit(fs, inode, offset).0)
  }

  /** What it returns: the number of bytes asked for; or -1 at a missing block; or, having run off the
      last block, one less than the number of bytes stored. */
  function Result(fs: Image, inode: nat, offset: nat, length: nat): int
    requires Valid(fs)
  {
    if Refused(fs, inode, offset) then -1 else Outcome(Limit(fs, inode, offset).0, Limit(fs, inode, offset).1, length)
  }

  function Outcome(end: nat, atEof: bool, length: nat): int {
    if length < end then length else if atEof then end - 1 else -1
  }

  /** Where byte `i` comes from while the read is in page `q`. */
  lemma SourceInPage(p: nat, o: nat, q: nat, i: nat)
    requires q >= p && o < BLOCK && Entry(p, o, q) <= i < Entry(p, o, q + 1)
    ensures Source(p, o, i) / BLOCK == q
    ensures Source(p, o, i) % BLOCK == (i + (if q == p then o else 0)) % BLOCK
    ensures (i + 1 + (if q == p then o else 0)) % BLOCK == 0 <==> i + 1 == Entry(p, o, q + 1)
  {
    if q == p {
      assert Source(p, o, i) == p * BLOCK + (o + i);
    } else if o != 0 && q == p + 1 {
      assert Source(p, o, i) == q * BLOCK + i;
    } else {
      var base := if o == 0 then q - p else q - p - 1;
      var r := i - base * BLOCK;
      assert 0 <= r < BLOCK;
      assert Source(p, o, i) == q * BLOCK + r;
    }
  }

  lemma {:induction false} EntryGrows(p: nat, o: nat, q: nat, s: nat)
    requires p <= q <= s && o < BLOCK
    ensures q < s ==> Entry(p, o, q) < Entry(p, o, s)
    ensures Entry(p, o, q) <= Entry(p, o, s)
    decreases s
  {
    if q + 1 < s {
      EntryGrows(p, o, q, s - 1);
    }
  }

  /** Exactly when the bytes come in file order: the read starts at a block boundary or stays inside one
      block. */
  lemma InOrderIff(offset: nat, n: nat)
    ensures (forall i: nat :: i < n ==> Source(offset / BLOCK, offset % BLOCK, i) == offset + i) <==>
            offset % BLOCK == 0 || offset % BLOCK + n <= BLOCK
  {
    var p, o := offset / BLOCK, offset % BLOCK;
    assert offset == p * BLOCK + o;
    if o != 0 && o + n > BLOCK {
      assert Source(p, o, BLOCK - o) == (p + 1) * BLOCK + (BLOCK - o);
    }
  }

  // ----- the bytes themselves -----

  /** While a read is in pages of the image, all its bytes come from pages of the image. */
  lemma {:induction false} SourceGood(fs: Image, node: Inode, p: nat, o: nat, s: nat, i: nat)
    requires p <= s && o < BLOCK && i < Entry(p, o, s)
    requires s <= |node.dblocks| && forall k :: p <= k < s ==> GoodPage(fs, node, k)
    ensures Source(p, o, i) / BLOCK < s && GoodPage(fs, node, Source(p, o, i) / BLOCK)
    decreases s
  {
    if p <= s - 1 && i >= Entry(p, o, s - 1) {
      SourceInPage(p, o, s - 1, i);
    } else {
      SourceGood(fs, node, p, o, s - 1, i);
    }
  }

  /** The bytes delivered before such a read reaches page `s`. */
  ghost function Bytes(fs: Image, node: Inode, p: nat, o: nat, s: nat): (b: seq<byte>)
    requires Valid(fs) && p <= s <= |node.dblocks| && o < BLOCK
    requires forall k :: p <= k < s ==> GoodPage(fs, node, k)
    ensures |b| == Entry(p, o, s)
  {
    seq(Entry(p, o, s), i requires 0 <= i < Entry(p, o, s) =>
      SourceGood(fs, node, p, o, s, i);
      FlatByte(fs, node, Source(p, o, i)))
  }

  /** Byte `i` of those, as the copying loop computes it in page `q`. */
  lemma ByteInPage(fs: Image, node: Inode, p: nat, o: nat, s: nat, q: nat, i: nat)
    requires Valid(fs) && p <= q < s <= |node.dblocks| && o < BLOCK
    requires forall k :: p <= k < s ==> GoodPage(fs, node, k)
    requires Entry(p, o, q) <= i < Entry(p, o, q + 1)
    ensures GoodPage(fs, node, q) && i < Entry(p, o, s)
    ensures var off := if q == p then o else 0;
            && Bytes(fs, node, p, o, s)[i] == fs.blocks[node.dblocks[q]][(i + off) % BLOCK]
            && ((i + 1 + off) % BLOCK == 0 <==> i + 1 == Entry(p, o, q + 1))
  {
    EntryGrows(p, o, q + 1, s);
    SourceInPage(p, o, q, i);
  }

  /** What crossing out of page `q` leads to: the end of the file, a missing block, or the next page. */
  lemma Crossing(fs: Image, node: Inode, p: nat, o: nat, q: nat, i: nat)
    requires Pages(node) <= |node.dblocks| && p < Pages(node) && o < BLOCK
    requires p <= q < StopPage(fs, node, p) && i + 1 == Entry(p, o, q + 1)
    ensures var s := StopPage(fs, node, p);
            if q + 1 == Pages(node) || !GoodPage(fs, node, q + 1) then s == q + 1
            else q + 1 < s && i + 1 < Entry(p, o, q + 2) <= Entry(p, o, s)
  {
    var s := StopPage(fs, node, p);
    if q + 1 < s {
      EntryGrows(p, o, q + 1, q + 2);
      EntryGrows(p, o, q + 2, s);
    }
  }

  /** All that a read from `offset` would deliver if it asked for enough. */
  ghost function Delivered(fs: Image, inode: nat, offset: nat): (b: seq<byte>)
    requires Valid(fs)
    ensures forall n: nat :: Stored(fs, inode, offset, n) <= |b|
  {
    if Refused(fs, inode, offset) then []
    else Bytes(fs, fs.inodes[inode], offset / BLOCK, offset % BLOCK, StopPage(fs, fs.inodes[inode], offset / BLOCK))
  }
}
