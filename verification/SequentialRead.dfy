/** Reading a file from front to back in chunks of one size: which bytes arrive, and when they are the
    file's own bytes in order. */
module SequentialRead {
  import opened Words
  import opened FileSpec

  /** How many bytes one `file_read` of `n` returns at `offset`, for a well-formed file of length `len`. */
  function ChunkSize(len: nat, n: nat, offset: nat): (r: nat)
    requires offset < len
  {
    var p, o := offset / BLOCK, offset % BLOCK;
    var end := Entry(p, o, len / BLOCK + 1);
    if Min(n, len) < end then Min(n, len) else end - 1
  }

  /** The flat positions of the bytes that successive reads of `n` from `offset` return, until one
      returns nothing. */
  function Positions(len: nat, n: nat, offset: nat): seq<nat>
    requires n > 0
    decreases if offset < len then len - offset else 0
  {
    if offset >= len then []
    else ChunkPositions(len, n, offset) + Positions(len, n, offset + n)
  }

  function ChunkPositions(len: nat, n: nat, offset: nat): (c: seq<nat>)
    requires offset < len
    ensures |c| == ChunkSize(len, n, offset)
  {
    seq(ChunkSize(len, n, offset), i => if i < 0 then 0 else Source(offset / BLOCK, offset % BLOCK, i))
  }

  /** The reads deliver the whole file, in order, possibly followed by other bytes. */
  ghost predicate Exact(len: nat, n: nat)
    requires n > 0
  {
    InOrder(Positions(len, n, 0), 0, len)
  }

  /** `ps` starts with the positions from `offset` up to `len`. */
  ghost predicate InOrder(ps: seq<nat>, offset: nat, len: nat) {
    offset < len ==> |ps| >= len - offset && forall j :: 0 <= j < len - offset ==> ps[j] == offset + j
  }

  function RoundUp(n: nat): nat {
    (n + BLOCK - 1) / BLOCK * BLOCK
  }

  /** What a caller can check: the chunk divides a block, or is a number of blocks, or no byte of the file
      lies beyond the chunk rounded up to a block. */
  predicate GoodChunk(len: nat, n: nat)
    requires n > 0
  {
    BLOCK % n == 0 || n % BLOCK == 0 || len <= RoundUp(n)
  }

  // ----- one chunk -----

  /** A chunk is harmless: it starts on a boundary, stays in a block, or is in the file's last pages. */
  predicate ChunkOk(len: nat, n: nat, offset: nat) {
    offset % BLOCK == 0 || offset % BLOCK + n <= BLOCK || len <= (offset / BLOCK + 1) * BLOCK
  }

  /** Every chunk from `offset` on is harmless. */
  predicate AllOk(len: nat, n: nat, offset: nat)
    requires n > 0
    decreases if offset < len then len - offset else 0
  {
    offset < len ==> ChunkOk(len, n, offset) && AllOk(len, n, offset + n)
  }

  /** No read before the end of the file comes back empty. */
  lemma ChunkBounds(len: nat, n: nat, offset: nat)
    requires n > 0 && offset < len
    ensures 0 < ChunkSize(len, n, offset) <= n
  {
    var p, o, last := offset / BLOCK, offset % BLOCK, len / BLOCK;
    assert offset == p * BLOCK + o && len == last * BLOCK + len % BLOCK;
    assert p <= last;
    if p == last {
      assert o < len % BLOCK;
    }
  }

  /** A harmless chunk delivers the file's next bytes in order: all it asked for, or the rest of the file. */
  lemma OkChunkInOrder(len: nat, n: nat, offset: nat)
    requires n > 0 && offset < len && ChunkOk(len, n, offset)
    ensures ChunkSize(len, n, offset) >= Min(Min(n, len), len - offset)
    ensures forall i :: 0 <= i < ChunkSize(len, n, offset) && offset + i < len ==>
              ChunkPositions(len, n, offset)[i] == offset + i
  {
    var p, o, last := offset / BLOCK, offset % BLOCK, len / BLOCK;
    assert offset == p * BLOCK + o && len == last * BLOCK + len % BLOCK;
    assert p <= last;
    assert len < (last + 1) * BLOCK;
  }

  /** If every chunk is harmless, the reads deliver the file in order. */
  lemma {:induction false} OkChunksInOrder(len: nat, n: nat, offset: nat)
    requires n > 0 && AllOk(len, n, offset)
    ensures InOrder(Positions(len, n, offset), offset, len)
    decreases if offset < len then len - offset else 0
  {
    if offset < len {
      OkChunkInOrder(len, n, offset);
      ChunkBounds(len, n, offset);
      if offset + n < len {
        OkChunksInOrder(len, n, offset + n);
        Joined(ChunkPositions(len, n, offset), Positions(len, n, offset + n), offset, n, len);
      }
    }
  }

  lemma Joined(a: seq<nat>, b: seq<nat>, offset: nat, n: nat, len: nat)
    requires offset + n < len && |a| == n
    ensures InOrder(a + b, offset, len) ==> InOrder(b, offset + n, len)
    ensures InOrder(b, offset + n, len) && (forall i :: 0 <= i < n ==> a[i] == offset + i) ==> InOrder(a + b, offset, len)
  {
    if InOrder(a + b, offset, len) {
      forall j | 0 <= j < len - offset - n ensures b[j] == offset + n + j {
        assert b[j] == (a + b)[n + j];
      }
    }
  }

  // ----- good chunk sizes -----

  /** Chunks that divide a block never straddle a boundary. */
  lemma DivisorFits(n: nat, offset: nat)
    requires n > 0 && BLOCK % n == 0 && offset % n == 0
    ensures offset % BLOCK + n <= BLOCK
  {
    var m, k, p := BLOCK / n, offset / n, offset / BLOCK;
    MultipleOf(BLOCK, n);
    MultipleOf(offset, n);
    Regroup(p, n, m);
    RoomLeft(n, m, k - p * m, offset % BLOCK);
  }

  lemma MultipleOf(a: nat, n: nat)
    requires n > 0 && a % n == 0
    ensures a == n * (a / n)
  {
  }

  lemma Regroup(p: nat, n: nat, m: nat)
    ensures p * (n * m) == n * (p * m)
  {
  }

  lemma RoomLeft(n: nat, m: nat, d: int, r: nat)
    requires r == n * d && r < n * m
    ensures r + n <= n * m
  {
    if d >= m {
      Scaled(n, m, d);
    } else {
      Scaled(n, d + 1, m);
      assert n * (d + 1) == n * d + n;
    }
  }

  lemma NextMultiple(n: nat, offset: nat)
    requires n > 0 && offset % n == 0
    ensures (offset + n) % n == 0
  {
    var k, q, r := offset / n, (offset + n) / n, (offset + n) % n;
    assert n * (k + 1) == n * q + r;
    if q < k + 1 {
      Scaled(n, q + 1, k + 1);
    } else {
      Scaled(n, k + 1, q);
    }
  }

  lemma Scaled(n: nat, a: int, b: int)
    requires a <= b
    ensures n * a <= n * b
  {
  }

  lemma {:induction false} DivisorsAllOk(len: nat, n: nat, offset: nat)
    requires n > 0 && BLOCK % n == 0 && offset % n == 0
    ensures AllOk(len, n, offset)
    decreases if offset < len then len - offset else 0
  {
    if offset < len {
      DivisorFits(n, offset);
      NextMultiple(n, offset);
      DivisorsAllOk(len, n, offset + n);
    }
  }

  lemma {:induction false} WholeBlocksAllOk(len: nat, n: nat, offset: nat)
    requires n > 0 && n % BLOCK == 0 && offset % BLOCK == 0
    ensures AllOk(len, n, offset)
    decreases if offset < len then len - offset else 0
  {
    if offset < len {
      WholeBlocksAllOk(len, n, offset + n);
    }
  }

  /** A file of one block is read whole by any chunk. */
  lemma {:induction false} OneBlockAllOk(len: nat, n: nat, offset: nat)
    requires n > 0 && len <= BLOCK
    ensures AllOk(len, n, offset)
    decreases if offset < len then len - offset else 0
  {
    if offset < len {
      OneBlockAllOk(len, n, offset + n);
    }
  }

  lemma GoodChunksAllOk(len: nat, n: nat)
    requires n > 0 && GoodChunk(len, n)
    ensures AllOk(len, n, 0)
  {
    if BLOCK % n == 0 {
      DivisorsAllOk(len, n, 0);
    } else if n % BLOCK == 0 {
      WholeBlocksAllOk(len, n, 0);
    } else if n < BLOCK {
      assert RoundUp(n) == BLOCK;
      OneBlockAllOk(len, n, 0);
    } else {
      assert RoundUp(n) == (n / BLOCK + 1) * BLOCK;
      assert AllOk(len, n, n + n);
      assert AllOk(len, n, n);
    }
  }

  // ----- the others -----

  /** A chunk that crosses a boundary with file bytes beyond it delivers a wrong byte there, or too few. */
  lemma StraddleWrong(len: nat, n: nat, offset: nat)
    requires n > 0 && offset < len && !ChunkOk(len, n, offset)
    requires ChunkSize(len, n, offset) > BLOCK - offset % BLOCK
    ensures !InOrder(Positions(len, n, offset), offset, len)
  {
    var p, o := offset / BLOCK, offset % BLOCK;
    var at := BLOCK - o;
    assert offset == p * BLOCK + o;
    assert ChunkPositions(len, n, offset)[at] == (p + 1) * BLOCK + at;
    assert Positions(len, n, offset)[at] == ChunkPositions(len, n, offset)[at];
  }

  /** Small chunks that do not divide a block reach such a crossing within the first block. */
  lemma {:induction false} SmallChunksWrong(len: nat, n: nat, offset: nat)
    requires 0 < n < BLOCK < len && BLOCK % n != 0 && offset % n == 0 && offset < BLOCK
    ensures !InOrder(Positions(len, n, offset), offset, len)
    decreases BLOCK - offset
  {
    assert offset / BLOCK == 0;
    if offset + n <= BLOCK {
      NextMultiple(n, offset);
      assert offset + n != BLOCK;
      assert ChunkSize(len, n, offset) == n;
      SmallChunksWrong(len, n, offset + n);
      Joined(ChunkPositions(len, n, offset), Positions(len, n, offset + n), offset, n, len);
    } else {
      assert !ChunkOk(len, n, offset);
      StraddleWrong(len, n, offset);
    }
  }

  /** Large chunks that are not a number of blocks do so in the second chunk. */
  lemma LargeChunksWrong(len: nat, n: nat)
    requires BLOCK < n && n % BLOCK != 0 && len > RoundUp(n)
    ensures !InOrder(Positions(len, n, 0), 0, len)
  {
    var p, o := n / BLOCK, n % BLOCK;
    assert n == p * BLOCK + o && RoundUp(n) == (p + 1) * BLOCK;
    assert ChunkSize(len, n, 0) == n;
    if ChunkSize(len, n, n) > BLOCK - o {
      StraddleWrong(len, n, n);
    } else {
      SecondChunkShort(len, n);
    }
    Joined(ChunkPositions(len, n, 0), Positions(len, n, n), 0, n, len);
  }

  /** When the second chunk ends exactly at the boundary, the third begins past the byte after it. */
  lemma SecondChunkShort(len: nat, n: nat)
    requires BLOCK < n && n % BLOCK != 0 && len > RoundUp(n)
    requires ChunkSize(len, n, n) <= BLOCK - n % BLOCK
    ensures !InOrder(Positions(len, n, n), n, len)
  {
    var p, o := n / BLOCK, n % BLOCK;
    assert n == p * BLOCK + o && RoundUp(n) == (p + 1) * BLOCK;
    var a, b := ChunkPositions(len, n, n), Positions(len, n, n + n);
    assert |a| == BLOCK - o;
    assert Positions(len, n, n) == a + b;
    if n + n < len {
      ChunkBounds(len, n, n + n);
      var c := ChunkPositions(len, n, n + n);
      assert (a + b)[BLOCK - o] == b[0] == c[0];
      assert c[0] == n + n;
    }
  }

  // ----- the theorem -----

  /** Reading a well-formed file in chunks of `n` delivers it in order exactly for the good chunk sizes. */
  lemma ExactIffGoodChunk(len: nat, n: nat)
    requires n > 0
    ensures Exact(len, n) <==> GoodChunk(len, n)
  {
    if GoodChunk(len, n) {
      GoodChunksAllOk(len, n);
      OkChunksInOrder(len, n, 0);
    } else if n < BLOCK {
      assert RoundUp(n) == BLOCK;
      SmallChunksWrong(len, n, 0);
    } else {
      LargeChunksWrong(len, n);
    }
  }

  /** Whatever the chunk, fewer than `n` bytes beyond the file's length arrive in all. */
  lemma {:induction false} SlackBounded(len: nat, n: nat, offset: nat)
    requires n > 0
    ensures |Positions(len, n, offset)| < n + (if offset < len then len - offset else 0)
    decreases if offset < len then len - offset else 0
  {
    if offset < len {
      ChunkBounds(len, n, offset);
      SlackBounded(len, n, offset + n);
    }
  }
}
