/** Which bytes beyond the end of a file a front-to-back reader gets, and when it gets none. */
module ReadSlack {
  import opened Words
  import opened FileSpec
  import opened SequentialRead

  /** The positions 0 to `len` - 1, in order. */
  function Upto(len: nat): (r: seq<nat>) {
    seq(len, i => if i < 0 then 0 else i)
  }

  /** What a caller can check: one chunk holds the file; or the chunks fill it; or its last byte but one is the
      last of a block; or the second of two chunks begins one byte into the last full block. */
  predicate NoSlack(len: nat, n: nat)
    requires n > 0
  {
    n >= len || len % n == 0 || len % BLOCK == BLOCK - 1 || (len % BLOCK == 0 && n == len - BLOCK + 1)
  }

  /** Where the last chunk begins. */
  function Last(len: nat, n: nat, offset: nat): (r: nat)
    requires n > 0 && offset < len
    ensures offset <= r < len <= r + n
    decreases len - offset
  {
    if offset + n >= len then offset else Last(len, n, offset + n)
  }

  lemma {:induction false} LastMultiple(len: nat, n: nat, offset: nat)
    requires n > 0 && offset < len && offset % n == 0
    ensures Last(len, n, offset) % n == 0
    decreases len - offset
  {
    if offset + n < len {
      NextMultiple(n, offset);
      LastMultiple(len, n, offset + n);
    }
  }

  /** All chunks before the last are full. */
  lemma {:induction false} TotalLength(len: nat, n: nat, offset: nat)
    requires n > 0 && offset < len && AllOk(len, n, offset)
    ensures var last := Last(len, n, offset);
            ChunkOk(len, n, last) && |Positions(len, n, offset)| == last - offset + ChunkSize(len, n, last)
    decreases len - offset
  {
    hide ChunkSize, ChunkOk, ChunkPositions;
    if offset + n < len {
      OkChunkInOrder(len, n, offset);
      ChunkBounds(len, n, offset);
      TotalLength(len, n, offset + n);
    }
  }

  /** When the last chunk returns just what is left. */
  lemma LastChunkExact(len: nat, n: nat, last: nat)
    requires 0 < n < len && last < len <= last + n && ChunkOk(len, n, last)
    ensures ChunkSize(len, n, last) == len - last <==>
            || len == last + n || len % BLOCK == BLOCK - 1
            || (len % BLOCK == 0 && last % BLOCK == 1 && len == last + BLOCK - 1 && n >= BLOCK)
  {
    var p, o, q := last / BLOCK, last % BLOCK, len / BLOCK;
    assert last == p * BLOCK + o && len == q * BLOCK + len % BLOCK && p <= q;
    if o == 0 {
      assert Entry(p, o, q + 1) == (q + 1 - p) * BLOCK;
    } else if q == p {
      assert Entry(p, o, q + 1) == BLOCK - o;
    } else {
      assert q == p + 1 && len == q * BLOCK;
      assert Entry(p, o, q + 1) == BLOCK;
    }
  }

  lemma SameMultiple(n: nat, last: nat, len: nat)
    requires n > 0 && last % n == 0 && last < len <= last + n
    ensures len % n == 0 <==> len == last + n
  {
    var k, q := last / n, len / n;
    assert last == n * k;
    if len == last + n {
      NextMultiple(n, last);
    } else if len % n == 0 {
      assert len == n * q;
      if q <= k {
        Scaled(n, q, k);
      } else {
        Scaled(n, k + 1, q);
      }
    }
  }

  lemma {:induction false} WholeBlocksLast(len: nat, n: nat, offset: nat)
    requires n > 0 && offset < len && n % BLOCK == 0 && offset % BLOCK == 0
    ensures Last(len, n, offset) % BLOCK == 0
    decreases len - offset
  {
    if offset + n < len {
      WholeBlocksLast(len, n, offset + n);
    }
  }

  lemma LastOfTwo(len: nat, n: nat)
    requires 0 < n < len <= n + n
    ensures Last(len, n, 0) == n
  {
    assert Last(len, n, 0) == Last(len, n, n);
  }

  lemma LargeGood(len: nat, n: nat)
    requires BLOCK < n && n % BLOCK != 0 && GoodChunk(len, n)
    ensures len < n + BLOCK
  {
    hide RoundUp;
    SmallRemainder(BLOCK, n);
    RoundUpNear(n);
  }

  lemma SmallRemainder(a: nat, n: nat)
    requires a < n
    ensures a % n == a
  {
  }

  lemma RoundUpNear(n: nat)
    ensures RoundUp(n) < n + BLOCK
  {
  }

  /** A last chunk that begins one byte into a block is the second of two. */
  lemma OddLast(len: nat, n: nat)
    requires BLOCK <= n < len && GoodChunk(len, n)
    requires Last(len, n, 0) % BLOCK == 1 && len == Last(len, n, 0) + BLOCK - 1
    ensures n == len - BLOCK + 1
  {
    if n % BLOCK == 0 {
      WholeBlocksLast(len, n, 0);
      assert false;
    } else {
      LargeGood(len, n);
      LastOfTwo(len, n);
    }
  }

  lemma OddCase(len: nat, n: nat)
    requires 1 < n < len && len % BLOCK == 0 && n == len - BLOCK + 1
    ensures Last(len, n, 0) == n && n % BLOCK == 1 && n >= BLOCK
  {
    var q := len / BLOCK;
    assert len == q * BLOCK && q >= 2;
    LastOfTwo(len, n);
  }

  lemma OrderAndLength(ps: seq<nat>, len: nat)
    ensures InOrder(ps, 0, len) && |ps| == len <==> ps == Upto(len)
  {
    if InOrder(ps, 0, len) && |ps| == len {
      assert forall j :: 0 <= j < len ==> ps[j] == 0 + j;
    }
  }

  /** Reading to the end delivers the file's own bytes, in order and nothing else, exactly for good chunks that
      leave no slack. */
  lemma WholeIff(len: nat, n: nat)
    requires n > 0
    ensures Positions(len, n, 0) == Upto(len) <==> len == 0 || (GoodChunk(len, n) && NoSlack(len, n))
  {
    ExactIffGoodChunk(len, n);
    OrderAndLength(Positions(len, n, 0), len);
    if len > 0 && GoodChunk(len, n) {
      LengthIff(len, n);
    }
  }

  lemma LengthIff(len: nat, n: nat)
    requires 0 < n && 0 < len && GoodChunk(len, n)
    ensures |Positions(len, n, 0)| == len <==> NoSlack(len, n)
  {
    GoodChunksAllOk(len, n);
    TotalLength(len, n, 0);
    var last := Last(len, n, 0);
    if n < len {
      LastMultiple(len, n, 0);
      SameMultiple(n, last, len);
      LastChunkExact(len, n, last);
      if len % BLOCK == 0 && last % BLOCK == 1 && len == last + BLOCK - 1 && n >= BLOCK {
        OddLast(len, n);
      }
      if 1 < n == len - BLOCK + 1 && len % BLOCK == 0 {
        OddCase(len, n);
      }
    } else {
      OneChunk(len, n);
    }
  }

  lemma OneChunk(len: nat, n: nat)
    requires 0 < len <= n
    ensures ChunkSize(len, n, 0) == len
  {
    assert len < (len / BLOCK + 1) * BLOCK;
  }

  /** An ordinary file and a good chunk size with 3191 bytes too many. */
  lemma SlackArrives()
    ensures GoodChunk(5000, 4096) && |Positions(5000, 4096, 0)| == 8191
  {
    assert ChunkSize(5000, 4096, 0) == 4096 && ChunkSize(5000, 4096, 4096) == 4095;
    assert Positions(5000, 4096, 8192) == [];
    assert |Positions(5000, 4096, 4096)| == 4095;
  }

  // ----- how many reads it takes -----

  /** How many reads from `offset` on return something. */
  function Reads(len: nat, n: nat, offset: nat): nat
    requires n > 0
    decreases if offset < len then len - offset else 0
  {
    if offset >= len then 0 else 1 + Reads(len, n, offset + n)
  }

  /** Rounded up: `k` reads of `n` are needed when k - 1 do not cover the file and k do. */
  lemma {:induction false} ReadsCover(len: nat, n: nat, offset: nat)
    requires n > 0 && offset <= len
    ensures var k := Reads(len, n, offset);
            len <= offset + k * n && (k > 0 ==> offset + (k - 1) * n < len) && (k == 0 ==> offset == len)
    decreases len - offset
  {
    if offset < len {
      if offset + n <= len {
        ReadsCover(len, n, offset + n);
        var k := Reads(len, n, offset + n);
        assert (k + 1) * n == k * n + n;
      } else {
        assert Reads(len, n, offset + n) == 0;
      }
    }
  }
}
