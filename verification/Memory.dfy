/** The byte-moving routines of the kernel library.  An array is a stretch of memory; `base` is the
    address of its first byte, which decides where the aligned part of a fast path begins. */
module Memory {
  import opened Words

  twostate predicate Untouched(mem: array<byte>, from: nat, n: nat)
    reads mem
  {
    forall k :: 0 <= k < mem.Length && !(from <= k < from + n) ==> mem[k] == old(mem[k])
  }

  // ----- memmove -----

  /** The bytes `was` have come to `dest` from place `lo` to place `hi`. */
  ghost predicate Landed(mem: array<byte>, dest: nat, was: seq<byte>, lo: nat, hi: nat)
    reads mem
  {
    && lo <= hi <= |was| && dest + |was| <= mem.Length
    && forall k :: dest + lo <= k < dest + hi ==> mem[k] == was[k - dest]
  }

  /** From the first byte up: what is still to be copied lies above what has been written. */
  method MoveUp(mem: array<byte>, dest: nat, src: nat, n: nat)
    requires dest <= src && src + n <= mem.Length
    modifies mem
    ensures mem[dest..dest + n] == old(mem[src..src + n]) && Untouched(mem, dest, n)
  {
    ghost var was := mem[src..src + n];
    var i: nat := 0;
    while i < n
      invariant Landed(mem, dest, was, 0, i) && Landed(mem, src, was, i, n) && Untouched(mem, dest, i)
    {
      mem[dest + i] := mem[src + i];
      i := i + 1;
    }
  }

  /** From the last byte down: what is still to be copied lies below what has been written. */
  method MoveDown(mem: array<byte>, dest: nat, src: nat, n: nat)
    requires src < dest && dest + n <= mem.Length
    modifies mem
    ensures mem[dest..dest + n] == old(mem[src..src + n]) && Untouched(mem, dest, n)
  {
    ghost var was := mem[src..src + n];
    var i: nat := n;
    while i > 0
      invariant Landed(mem, dest, was, i, n) && Landed(mem, src, was, 0, i) && Untouched(mem, dest + i, n - i)
    {
      i := i - 1;
      mem[dest + i] := mem[src + i];
    }
  }

  /** `memmove`: upwards when the source is not below the destination, else downwards from the last byte.
      For every overlap the result is a copy of what the source held before. */
  method MemMove(mem: array<byte>, dest: nat, src: nat, n: nat)
    requires dest + n <= mem.Length && src + n <= mem.Length
    modifies mem
    ensures mem[dest..dest + n] == old(mem[src..src + n])
    ensures Untouched(mem, dest, n)
  {
    if src >= dest {
      MoveUp(mem, dest, src, n);
    } else {
      MoveDown(mem, dest, src, n);
    }
  }

  // ----- four bytes at a time -----

  /** `c << 24 | c << 16 | c << 8 | c` */
  function Spread(c: byte): uint32 {
    var x: int := c;
    x * 0x100_0000 + x * 0x1_0000 + x * 0x100 + x
  }

  /** Byte `k` of a word in memory, lowest first. */
  function WordByte(w: uint32, k: nat): byte
    requires k < 4
  {
    if k == 0 then w % 0x100 else if k == 1 then w / 0x100 % 0x100
    else if k == 2 then w / 0x1_0000 % 0x100 else w / 0x100_0000
  }

  /** The bytes of a word, each weighted by its place, are the word. */
  lemma WordOfBytes(w: uint32)
    ensures w == WordByte(w, 0) + 0x100 * WordByte(w, 1) + 0x1_0000 * WordByte(w, 2) + 0x100_0000 * WordByte(w, 3)
  {
    var x: int := w;
    assert x == x / 0x100 * 0x100 + x % 0x100;
    assert x / 0x100 == x / 0x1_0000 * 0x100 + x / 0x100 % 0x100;
    assert x / 0x1_0000 == x / 0x100_0000 * 0x100 + x / 0x1_0000 % 0x100;
  }

  lemma SpreadBytes(c: byte, k: nat)
    requires k < 4
    ensures WordByte(Spread(c), k) == c
  {
    var x: int := c;
    if k == 0 {
      Digit(x * 0x1_0000 + x * 0x100 + x, 0x100, x);
    } else if k == 1 {
      Digit(x * 0x1_0000 + x * 0x100 + x, 0x100, x);
      Digit(x * 0x100 + x, 0x100, x);
    } else if k == 2 {
      Digit(x * 0x100 + x, 0x1_0000, x * 0x100 + x);
      Digit(x, 0x100, x);
    } else {
      Digit(x, 0x100_0000, x * 0x1_0000 + x * 0x100 + x);
    }
  }

  lemma Digit(high: nat, unit: nat, low: nat)
    requires unit in {0x100, 0x1_0000, 0x100_0000} && low < unit
    ensures (high * unit + low) / unit == high && (high * unit + low) % unit == low
  {
  }

  method StoreWord(mem: array<byte>, at: nat, w: uint32)
    requires at + 4 <= mem.Length
    modifies mem
    ensures forall k :: at <= k < at + 4 ==> mem[k] == WordByte(w, k - at)
    ensures Untouched(mem, at, 4)
  {
    mem[at] := WordByte(w, 0);
    mem[at + 1] := WordByte(w, 1);
    mem[at + 2] := WordByte(w, 2);
    mem[at + 3] := WordByte(w, 3);
  }

  /** `memset`: single bytes up to an aligned address, then words, then the bytes left over.  It equals
      the bytewise loop for every alignment and length. */
  method MemSet(mem: array<byte>, base: nat, at: nat, value: int, n: nat)
    requires at + n <= mem.Length
    modifies mem
    ensures forall k :: at <= k < at + n ==> mem[k] == value % 0x100
    ensures Untouched(mem, at, n)
  {
    var c: byte := value % 0x100;
    var word := Spread(c);
    var edi: nat, ecx: nat := at, n;
    while ecx != 0 && (base + edi) % 4 != 0
      invariant edi + ecx == at + n && at <= edi
      invariant forall k :: at <= k < edi ==> mem[k] == c
      invariant Untouched(mem, at, edi - at)
    {
      mem[edi] := c;
      edi, ecx := edi + 1, ecx - 1;
    }
    var edx: nat := ecx % 4;
    ecx := ecx / 4;
    while ecx != 0
      invariant at <= edi && edi + 4 * ecx + edx == at + n
      invariant forall k :: at <= k < edi ==> mem[k] == c
      invariant Untouched(mem, at, edi - at)
    {
      SpreadBytes(c, 0);
      SpreadBytes(c, 1);
      SpreadBytes(c, 2);
      SpreadBytes(c, 3);
      StoreWord(mem, edi, word);
      edi, ecx := edi + 4, ecx - 1;
    }
    while edx != 0
      invariant at <= edi && edi + edx == at + n
      invariant forall k :: at <= k < edi ==> mem[k] == c
      invariant Untouched(mem, at, edi - at)
    {
      mem[edi] := c;
      edi, edx := edi + 1, edx - 1;
    }
  }

  /** `movsl`: four bytes read, then four written. */
  method CopyWord(dst: array<byte>, to: nat, src: array<byte>, from: nat)
    requires to + 4 <= dst.Length && from + 4 <= src.Length
    modifies dst
    ensures forall k :: to <= k < to + 4 ==> dst[k] == old(src[k - to + from])
    ensures Untouched(dst, to, 4)
  {
    dst[to], dst[to + 1], dst[to + 2], dst[to + 3] := src[from], src[from + 1], src[from + 2], src[from + 3];
  }

  /** The first `i` of the bytes `was` have been copied, and the rest are still where they were. */
  ghost predicate Progress(dst: array<byte>, to: nat, src: array<byte>, from: nat, was: seq<byte>, i: nat)
    reads dst, src
  {
    && to + |was| <= dst.Length && from + |was| <= src.Length && i <= |was|
    && (forall k :: to <= k < to + i ==> dst[k] == was[k - to])
    && (forall k :: from + i <= k < from + |was| ==> src[k] == was[k - from])
  }

  method CopyByteAt(dst: array<byte>, to: nat, src: array<byte>, from: nat, i: nat, ghost was: seq<byte>)
    requires Progress(dst, to, src, from, was, i) && i < |was|
    requires dst != src || to + |was| <= from || from + |was| <= to
    modifies dst
    ensures Progress(dst, to, src, from, was, i + 1)
    ensures Untouched(dst, to + i, 1)
  {
    dst[to + i] := src[from + i];
  }

  method CopyWordAt(dst: array<byte>, to: nat, src: array<byte>, from: nat, i: nat, ghost was: seq<byte>)
    requires Progress(dst, to, src, from, was, i) && i + 4 <= |was|
    requires dst != src || to + |was| <= from || from + |was| <= to
    modifies dst
    ensures Progress(dst, to, src, from, was, i + 4)
    ensures Untouched(dst, to + i, 4)
  {
    CopyWord(dst, to + i, src, from + i);
  }

  /** `memcpy` between regions that do not overlap: bytes up to an aligned destination, then words, then
      the bytes left over. */
  method MemCpy(dst: array<byte>, base: nat, to: nat, src: array<byte>, from: nat, n: nat)
    requires to + n <= dst.Length && from + n <= src.Length
    requires dst != src || to + n <= from || from + n <= to
    modifies dst
    ensures dst[to..to + n] == old(src[from..from + n])
    ensures Untouched(dst, to, n)
  {
    ghost var was := src[from..from + n];
    var i: nat, ecx: nat := 0, n;
    while ecx != 0 && (base + to + i) % 4 != 0
      invariant i + ecx == n && Progress(dst, to, src, from, was, i) && Untouched(dst, to, i)
    {
      CopyByteAt(dst, to, src, from, i, was);
      i, ecx := i + 1, ecx - 1;
    }
    var edx: nat := ecx % 4;
    ecx := ecx / 4;
    while ecx != 0
      invariant i + 4 * ecx + edx == n && Progress(dst, to, src, from, was, i) && Untouched(dst, to, i)
    {
      CopyWordAt(dst, to, src, from, i, was);
      i, ecx := i + 4, ecx - 1;
    }
    while edx != 0
      invariant i + edx == n && Progress(dst, to, src, from, was, i) && Untouched(dst, to, i)
    {
      CopyByteAt(dst, to, src, from, i, was);
      i, edx := i + 1, edx - 1;
    }
  }
}
