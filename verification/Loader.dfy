/** Finding a program by name and copying its image into a task's frame. */
module Loader {
  import opened Words
  import opened FileSpec
  import opened FileSys
  import Memory
  import Paging
  import S = SequentialRead
  import O = OpenFiles

  const FILE_TYPE := 2
  const PROGRAM_IMAGE := 0x4_8000
  /** ELF_MAGIC, 0x464c457f, as it lies in memory. */
  const MAGIC: seq<byte> := [0x7f, 0x45, 0x4c, 0x46]
  const WHOLE: uint32 := 0xFFFF_FFFF
  const TABLES := 0x2000

  datatype Entry = Missing | Found(fileType: uint32, inode: uint32)

  /** The first directory entry from `d` on with this name, all 32 bytes of it. */
  function Search(fs: Image, fname: seq<byte>, d: nat): (r: int)
    requires Valid(fs) && d <= fs.numDentries
    ensures -1 <= r < fs.numDentries
    ensures r >= 0 ==> d <= r && fs.dentries[r].name == fname && forall k :: d <= k < r ==> fs.dentries[k].name != fname
    ensures r < 0 ==> forall k :: d <= k < fs.numDentries ==> fs.dentries[k].name != fname
    decreases fs.numDentries - d
  {
    if d == fs.numDentries then -1 else if fs.dentries[d].name == fname then d else Search(fs, fname, d + 1)
  }

  /** Any name that starts with a dot means the first entry. */
  function Lookup(fs: Image, fname: seq<byte>): Entry
    requires Valid(fs) && |fname| == FILENAME_LEN
  {
    if fname[0] == '.' as int then Found(fs.dentries[0].fileType, fs.dentries[0].inodeNum)
    else
      var d := Search(fs, fname, 0);
      if d < 0 then Missing else Found(fs.dentries[d].fileType, fs.dentries[d].inodeNum)
  }

  method SameName(a: seq<byte>, b: seq<byte>) returns (equal: bool)
    requires |a| == FILENAME_LEN && |b| == FILENAME_LEN
    ensures equal <==> a == b
  {
    equal := true;
    var j := 0;
    while j < FILENAME_LEN
      invariant 0 <= j <= FILENAME_LEN && equal && a[..j] == b[..j]
    {
      if a[j] != b[j] {
        return false;
      }
      j := j + 1;
    }
    assert a == a[..FILENAME_LEN] && b == b[..FILENAME_LEN];
  }

  method CopyName(name: array<byte>, from: seq<byte>)
    requires name.Length == FILENAME_LEN && |from| == FILENAME_LEN
    modifies name
    ensures name[..] == from
  {
    for i := 0 to FILENAME_LEN
      invariant name[..i] == from[..i]
    {
      name[i] := from[i];
    }
    assert name[..] == name[..FILENAME_LEN] && from == from[..FILENAME_LEN];
  }

  /** `read_dentry_by_name`: the entry's type and inode are returned, its name is copied to `name`. */
  method ReadDentryByName(fs: Image, fname: seq<byte>, name: array<byte>) returns (r: Entry)
    requires Valid(fs) && |fname| == FILENAME_LEN && name.Length == FILENAME_LEN
    modifies name
    ensures r == Lookup(fs, fname)
    ensures fname[0] == '.' as int ==>
              && r == Found(fs.dentries[0].fileType, fs.dentries[0].inodeNum)
              && name[0] == '.' as int && forall j :: 1 <= j < FILENAME_LEN ==> name[j] == old(name[j])
    ensures fname[0] != '.' as int ==>
              (r == Missing <==> forall d :: 0 <= d < fs.numDentries ==> fs.dentries[d].name != fname)
    ensures fname[0] != '.' as int && r == Missing ==> name[..] == old(name[..])
    ensures fname[0] != '.' as int && r != Missing ==>
              exists d :: 0 <= d < fs.numDentries && fs.dentries[d].name == fname == name[..]
                && r == Found(fs.dentries[d].fileType, fs.dentries[d].inodeNum)
                && forall j :: 0 <= j < d ==> fs.dentries[j].name != fname
  {
    if fname[0] == '.' as int {
      name[0] := '.' as int;
      return Found(fs.dentries[0].fileType, fs.dentries[0].inodeNum);
    }
    var i := 0;
    while i < fs.numDentries
      invariant 0 <= i <= fs.numDentries && Search(fs, fname, 0) == Search(fs, fname, i)
      invariant name[..] == old(name[..])
    {
      var equal := SameName(fs.dentries[i].name, fname);
      if equal {
        CopyName(name, fs.dentries[i].name);
        assert Search(fs, fname, 0) == i;
        return Found(fs.dentries[i].fileType, fs.dentries[i].inodeNum);
      }
      i := i + 1;
    }
    return Missing;
  }

  /** The file exists, is a regular file, and its first four bytes can be read and are the magic number. */
  ghost predicate Loads(fs: Image, fname: seq<byte>)
    requires Valid(fs) && |fname| == FILENAME_LEN
  {
    var e := Lookup(fs, fname);
    e.Found? && e.fileType == FILE_TYPE && Result(fs, e.inode, 0, 4) == 4 && Delivered(fs, e.inode, 0)[..4] == MAGIC
  }

  function LittleEndian(b: seq<byte>): uint32
    requires |b| == 4
  {
    var b0: int, b1: int, b2: int, b3: int := b[0], b[1], b[2], b[3];
    b0 + 0x100 * b1 + 0x1_0000 * b2 + 0x100_0000 * b3
  }

  /** The word has the four bytes, lowest first. */
  lemma LittleEndianBytes(b: seq<byte>, k: nat)
    requires |b| == 4 && k < 4
    ensures Memory.WordByte(LittleEndian(b), k) == b[k]
    ensures ToUint32(ToInt32(LittleEndian(b))) == LittleEndian(b)
  {
    var b0: int, b1: int, b2: int, b3: int := b[0], b[1], b[2], b[3];
    Memory.Digit(b1 + 0x100 * b2 + 0x1_0000 * b3, 0x100, b0);
    Memory.Digit(b2 + 0x100 * b3, 0x1_0000, b0 + 0x100 * b1);
    Memory.Digit(b3, 0x100_0000, b0 + 0x100 * b1 + 0x1_0000 * b2);
    Memory.Digit(b2 + 0x100 * b3, 0x100, b1);
    Memory.Digit(b3, 0x100, b2);
  }

  /** The first word of a program is ELF_MAGIC. */
  lemma MagicIs()
    ensures LittleEndian(MAGIC) == 0x464c_457f
  {
  }

  /** How much of memory loading writes. */
  function ImageSize(fs: Image, fname: seq<byte>): nat
    requires Valid(fs) && |fname| == FILENAME_LEN
  {
    var e := Lookup(fs, fname);
    if e.Found? then Stored(fs, e.inode, 0, WHOLE) else 0
  }

  /** The little-endian word at an address, as a signed result. */
  method ReadWord(mem: array<byte>, at: nat) returns (r: int32)
    requires at + 4 <= mem.Length
    ensures forall k :: 0 <= k < 4 ==> Memory.WordByte(ToUint32(r), k) == mem[at + k]
  {
    ghost var word := mem[at..at + 4];
    r := ToInt32(LittleEndian(mem[at..at + 4]));
    forall k | 0 <= k < 4 ensures Memory.WordByte(ToUint32(r), k) == mem[at + k] {
      LittleEndianBytes(word, k);
    }
  }

  /** The second half of `load_program`: all of the image, and the word at offset 24. */
  method CopyImage(fs: Image, inode: uint32, mem: array<byte>, at: nat) returns (r: int32)
    requires Valid(fs) && at + Stored(fs, inode, 0, WHOLE) <= mem.Length && at + 28 <= mem.Length
    modifies mem
    ensures var n := Stored(fs, inode, 0, WHOLE);
            && mem[at..at + n] == Delivered(fs, inode, 0)[..n] && OnlyChanged(mem, at, n)
            && (forall k :: 0 <= k < 4 ==> Memory.WordByte(ToUint32(r), k) == mem[at + 24 + k])
            && (n >= 28 ==> forall k :: 24 <= k < 28 ==> mem[at + k] == Delivered(fs, inode, 0)[k])
  {
    hide Memory.WordByte, Delivered, Stored;
    var copied := ReadData(fs, inode, 0, mem, at, WHOLE);
    ghost var n, d := Stored(fs, inode, 0, WHOLE), Delivered(fs, inode, 0);
    forall k | 0 <= k < n ensures mem[at + k] == d[k] {
      assert mem[at + k] == mem[at..at + n][k];
    }
    r := ReadWord(mem, at + 24);
  }

  /** `load_program`: copies with the largest possible length, which stops at the end of the file, and
      returns the word at offset 24 whatever that copy returned. */
  method LoadProgram(fs: Image, fname: seq<byte>, mem: array<byte>, at: nat) returns (r: int)
    requires Valid(fs) && |fname| == FILENAME_LEN
    requires at + ImageSize(fs, fname) <= mem.Length && at + 28 <= mem.Length
    modifies mem
    ensures !Loads(fs, fname) ==> r == -1 && OnlyChanged(mem, 0, 0)
    ensures Loads(fs, fname) ==>
              var inode, n := Lookup(fs, fname).inode, ImageSize(fs, fname);
              && n <= |Delivered(fs, inode, 0)| && mem[at..at + n] == Delivered(fs, inode, 0)[..n] && OnlyChanged(mem, at, n)
              && (forall k :: 0 <= k < 4 ==> Memory.WordByte(ToUint32(r), k) == mem[at + 24 + k])
              && (n >= 28 ==> forall k :: 24 <= k < 28 ==> mem[at + k] == Delivered(fs, inode, 0)[k])
  {
    var dentryName := new byte[FILENAME_LEN];
    var e := ReadDentryByName(fs, fname, dentryName);
    if e.Missing? || e.fileType != FILE_TYPE {
      return -1;
    }
    var header := new byte[4];
    var got := ReadData(fs, e.inode, 0, header, 0, 4);
    if got != 4 {
      return -1;
    }
    HeaderStored(fs, e.inode);
    if header[..] != MAGIC {
      assert header[..] == header[0..4];
      return -1;
    }
    assert header[..] == header[0..4];
    r := CopyImage(fs, e.inode, mem, at);
  }

  lemma HeaderStored(fs: Image, inode: nat)
    requires Valid(fs) && Result(fs, inode, 0, 4) == 4
    ensures Stored(fs, inode, 0, 4) == 4 && !Refused(fs, inode, 0)
  {
  }

  /** For a well-formed file, loading copies all of its blocks: the file's contents come first, and the
      word returned is the one the file holds at offset 24. */
  lemma WholeImageLoaded(fs: Image, fname: seq<byte>)
    requires Valid(fs) && |fname| == FILENAME_LEN && Loads(fs, fname)
    requires var i := Lookup(fs, fname).inode; i < |fs.inodes| && WellFormed(fs, fs.inodes[i])
    ensures var inode := Lookup(fs, fname).inode; var node := fs.inodes[inode];
            && ImageSize(fs, fname) == Pages(node) * BLOCK == |Delivered(fs, inode, 0)|
            && O.Contents(fs, inode) <= Delivered(fs, inode, 0)
            && forall k :: 0 <= k < Pages(node) * BLOCK ==> Delivered(fs, inode, 0)[k] == O.ByteAt(fs, inode, k)
  {
    var inode := Lookup(fs, fname).inode;
    var node := fs.inodes[inode];
    O.NoMissingPage(fs, node, 0);
    var d := Delivered(fs, inode, 0);
    forall k | 0 <= k < Pages(node) * BLOCK ensures d[k] == O.ByteAt(fs, inode, k) {
      SourceGood(fs, node, 0, 0, Pages(node), k);
    }
    assert d[..node.len] == O.Contents(fs, inode);
  }

  /** Loading into a task's 4MB frame leaves the page directory and table at its bottom alone. */
  method LoadIntoFrame(fs: Image, fname: seq<byte>, frame: array<byte>) returns (r: int)
    requires Valid(fs) && |fname| == FILENAME_LEN && frame.Length == Paging.SIZE_4MB
    requires PROGRAM_IMAGE + ImageSize(fs, fname) <= frame.Length
    modifies frame
    ensures frame[..TABLES] == old(frame[..TABLES])
    ensures !Loads(fs, fname) ==> r == -1 && frame[..] == old(frame[..])
    ensures Loads(fs, fname) ==>
              var inode, n := Lookup(fs, fname).inode, ImageSize(fs, fname);
              && n <= |Delivered(fs, inode, 0)|
              && frame[PROGRAM_IMAGE..PROGRAM_IMAGE + n] == Delivered(fs, inode, 0)[..n]
              && (forall k :: 0 <= k < 4 ==> Memory.WordByte(ToUint32(r), k) == frame[PROGRAM_IMAGE + 24 + k])
              && (n >= 28 ==> forall k :: 24 <= k < 28 ==> frame[PROGRAM_IMAGE + k] == Delivered(fs, inode, 0)[k])
  {
    r := LoadProgram(fs, fname, frame, PROGRAM_IMAGE);
  }
}
