/** `grep`'s search of one file through a 1024-byte buffer, in place, against `GrepSpec`. */
module Grep {
  import opened GrepSpec

  /** Where `ece391_fdputs` writes. */
  class Console {
    var out: string

    constructor ()
      ensures out == ""
    {
      out := "";
    }

    method Put(s: string)
      modifies this
      ensures out == old(out) + s
    {
      out := out + s;
    }
  }

  /** An open file: each read delivers as many bytes as are asked for and left.  `good` is the number of
      reads before one fails, negative if none does. */
  class Reader {
    var rest: string
    var good: int

    constructor (file: string, good: int)
      ensures rest == file && this.good == good
    {
      rest, this.good := file, good;
    }

    method Read(buf: array<char>, at: nat, n: nat) returns (cnt: int)
      requires at + n <= buf.Length
      modifies this, buf
      ensures cnt == -1 <==> old(good) == 0
      ensures good == if old(good) == 0 then 0 else old(good) - 1
      ensures cnt == -1 ==> rest == old(rest) && buf[..] == old(buf[..])
      ensures cnt != -1 ==> cnt == Min(n, |old(rest)|) && rest == old(rest)[cnt..]
      ensures cnt != -1 ==> buf[..] == old(buf[..at]) + old(rest)[..cnt] + old(buf[at..])[cnt..]
    {
      if good == 0 {
        return -1;
      }
      good := good - 1;
      cnt := Min(n, |rest|);
      forall i | 0 <= i < cnt {
        buf[at + i] := rest[i];
      }
      rest := rest[cnt..];
    }
  }

  /** A NUL-terminated string lies in `data[start..end]`. */
  ghost predicate StringAt(data: array<char>, start: nat, end: nat)
    reads data
  {
    start <= end < data.Length && data[end] == NUL && forall i :: start <= i < end ==> data[i] != NUL
  }

  // ----- the string routines it uses -----

  /** `ece391_strcpy(data, data + from)`: the two ranges overlap. */
  method CopyDown(data: array<char>, from: nat, ghost end: nat)
    requires StringAt(data, from, end)
    modifies data
    ensures data[..end - from] == old(data[from..end])
    ensures data[end - from + 1..] == old(data[end - from + 1..])
    ensures data[end - from] == NUL
  {
    ghost var n := end - from;
    var i: nat := 0;
    while true
      invariant i <= n
      invariant forall k :: 0 <= k < i ==> data[k] == old(data[from + k])
      invariant forall k :: i <= k < data.Length ==> data[k] == old(data[k])
      decreases n - i
    {
      var c := data[from + i];
      data[i] := c;
      if c == NUL {
        break;
      }
      i := i + 1;
    }
  }

  /** `ece391_strncmp(data + at, pat, |pat|)` on NUL-terminated data and a pattern without NUL. */
  method StrNCmp(data: array<char>, at: nat, pat: string, ghost end: nat) returns (r: int)
    requires at <= end < data.Length && data[end] == NUL && NulFree(pat)
    ensures r == 0 <==> at + |pat| <= end && data[at..at + |pat|] == pat
  {
    if |pat| == 0 {
      return 0;
    }
    var i: nat := 0;
    while data[at + i] == pat[i]
      invariant i < |pat| && at + i <= end && data[at..at + i] == pat[..i]
      decreases |pat| - i
    {
      if data[at + i] == NUL || i + 1 == |pat| {
        assert data[at..at + i + 1] == pat[..i + 1];
        return 0;
      }
      i := i + 1;
    }
    return data[at + i] as int - pat[i] as int;
  }

  /** `ece391_fdputs(1, data + at)` */
  method PutFrom(console: Console, data: array<char>, at: nat, ghost end: nat)
    requires StringAt(data, at, end)
    modifies console
    ensures console.out == old(console.out) + data[at..end]
  {
    var len: nat := 0;
    while data[at + len] != NUL
      invariant at + len <= end
      decreases end - len
    {
      len := len + 1;
    }
    console.Put(data[at..at + len]);
  }

  // ----- one line -----

  method FindNewline(data: array<char>, start: nat, last: nat) returns (end: nat)
    requires start <= last <= data.Length
    ensures start <= end <= last
    ensures forall i :: start <= i < end ==> data[i] != NL
    ensures end < last ==> data[end] == NL
  {
    end := start;
    while end < last && data[end] != NL
      invariant start <= end <= last
      invariant forall i :: start <= i < end ==> data[i] != NL
    {
      end := end + 1;
    }
  }

  lemma Slice(data: array<char>, start: nat, end: nat, at: nat, n: nat)
    requires start <= at && at + n <= end <= data.Length
    ensures data[start..end][at - start..at - start + n] == data[at..at + n]
  {
    var a, b := data[start..end][at - start..at - start + n], data[at..at + n];
    forall k | 0 <= k < n ensures a[k] == b[k] {
      assert a[k] == data[start..end][at - start + k] == data[at + k];
    }
  }

  /** Compares the first characters before calling `ece391_strncmp`; the empty pattern's first character
      is its NUL, which no line contains. */
  method TryAt(data: array<char>, check: nat, pat: string, ghost start: nat, ghost end: nat) returns (found: bool)
    requires StringAt(data, start, end) && start <= check < end && NulFree(pat)
    ensures found <==> pat != [] && OccursAt(data[start..end], pat, check - start)
  {
    ghost var line := data[start..end];
    assert data[check] == line[check - start];
    var first := if |pat| == 0 then NUL else pat[0];
    if check + |pat| <= end {
      Slice(data, start, end, check, |pat|);
    }
    if first != data[check] {
      assert |pat| > 0 && check + |pat| <= end ==> data[check..check + |pat|][0] == data[check];
      return false;
    }
    var diff := StrNCmp(data, check, pat, end);
    return diff == 0;
  }

  method PrintMatch(console: Console, data: array<char>, start: nat, fname: string, ghost end: nat)
    requires StringAt(data, start, end)
    modifies console
    ensures console.out == old(console.out) + Report(fname, data[start..end])
    ensures console.out == old(console.out) + (fname + ":" + data[start..end] + "\n")
  {
    console.Put(fname);
    console.Put(":");
    PutFrom(console, data, start, end);
    console.Put([NL]);
    assert console.out == old(console.out) + (fname + ":" + data[start..end] + [NL]);
  }

  /** Tries each place in the line until the pattern is found, and then prints the line once. */
  method SearchLine(console: Console, data: array<char>, start: nat, end: nat, fname: string, pat: string)
    requires StringAt(data, start, end) && NulFree(pat)
    modifies console
    ensures console.out == old(console.out) + ReportIf(fname, pat, data[start..end])
    ensures console.out == old(console.out) +
              if pat != "" && (exists i: nat :: OccursAt(data[start..end], pat, i))
              then fname + ":" + data[start..end] + "\n" else ""
  {
    ghost var line := data[start..end];
    var check := start;
    while check < end
      invariant start <= check <= end && console.out == old(console.out)
      invariant forall i: nat :: i < check - start ==> pat == [] || !OccursAt(line, pat, i)
    {
      var found := TryAt(data, check, pat, start, end);
      if found {
        PrintMatch(console, data, start, fname, end);
        return;
      }
      check := check + 1;
    }
    assert console.out == old(console.out) + "";
  }

  // ----- one buffer -----

  /** The buffer between reads: what it holds has no NUL, and the byte after it is no stale newline. */
  ghost predicate Ready(data: array<char>, last: nat)
    reads data
  {
    data.Length == BUFSIZE + 1 && last <= BUFSIZE && data[BUFSIZE] != NL && forall i :: 0 <= i < last ==> data[i] != NUL
  }

  /** Searches the lines in `data[..filled]` and returns how much of an unfinished last line was moved to
      the front.  `rest` is the unread part of the file: empty if the buffer is not full, or if the read
      that filled it delivered nothing. */
  method ScanBuffer(console: Console, data: array<char>, filled: nat, cnt: nat, fname: string, pat: string,
                    ghost rest: string)
    returns (last: nat, ghost more: string)
    requires Ready(data, filled) && NulFree(pat)
    requires filled == BUFSIZE || rest == []
    requires cnt == 0 ==> rest == []
    modifies console, data
    ensures last < BUFSIZE && Ready(data, last)
    ensures console.out == old(console.out) + more
    ensures more + Left(fname, pat, data[..last], rest) == Left(fname, pat, old(data[..filled]), rest)
    ensures cnt == 0 ==> last == 0
  {
    hide Left;
    var start := 0;
    more := "";
    assert data[0..filled] == data[..filled];
    ghost var todo := Left(fname, pat, data[..filled], rest);
    ghost var goal := todo;
    while true
      invariant start <= filled && (start == filled ==> start == 0)
      invariant data[BUFSIZE] != NL && forall i :: start <= i < filled ==> data[i] != NUL
      invariant console.out == old(console.out) + more
      invariant more + todo == goal
      invariant todo == Left(fname, pat, data[start..filled], rest)
      decreases filled - start
    {
      var stop, next;
      ghost var report, after;
      stop, next, report, after := ScanStep(console, data, start, filled, cnt, fname, pat, rest);
      Chain(more, report, after, todo);
      more, todo := more + report, after;
      if stop {
        return next, more;
      }
      start := next;
    }
  }

  /** One round of the inner loop: either `stop`, with `next` bytes kept at the front of the buffer, or
      the next line starts at `next`. */
  method ScanStep(console: Console, data: array<char>, start: nat, filled: nat, cnt: nat, fname: string, pat: string,
                  ghost rest: string)
    returns (stop: bool, next: nat, ghost report: string, ghost after: string)
    requires data.Length == BUFSIZE + 1 && start <= filled <= BUFSIZE && NulFree(pat)
    requires filled == BUFSIZE || rest == []
    requires cnt == 0 ==> rest == []
    requires data[BUFSIZE] != NL && forall i :: start <= i < filled ==> data[i] != NUL
    modifies console, data
    ensures console.out == old(console.out) + report
    ensures stop ==> next < BUFSIZE && Ready(data, next) && (cnt == 0 ==> next == 0)
    ensures report + after == Left(fname, pat, old(data[start..filled]), rest)
    ensures stop ==> after == Left(fname, pat, data[..next], rest)
    ensures !stop ==> start < next < filled && data[BUFSIZE] != NL && forall i :: next <= i < filled ==> data[i] != NUL
    ensures !stop ==> after == Left(fname, pat, data[next..filled], rest)
  {
    hide Left;
    var end := FindNewline(data, start, filled);
    if data[end] != NL && cnt != 0 && start != 0 {
      next := CarryOver(data, start, end);
      return true, next, "", Left(fname, pat, data[..next], rest);
    }
    next, report := SearchPiece(console, data, start, end, filled, fname, pat, rest);
    after := Left(fname, pat, if next <= filled then data[next..filled] else [], rest);
    stop := next >= filled;
    if stop {
      assert data[..0] == [] && data[filled..filled] == [];
      next := 0;
    }
  }

  lemma Chain(a: string, b: string, c: string, d: string)
    requires b + c == d
    ensures (a + b) + c == a + d
  {
  }

  /** Terminates the piece found, searches it, and returns where the next one starts. */
  method SearchPiece(console: Console, data: array<char>, start: nat, end: nat, filled: nat, fname: string, pat: string,
                     ghost rest: string)
    returns (next: nat, ghost report: string)
    requires data.Length == BUFSIZE + 1 && start <= end <= filled <= BUFSIZE && NulFree(pat) && data[BUFSIZE] != NL
    requires forall i :: start <= i < filled ==> data[i] != NUL
    requires forall i :: start <= i < end ==> data[i] != NL
    requires if end < filled then data[end] == NL else filled - start == BUFSIZE || rest == []
    modifies console, data
    ensures next == end + 1 && data[BUFSIZE] != NL
    ensures forall i :: next <= i < filled ==> data[i] != NUL
    ensures console.out == old(console.out) + report
    ensures report + Left(fname, pat, if next <= filled then data[next..filled] else [], rest) ==
            Left(fname, pat, old(data[start..filled]), rest)
  {
    hide Left, ReportIf;
    ghost var piece := data[start..end];
    ghost var after := if end < filled then data[end + 1..filled] else [];
    if end < filled {
      assert data[start..filled] == piece + [NL] + after;
      PieceBeforeNewline(piece, after, rest, fname, pat);
    } else {
      PieceAtEnd(piece, rest, fname, pat);
    }
    report := ReportIf(fname, pat, piece);
    data[end] := NUL;
    assert data[start..end] == piece;
    SearchLine(console, data, start, end, fname, pat);
    assert end < filled ==> data[end + 1..filled] == after;
    next := end + 1;
  }

  /** Moves the unfinished line to the front. */
  method CarryOver(data: array<char>, start: nat, end: nat) returns (last: nat)
    requires Ready(data, 0) && 0 < start <= end <= BUFSIZE
    requires forall i :: start <= i < end ==> data[i] != NUL
    modifies data
    ensures last == end - start && data[..last] == old(data[start..end]) && Ready(data, last)
  {
    data[end] := NUL;
    assert data[start..end] == old(data[start..end]);
    assert forall i :: start <= i < end ==> data[i] == old(data[i]);
    CopyDown(data, start, end);
    last := end - start;
    assert data[BUFSIZE] == data[last + 1..][BUFSIZE - last - 1];
    assert forall i :: 0 <= i < last ==> data[i] == data[..last][i] == old(data[start..end])[i];
  }

  // ----- one file -----

  /** One round of the outer loop: `more` is what it prints. */
  method ReadAndScan(console: Console, reader: Reader, data: array<char>, last: nat, fname: string, pat: string)
    returns (cnt: int, next: nat, ghost more: string)
    requires last < BUFSIZE && Ready(data, last) && NulFree(reader.rest) && NulFree(pat)
    modifies console, reader, data
    ensures cnt == -1 <==> old(reader.good) == 0
    ensures old(reader.good) < 0 ==> reader.good < 0
    ensures next < BUFSIZE && Ready(data, next) && NulFree(reader.rest)
    ensures console.out == old(console.out) + more
    ensures more + Left(fname, pat, data[..next], reader.rest) == Left(fname, pat, old(data[..last]), old(reader.rest))
    ensures cnt >= -1 && (cnt > 0 ==> |reader.rest| < |old(reader.rest)|)
    ensures cnt == 0 ==> next == 0 && reader.rest == [] && old(reader.rest) == []
  {
    ghost var held, unread, tail := data[..last], reader.rest, data[last..];
    cnt := reader.Read(data, last, BUFSIZE - last);
    if cnt == -1 {
      assert data[..last] == held;
      return -1, last, "";
    }
    AfterRead(data, last, held, unread, tail, cnt);
    next, more := ScanBuffer(console, data, last + cnt, cnt, fname, pat, reader.rest);
  }

  lemma AfterRead(data: array<char>, last: nat, held: string, unread: string, tail: string, cnt: nat)
    requires data.Length == BUFSIZE + 1 && last < BUFSIZE && |held| == last && |tail| == BUFSIZE + 1 - last
    requires cnt <= |unread| && cnt <= BUFSIZE - last && data[..] == held + unread[..cnt] + tail[cnt..]
    requires NulFree(held) && NulFree(unread) && tail[BUFSIZE - last] != NL
    ensures Ready(data, last + cnt) && NulFree(unread[cnt..])
    ensures data[..last + cnt] + unread[cnt..] == held + unread
  {
    assert data[..][BUFSIZE] == tail[BUFSIZE - last];
    assert data[..last + cnt] == data[..][..last + cnt] == held + unread[..cnt];
    forall i | 0 <= i < last + cnt ensures data[i] != NUL {
      assert data[i] == (held + unread[..cnt])[i];
    }
  }

  /** The outer loop of `do_one_file`: reads and searches until a read delivers nothing, or fails. */
  method SearchAll(console: Console, reader: Reader, data: array<char>, fname: string, pat: string)
    returns (ok: bool, ghost printed: string)
    requires Ready(data, 0) && NulFree(pat) && NulFree(reader.rest)
    modifies console, reader, data
    ensures console.out == old(console.out) + printed
    ensures old(reader.good) < 0 ==> ok
    ensures ok ==> reader.rest == "" && printed == Left(fname, pat, [], old(reader.rest))
    ensures !ok ==> printed <= Left(fname, pat, [], old(reader.rest))
  {
    hide Left;
    printed := "";
    ghost var all := Left(fname, pat, [], reader.rest);
    assert data[..0] == [];
    var last, cnt := 0, -1;
    while cnt != 0
      invariant 0 <= last < BUFSIZE && Ready(data, last) && NulFree(reader.rest)
      invariant console.out == old(console.out) + printed
      invariant printed + Left(fname, pat, data[..last], reader.rest) == all
      invariant old(reader.good) < 0 ==> reader.good < 0
      invariant cnt == 0 ==> last == 0 && reader.rest == []
      decreases |reader.rest| + (if cnt == 0 then 0 else 1)
    {
      ghost var more;
      ghost var todo := Left(fname, pat, data[..last], reader.rest);
      cnt, last, more := ReadAndScan(console, reader, data, last, fname, pat);
      Chain(printed, more, Left(fname, pat, data[..last], reader.rest), todo);
      printed := printed + more;
      if cnt == -1 {
        assert printed == all[..|printed|];
        return false, printed;
      }
    }
    NothingLeft(fname, pat);
    assert data[..last] == [];
    return true, printed;
  }

  lemma NothingLeft(fname: string, pat: string)
    ensures Left(fname, pat, [], []) == ""
  {
  }

  /** `do_one_file`, with the outcomes of opening and closing the file and the bytes that happen to be in
      its buffer as parameters.  `printed` is what it prints before any message: on success exactly the
      output for the pieces of the file, and when a read fails a beginning of it. */
  method DoOneFile(console: Console, reader: Reader, data: array<char>, fname: string, pat: string, opens: bool, closes: bool)
    returns (r: int, ghost printed: string)
    requires Ready(data, 0) && NulFree(pat) && NulFree(reader.rest)
    modifies console, reader, data
    ensures r == 0 || r == -1
    ensures !opens ==> r == -1 && console.out == old(console.out) + "file open failed\n"
    ensures opens && closes && old(reader.good) < 0 ==> r == 0
    ensures r == 0 ==> opens && closes && reader.rest == "" && console.out == old(console.out) + printed
    ensures r == 0 ==> printed == Output(fname, pat, Pieces(old(reader.rest)))
    ensures opens && r != 0 ==> printed <= Output(fname, pat, Pieces(old(reader.rest)))
    ensures opens && r != 0 ==>
              (console.out == old(console.out) + printed + "file read failed\n" ||
               console.out == old(console.out) + printed + "file close failed\n")
  {
    if !opens {
      console.Put("file open failed\n");
      return -1, "";
    }
    assert [] + reader.rest == reader.rest;
    var ok;
    ok, printed := SearchAll(console, reader, data, fname, pat);
    if !ok {
      console.Put("file read failed\n");
      return -1, printed;
    }
    if !closes {
      console.Put("file close failed\n");
      return -1, printed;
    }
    return 0, printed;
  }

  /** For a file whose lines all fit the buffer, a successful search prints exactly the lines that
      contain the pattern, once each and in file order. */
  method GrepFile(console: Console, reader: Reader, data: array<char>, fname: string, pat: string)
    requires Ready(data, 0) && NulFree(pat) && NulFree(reader.rest) && ShortLines(reader.rest) && reader.good < 0
    modifies console, reader, data
    ensures console.out == old(console.out) + Output(fname, pat, Lines(old(reader.rest)))
  {
    ShortLinesExact(fname, pat, reader.rest);
    var r;
    ghost var printed;
    r, printed := DoOneFile(console, reader, data, fname, pat, true, true);
  }
}
