/** What `grep` should print: the lines of a file that contain a pattern.  Bytes are characters. */
module GrepSpec {
  const BUFSIZE := 1024
  const NL := '\n'
  const NUL := '\0'

  function Min(a: nat, b: nat): nat {
    if a < b then a else b
  }

  /** Where the first newline is, or the length if there is none. */
  function FirstNewline(s: string): (k: nat)
    ensures k <= |s|
    ensures forall i :: 0 <= i < k ==> s[i] != NL
    ensures k < |s| ==> s[k] == NL
  {
    if s == [] || s[0] == NL then 0 else 1 + FirstNewline(s[1..])
  }

  /** The lines of a file, without their newlines; the last one need not have one. */
  function Lines(s: string): seq<string>
    decreases |s|
  {
    if s == [] then []
    else
      var k := FirstNewline(s);
      if k == |s| then [s] else [s[..k]] + Lines(s[k + 1..])
  }

  /** Each line with a newline after it. */
  function Unlines(lines: seq<string>): string {
    if lines == [] then "" else lines[0] + [NL] + Unlines(lines[1..])
  }

  ghost predicate OccursAt(line: string, pat: string, i: nat) {
    i + |pat| <= |line| && line[i..i + |pat|] == pat
  }

  /** An empty pattern occurs nowhere: the search asks for its first character. */
  ghost predicate Matches(line: string, pat: string) {
    pat != [] && exists i: nat :: OccursAt(line, pat, i)
  }

  function Report(fname: string, line: string): string {
    fname + ":" + line + [NL]
  }

  ghost function ReportIf(fname: string, pat: string, line: string): string {
    if Matches(line, pat) then Report(fname, line) else ""
  }

  /** One report for each matching line, in order. */
  ghost function Output(fname: string, pat: string, lines: seq<string>): string {
    if lines == [] then "" else ReportIf(fname, pat, lines[0]) + Output(fname, pat, lines[1..])
  }

  ghost predicate NulFree(s: string) {
    forall i :: 0 <= i < |s| ==> s[i] != NUL
  }

  // ----- what a 1024-byte buffer can see -----

  /** The file cut at newlines, and also wherever 1024 bytes go by without one. */
  function Pieces(s: string): seq<string>
    decreases |s|
  {
    if s == [] then []
    else
      var k, m := FirstNewline(s), Min(BUFSIZE, |s|);
      if k < m then [s[..k]] + Pieces(s[k + 1..]) else [s[..m]] + Pieces(s[m..])
  }

  lemma FirstNewlineIs(s: string, k: nat)
    requires k <= |s| && (forall i :: 0 <= i < k ==> s[i] != NL) && (k < |s| ==> s[k] == NL)
    ensures FirstNewline(s) == k
  {
  }

  lemma OutputCons(fname: string, pat: string, line: string, rest: seq<string>)
    ensures Output(fname, pat, [line] + rest) == ReportIf(fname, pat, line) + Output(fname, pat, rest)
  {
    assert ([line] + rest)[1..] == rest;
  }

  lemma EmptyLineSilent(fname: string, pat: string)
    ensures ReportIf(fname, pat, "") == ""
  {
    if pat != [] {
      forall i: nat ensures !OccursAt("", pat, i) {}
    }
  }

  /** A newline within reach ends a piece. */
  lemma PieceAtNewline(fname: string, pat: string, s: string, k: nat)
    requires k < |s| && k < BUFSIZE && s[k] == NL && forall i :: 0 <= i < k ==> s[i] != NL
    ensures Output(fname, pat, Pieces(s)) == ReportIf(fname, pat, s[..k]) + Output(fname, pat, Pieces(s[k + 1..]))
  {
    hide Output, ReportIf;
    FirstNewlineIs(s, k);
    OutputCons(fname, pat, s[..k], Pieces(s[k + 1..]));
  }

  /** So does a full buffer, or the end of the file, without one. */
  lemma PieceWithoutNewline(fname: string, pat: string, s: string, m: nat)
    requires m == Min(BUFSIZE, |s|) && forall i :: 0 <= i < m ==> s[i] != NL
    ensures Output(fname, pat, Pieces(s)) == ReportIf(fname, pat, s[..m]) + Output(fname, pat, Pieces(s[m..]))
  {
    if s == [] {
      EmptyLineSilent(fname, pat);
    } else {
      OutputCons(fname, pat, s[..m], Pieces(s[m..]));
    }
  }

  /** What is still to be printed for the bytes in the buffer and the unread part of the file. */
  ghost function Left(fname: string, pat: string, buf: string, rest: string): string {
    Output(fname, pat, Pieces(buf + rest))
  }

  lemma PieceBeforeNewline(piece: string, after: string, rest: string, fname: string, pat: string)
    requires |piece| < BUFSIZE && forall i :: 0 <= i < |piece| ==> piece[i] != NL
    ensures Left(fname, pat, piece + [NL] + after, rest) == ReportIf(fname, pat, piece) + Left(fname, pat, after, rest)
  {
    var s, k := piece + [NL] + after + rest, |piece|;
    assert s[..k] == piece;
    assert s[k + 1..] == after + rest;
    assert s[k] == NL;
    assert forall i :: 0 <= i < k ==> s[i] == piece[i];
    PieceAtNewline(fname, pat, s, k);
  }

  lemma PieceAtEnd(piece: string, rest: string, fname: string, pat: string)
    requires |piece| <= BUFSIZE && forall i :: 0 <= i < |piece| ==> piece[i] != NL
    requires |piece| == BUFSIZE || rest == []
    ensures Left(fname, pat, piece, rest) == ReportIf(fname, pat, piece) + Left(fname, pat, [], rest)
  {
    var s := piece + rest;
    PieceWithoutNewline(fname, pat, s, |piece|);
    assert s[..|piece|] == piece;
    assert s[|piece|..] == [] + rest;
  }

  // ----- when the pieces are the lines -----

  ghost predicate ShortLines(s: string) {
    forall i :: 0 <= i < |Lines(s)| ==> |Lines(s)[i]| <= BUFSIZE
  }

  function FirstLine(s: string): string {
    s[..FirstNewline(s)]
  }

  function AfterLine(s: string): (r: string)
    requires s != []
    ensures |r| < |s|
  {
    var k := FirstNewline(s);
    if k == |s| then [] else s[k + 1..]
  }

  lemma LinesCons(s: string)
    requires s != []
    ensures Lines(s) == [FirstLine(s)] + Lines(AfterLine(s))
  {
    var k := FirstNewline(s);
    if k == |s| {
      assert s[..k] == s;
      assert Lines(AfterLine(s)) == [];
    }
  }

  lemma UnlinesCons(line: string, rest: seq<string>)
    ensures Unlines([line] + rest) == line + [NL] + Unlines(rest)
  {
    assert ([line] + rest)[1..] == rest;
  }

  /** The first line with its newline, and what comes after it, are the text. */
  lemma FirstLineEnds(s: string)
    requires s != []
    ensures NL !in FirstLine(s)
    ensures FirstLine(s) + [NL] + AfterLine(s) == if |FirstLine(s)| == |s| then s + [NL] else s
    ensures AfterLine(s) == [] && |FirstLine(s)| < |s| ==> s[|s| - 1] == NL
    ensures |FirstLine(s)| == |s| ==> s[|s| - 1] != NL && AfterLine(s) == []
    ensures AfterLine(s) != [] ==> AfterLine(s)[|AfterLine(s)| - 1] == s[|s| - 1] && |FirstLine(s)| < |s|
  {
  }

  lemma Regroup(line: string, rest: string)
    ensures line + [NL] + (rest + [NL]) == line + [NL] + rest + [NL]
  {
  }

  /** The lines hold no newline, and with their newlines they are the file again, up to a missing last one. */
  lemma {:induction false} LinesAreTheFile(s: string)
    ensures forall line <- Lines(s) :: NL !in line
    ensures Unlines(Lines(s)) == if s == "" || s[|s| - 1] == NL then s else s + [NL]
    decreases |s|
  {
    if s != [] {
      hide Lines, FirstLine, AfterLine, Unlines;
      FirstLineEnds(s);
      LinesCons(s);
      LinesAreTheFile(AfterLine(s));
      UnlinesCons(FirstLine(s), Lines(AfterLine(s)));
      Regroup(FirstLine(s), AfterLine(s));
    }
  }

  lemma ShortCons(s: string)
    requires s != []
    ensures ShortLines(s) <==> |FirstLine(s)| <= BUFSIZE && ShortLines(AfterLine(s))
  {
    LinesCons(s);
    var all, rest := Lines(s), Lines(AfterLine(s));
    assert all[0] == FirstLine(s);
    forall i | 0 <= i < |rest| ensures rest[i] == all[i + 1] {}
    forall i | 1 <= i < |all| ensures all[i] == rest[i - 1] {}
  }

  lemma Prefixed(x: string, a: string, b: string)
    requires a != b
    ensures x + a != x + b
  {
    assert (x + a)[|x|..] == a && (x + b)[|x|..] == b;
  }

  /** A line that fits the buffer is reported whole, once. */
  lemma PieceOfShortLine(fname: string, pat: string, s: string)
    requires s != [] && |FirstLine(s)| <= BUFSIZE
    ensures Output(fname, pat, Pieces(s)) ==
            ReportIf(fname, pat, FirstLine(s)) + Output(fname, pat, Pieces(AfterLine(s)))
  {
    var k := FirstNewline(s);
    if k < BUFSIZE && k < |s| {
      PieceAtNewline(fname, pat, s, k);
    } else {
      PieceWithoutNewline(fname, pat, s, k);
      if k < |s| {
        NewlineOnly(fname, pat, s[k..]);
        assert s[k..][1..] == AfterLine(s);
      } else {
        assert s[k..] == AfterLine(s);
      }
    }
  }

  /** When the newline comes just after a full buffer, all that is left of the line prints nothing. */
  lemma NewlineOnly(fname: string, pat: string, s: string)
    requires s != [] && s[0] == NL
    ensures Output(fname, pat, Pieces(s)) == Output(fname, pat, Pieces(s[1..]))
  {
    PieceAtNewline(fname, pat, s, 0);
    EmptyLineSilent(fname, pat);
    assert s[..0] == "";
  }

  /** With no line longer than the buffer, grep prints exactly the matching lines. */
  lemma {:induction false} ShortLinesExact(fname: string, pat: string, s: string)
    requires ShortLines(s)
    ensures Output(fname, pat, Pieces(s)) == Output(fname, pat, Lines(s))
    decreases |s|
  {
    if s != [] {
      LinesCons(s);
      ShortCons(s);
      ShortLinesExact(fname, pat, AfterLine(s));
      OutputCons(fname, pat, FirstLine(s), Lines(AfterLine(s)));
      PieceOfShortLine(fname, pat, s);
    }
  }

  /** A longer line is reported in pieces, each cut at 1024 bytes: for a file with such a line there is
      always a pattern whose output is wrong, namely the line's first character. */
  lemma {:induction false} LongLineBreaks(fname: string, s: string) returns (pat: string)
    requires !ShortLines(s)
    ensures Output(fname, pat, Pieces(s)) != Output(fname, pat, Lines(s))
    decreases |s|
  {
    LinesCons(s);
    ShortCons(s);
    if |FirstLine(s)| > BUFSIZE {
      pat := [s[0]];
      LongFirstLine(fname, s);
    } else {
      pat := LongLineBreaks(fname, AfterLine(s));
      OutputCons(fname, pat, FirstLine(s), Lines(AfterLine(s)));
      PieceOfShortLine(fname, pat, s);
      Prefixed(ReportIf(fname, pat, FirstLine(s)), Output(fname, pat, Pieces(AfterLine(s))),
               Output(fname, pat, Lines(AfterLine(s))));
    }
  }

  lemma LongFirstLine(fname: string, s: string)
    requires s != [] && |FirstLine(s)| > BUFSIZE
    ensures Output(fname, [s[0]], Pieces(s)) != Output(fname, [s[0]], Lines(s))
  {
    var pat, line := [s[0]], FirstLine(s);
    LinesCons(s);
    assert OccursAt(line, pat, 0);
    assert OccursAt(s[..BUFSIZE], pat, 0);
    PieceWithoutNewline(fname, pat, s, BUFSIZE);
    OutputCons(fname, pat, line, Lines(AfterLine(s)));
    ReportsDiffer(fname, s[..BUFSIZE], line, Output(fname, pat, Pieces(s[BUFSIZE..])),
                  Output(fname, pat, Lines(AfterLine(s))));
  }

  lemma ReportsDiffer(fname: string, short: string, long: string, a: string, b: string)
    requires |short| < |long| && forall i :: 0 <= i < |long| ==> long[i] != NL
    ensures Report(fname, short) + a != Report(fname, long) + b
  {
    var at := |fname| + 1 + |short|;
    assert (Report(fname, short) + a)[at] == NL;
    assert (Report(fname, long) + b)[at] == long[|short|];
  }

  /** The exact condition: grep is right for every pattern when no line is longer than 1024 bytes, and
      wrong for some pattern otherwise. */
  lemma ExactIffShortLines(fname: string, s: string)
    ensures ShortLines(s) <==>
            forall pat: string :: Output(fname, pat, Pieces(s)) == Output(fname, pat, Lines(s))
  {
    if ShortLines(s) {
      forall pat: string ensures Output(fname, pat, Pieces(s)) == Output(fname, pat, Lines(s)) {
        ShortLinesExact(fname, pat, s);
      }
    } else {
      var pat := LongLineBreaks(fname, s);
    }
  }
}
