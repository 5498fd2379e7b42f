/** What characters and lines do to the cells of a screen, one cell at a time. */
module ScreenLaws {
  import opened Words
  import opened Screens

  datatype Glyph = Glyph(c: byte, attribute: byte)

  const Empty := Glyph(32, 7)

  /** What a place on the screen shows. */
  function At(s: Screen, col: nat, row: nat): Glyph
    requires |s.cells| == 4000 && col < 80 && row < 25
  {
    Glyph(s.cells[160 * row + 2 * col], s.cells[160 * row + 2 * col + 1])
  }

  /** A newline or carriage return: to the start of the next row, and on the bottom row everything moves up. */
  lemma NewRow(s: Screen, c: byte, col: nat, row: nat)
    requires InRange(s) && (c == NEWLINE || c == RETURN) && col < 80 && row < 25
    ensures var r := Put(s, c);
            && r.x == 0 && r.y == (if s.y < 24 then s.y + 1 else 24)
            && At(r, col, row) == if s.y < 24 then At(s, col, row) else if row < 24 then At(s, col, row + 1) else Empty
  {
  }

  /** Any other character is drawn at the cursor, with the attribute, and nowhere else. */
  lemma Drawn(s: Screen, c: byte, col: nat, row: nat)
    requires InRange(s) && c != NEWLINE && c != RETURN && col < 80 && row < 25
    ensures var r := Put(s, c);
            && r.y == s.y && r.x == (if s.x < 79 then s.x + 1 else 0)
            && At(r, col, row) == if col == s.x && row == s.y then Glyph(c, 7) else At(s, col, row)
  {
  }

  lemma Cleared(s: Screen, col: nat, row: nat)
    requires col < 80 && row < 25
    ensures var r := Wiped(s); r.x == 0 && r.y == 0 && r.printed == s.printed && At(r, col, row) == Empty
  {
  }

  lemma SameCells(s: Screen, r: Screen, col: nat, row: nat)
    requires |s.cells| == 4000 && r.cells == s.cells && col < 80 && row < 25
    ensures At(r, col, row) == At(s, col, row)
  {
  }

  // ----- one row of characters -----

  predicate Plain(c: byte) {
    c != NEWLINE && c != RETURN && c != NUL
  }

  predicate PlainText(text: seq<byte>) {
    forall c :: c in text ==> Plain(c)
  }

  /** The row from its start on shows `text`; all other places are as in `s`. */
  predicate ShowsLine(r: Screen, s: Screen, row: nat, text: seq<byte>, col: nat, at: nat)
    requires InRange(s) && InRange(r) && col < 80 && at < 25
  {
    At(r, col, at) == if at == row && col < |text| then Glyph(text[col], 7) else At(s, col, at)
  }

  lemma {:induction false} RowOfText(s: Screen, text: seq<byte>, col: nat, row: nat)
    requires InRange(s) && s.x == 0 && PlainText(text) && |text| <= 80 && s.printed + |text| <= 81
    requires col < 80 && row < 25
    ensures var r := EmitAll(s, text);
            && r.x == |text| % 80 && r.y == s.y && r.printed == s.printed + |text|
            && ShowsLine(r, s, s.y, text, col, row)
  {
    hide At, Put;
    if text != [] {
      var init, c := text[..|text| - 1], text[|text| - 1];
      assert c in text && forall d :: d in init ==> d in text;
      RowOfText(s, init, col, row);
      Drawn(EmitAll(s, init), c, col, row);
      SameCells(EmitAll(s, text), Put(EmitAll(s, init), c), col, row);
    }
  }

  // ----- lines -----

  lemma {:induction false} EmitMore(s: Screen, a: seq<byte>, b: seq<byte>)
    requires InRange(s)
    ensures EmitAll(s, a + b) == EmitAll(EmitAll(s, a), b)
    decreases |b|
  {
    if b == [] {
      assert a + b == a;
    } else {
      var init := b[..|b| - 1];
      assert (a + b)[..|a + b| - 1] == a + init;
      EmitMore(s, a, init);
    }
  }

  predicate ShortLine(line: seq<byte>) {
    |line| < 80 && PlainText(line)
  }

  /** Each line followed by a newline. */
  function Unlines(lines: seq<seq<byte>>): seq<byte> {
    if lines == [] then [] else Unlines(lines[..|lines| - 1]) + (lines[|lines| - 1] + [NEWLINE])
  }

  lemma EmitLine(s: Screen, line: seq<byte>, col: nat, row: nat)
    requires InRange(s) && s.x == 0 && s.printed <= 1 && ShortLine(line) && col < 80 && row < 25
    ensures var r, scrolls := EmitAll(s, line + [NEWLINE]), s.y == 24;
            && r.x == 0 && r.printed == 1 && r.y == (if scrolls then 24 else s.y + 1)
            && At(r, col, row) ==
               (if scrolls && row == 24 then Empty
                else
                  var from := if scrolls then row + 1 else row;
                  if from == s.y && col < |line| then Glyph(line[col], 7) else At(s, col, from))
  {
    var s1 := EmitAll(s, line);
    RowOfText(s, line, col, row);
    if row < 24 {
      RowOfText(s, line, col, row + 1);
    }
    EmitMore(s, line, [NEWLINE]);
    EmitOne(s1, NEWLINE);
    NewRow(s1, NEWLINE, col, row);
  }

  /** How far the screen has moved up once the cursor has gone `n` rows down. */
  function Shift(y: int, n: nat): (h: nat)
    requires 0 <= y < 25
  {
    if y + n > 24 then y + n - 24 else 0
  }

  /** A screen without a bottom: the lines from row `s.y` on, over what was there. */
  function Tall(s: Screen, lines: seq<seq<byte>>, col: nat, v: nat): Glyph
    requires InRange(s) && col < 80
  {
    if s.y <= v < s.y + |lines| && col < |lines[v - s.y]| then Glyph(lines[v - s.y][col], 7)
    else if v < 25 then At(s, col, v)
    else Empty
  }

  /** Lines that fit a row appear on consecutive rows, in order; when they reach the bottom the screen shows
      the last rows of the endless one. */
  lemma {:induction false} LinesAppear(s: Screen, lines: seq<seq<byte>>, col: nat, row: nat)
    requires InRange(s) && s.x == 0 && s.printed <= 1 && (forall i :: 0 <= i < |lines| ==> ShortLine(lines[i]))
    requires col < 80 && row < 25
    ensures var r, h := EmitAll(s, Unlines(lines)), Shift(s.y, |lines|);
            && r.x == 0 && r.y == s.y + |lines| - h && r.printed <= 1
            && At(r, col, row) == Tall(s, lines, col, row + h)
  {
    hide At, EmitAll, Tall, ShortLine;
    if lines == [] {
      NoLines(s, col, row);
    } else {
      var init, line := lines[..|lines| - 1], lines[|lines| - 1];
      var s1, h := EmitAll(s, Unlines(init)), Shift(s.y, |lines|);
      EmitMore(s, Unlines(init), line + [NEWLINE]);
      LinesAppear(s, init, col, row);
      if row < 24 {
        LinesAppear(s, init, col, row + 1);
      }
      EmitLine(s1, line, col, row);
      TallStep(s, lines, col, row + h);
    }
  }

  lemma NoLines(s: Screen, col: nat, row: nat)
    requires InRange(s) && col < 80 && row < 25
    ensures EmitAll(s, Unlines([])) == s && Tall(s, [], col, row) == At(s, col, row)
  {
  }

  lemma TallStep(s: Screen, lines: seq<seq<byte>>, col: nat, v: nat)
    requires InRange(s) && col < 80 && lines != []
    ensures var n := |lines| - 1;
            Tall(s, lines, col, v) ==
            if v == s.y + n && col < |lines[n]| then Glyph(lines[n][col], 7) else Tall(s, lines[..n], col, v)
    ensures v >= s.y + |lines| && v >= 25 ==> Tall(s, lines, col, v) == Empty
  {
  }

  /** After eighty characters on a row, whatever comes next starts the row below it. */
  lemma FullRow(s: Screen, text: seq<byte>, c: byte, col: nat)
    requires InRange(s) && s.x == 0 && s.printed == 1 && |text| == 80 && PlainText(text) && Plain(c) && col < 80
    ensures var r := EmitAll(s, text + [c]);
            && r.x == 1 && r.y == (if s.y < 24 then s.y + 1 else 24) && r.printed == 1
            && At(r, 0, r.y) == Glyph(c, 7) && At(r, col, r.y - 1) == Glyph(text[col], 7)
  {
    hide At, EmitAll;
    var s1 := EmitAll(s, text);
    EmitMore(s, text, [c]);
    EmitOne(s1, c);
    RowOfText(s, text, col, s.y);
    var s2 := Put(s1, NEWLINE);
    NewRow(s1, NEWLINE, col, s2.y - 1);
    Drawn(s2, c, 0, s2.y);
    Drawn(s2, c, col, s2.y - 1);
    SameCells(Emit(s1, c), Put(s2, c), 0, s2.y);
    SameCells(Emit(s1, c), Put(s2, c), col, s2.y - 1);
  }

  lemma EmitOne(s: Screen, c: byte)
    requires InRange(s)
    ensures EmitAll(s, [c]) == Emit(s, c)
  {
    assert [c][..0] == [];
    assert EmitAll(s, []) == s;
  }

  /** A NUL is skipped while the row has room. */
  lemma NulSkipped(s: Screen)
    requires InRange(s) && s.printed <= 80
    ensures Emit(s, NUL) == s
  {
  }
}
