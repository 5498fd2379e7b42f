/** Typing a line: the edit buffer of a terminal and the row it is echoed on. */
module LineEdit {
  import opened Words
  import opened Screens
  import W = ScreenLaws

  const BUFFER_SIZE := 128

  /** `starting_offset`, `input` and `previous_input` of a terminal. */
  datatype Edit = Edit(offset: int, line: seq<byte>, pointer: int, previous: seq<byte>)

  predicate Valid(e: Edit) {
    |e.line| == BUFFER_SIZE && 0 <= e.pointer < BUFFER_SIZE
  }

  function Text(e: Edit): seq<byte>
    requires Valid(e)
  {
    e.line[..e.pointer]
  }

  /** The edit buffer after a key: a newline hands the line over and starts a new one. */
  function Insert(e: Edit, c: byte): (r: Edit)
    requires Valid(e) && e.pointer < BUFFER_SIZE - 1
    ensures Valid(r)
  {
    var line := e.line[e.pointer := c];
    if c == NEWLINE then Edit(e.offset, line, 0, line[..e.pointer + 1])
    else Edit(e.offset, line, e.pointer + 1, e.previous)
  }

  /** The end of `terminal_add_to_buffer`: having reached the right edge, step to the next row, which may
      put the cursor below the screen. */
  function NextRow(s: Screen): Screen
    requires InRange(s)
  {
    s.(y := s.y + 1, cells := if s.y + 1 >= ROWS - 1 then Scrolled(s.cells) else s.cells, printed := 0)
  }

  /** `terminal_add_to_buffer` on the displayed terminal. */
  function KeyIn(s: Screen, e: Edit, c: byte): (Screen, Edit)
    requires InRange(s) && Valid(e)
  {
    if e.pointer >= BUFFER_SIZE - 1 then (s, e)
    else
      var r, s1 := Insert(e, c), Emit(s, c);
      (if s1.x == 0 && r.pointer >= COLS - e.offset then NextRow(s1) else s1, r)
  }

  /** The column and row `terminal_backspace` moves to. */
  function BackTo(s: Screen, e: Edit): (int, int) {
    if e.pointer != COLS - e.offset then (s.x - 1, s.y) else (COLS - 1, if s.y > 0 then s.y - 1 else s.y)
  }

  /** There is a place to move back to: after the screen was cleared there may be none. */
  predicate CanStepBack(s: Screen, e: Edit) {
    e.pointer <= 0 || e.pointer == COLS - e.offset || s.x > 0
  }

  /** `terminal_backspace` on the displayed terminal: a blank is drawn over the last character. */
  function Backspace(s: Screen, e: Edit): (r: (Screen, Edit))
    requires InRange(s) && Valid(e) && CanStepBack(s, e)
    ensures InRange(r.0) && Valid(r.1)
  {
    if e.pointer <= 0 then (s, e)
    else
      var (x, y) := BackTo(s, e);
      (Screen(WithCell(s.cells, CellAt(x, y), BLANK), x, y, s.printed - 1), e.(pointer := e.pointer - 1))
  }

  // ----- the row shows the text -----

  /** From column `e.offset` on, the cursor's row shows the edited text and then blanks; there is room for
      one more character, and no line break is due. */
  ghost predicate InStep(s: Screen, e: Edit) {
    && InRange(s) && Valid(e) && 0 <= e.offset
    && s.x == e.offset + e.pointer < COLS
    && s.printed <= s.x + 1
    && forall k {:trigger CellAt(k, s.y)} :: e.offset <= k < COLS ==>
         s.cells[CellAt(k, s.y)] == if k - e.offset < e.pointer then e.line[k - e.offset] else BLANK
  }

  datatype Key = Char(c: byte) | Erase

  predicate Printable(k: Key) {
    k.Char? ==> k.c != NEWLINE && k.c != RETURN && k.c != NUL
  }

  /** One key, where what it does is defined. */
  function Press(s: Screen, e: Edit, k: Key): Option<(Screen, Edit)> {
    if !InRange(s) || !Valid(e) then None
    else match k
      case Char(c) => Some(KeyIn(s, e, c))
      case Erase => if CanStepBack(s, e) then Some(Backspace(s, e)) else None
  }

  function PressAll(s: Screen, e: Edit, keys: seq<Key>): Option<(Screen, Edit)> {
    if keys == [] then Some((s, e))
    else match PressAll(s, e, keys[..|keys| - 1])
      case None => None
      case Some(r) => Press(r.0, r.1, keys[|keys| - 1])
  }

  /** What the user means to type. */
  function Typed(text: seq<byte>, k: Key): seq<byte> {
    match k
    case Char(c) => text + [c]
    case Erase => if text == [] then [] else text[..|text| - 1]
  }

  function TypedAll(text: seq<byte>, keys: seq<Key>): seq<byte> {
    if keys == [] then text else Typed(TypedAll(text, keys[..|keys| - 1]), keys[|keys| - 1])
  }

  lemma CharInStep(s: Screen, e: Edit, c: byte)
    requires InStep(s, e) && Printable(Char(c)) && e.offset + e.pointer + 1 < COLS
    ensures var (s', e') := KeyIn(s, e, c);
            InStep(s', e') && Text(e') == Text(e) + [c] && s'.y == s.y && e'.offset == e.offset && e'.previous == e.previous
  {
    var (s', e') := KeyIn(s, e, c);
    assert s' == Put(s, c).(printed := s.printed + 1);
    forall k | e.offset <= k < COLS
      ensures s'.cells[CellAt(k, s.y)] == if k - e.offset < e'.pointer then e'.line[k - e.offset] else BLANK
    {
      assert k != s.x ==> s'.cells[CellAt(k, s.y)] == s.cells[CellAt(k, s.y)];
    }
  }

  lemma EraseInStep(s: Screen, e: Edit)
    requires InStep(s, e)
    ensures CanStepBack(s, e)
    ensures var (s', e') := Backspace(s, e);
            InStep(s', e') && Text(e') == Typed(Text(e), Erase) && s'.y == s.y && e'.offset == e.offset && e'.previous == e.previous
  {
    if e.pointer > 0 {
      var (s', e') := Backspace(s, e);
      forall k | e.offset <= k < COLS
        ensures s'.cells[CellAt(k, s.y)] == if k - e.offset < e'.pointer then e'.line[k - e.offset] else BLANK
      {
        assert k != s'.x ==> s'.cells[CellAt(k, s.y)] == s.cells[CellAt(k, s.y)];
      }
      assert Text(e)[..e.pointer - 1] == Text(e');
    }
  }

  /** Every key that keeps the text shorter than the rest of the row can be pressed safely. */
  ghost predicate Fits(offset: int, text: seq<byte>, keys: seq<Key>) {
    forall i :: 0 <= i <= |keys| ==> offset + |TypedAll(text, keys[..i])| < COLS
  }

  /** For any mix of characters and backspaces that stays on the row, the screen and the buffer show what
      was typed. */
  lemma {:induction false} RowShowsText(s: Screen, e: Edit, keys: seq<Key>)
    requires InStep(s, e) && Fits(e.offset, Text(e), keys) && forall k :: k in keys ==> Printable(k)
    ensures PressAll(s, e, keys).Some?
    ensures var (s', e') := PressAll(s, e, keys).value;
            && InStep(s', e') && Text(e') == TypedAll(Text(e), keys)
            && s'.y == s.y && e'.offset == e.offset && e'.previous == e.previous
  {
    if keys != [] {
      var init, k := keys[..|keys| - 1], keys[|keys| - 1];
      forall i | 0 <= i <= |init| ensures e.offset + |TypedAll(Text(e), init[..i])| < COLS {
        assert init[..i] == keys[..i];
      }
      RowShowsText(s, e, init);
      var (s1, e1) := PressAll(s, e, init).value;
      assert keys[..|keys|] == keys;
      assert k in keys;
      if k.Char? {
        assert |TypedAll(Text(e), keys)| == |Text(e1)| + 1;
        CharInStep(s1, e1, k.c);
      } else {
        EraseInStep(s1, e1);
      }
    }
  }

  /** A newline then delivers exactly the text, followed by the newline, empties the buffer, and leaves the
      cursor at the start of the row below. */
  lemma NewlineDelivers(s: Screen, e: Edit)
    requires InStep(s, e)
    ensures var (s', e') := KeyIn(s, e, NEWLINE);
            && e'.previous == Text(e) + [NEWLINE] && e'.pointer == 0 && e'.offset == e.offset
            && s'.x == 0 && s'.y == (if s.y < 24 then s.y + 1 else 24) && s'.printed == 1
  {
    W.NewRow(s, NEWLINE, 0, 0);
  }

  // ----- the end of the row -----

  /** The key that fills the row: the text has reached the right edge, and the cursor goes to the next row.
      When that is one of the last two, everything has moved up by one, the cursor has not. */
  lemma KeyFillsRow(s: Screen, e: Edit, c: byte, col: nat, row: nat)
    requires InStep(s, e) && Printable(Char(c)) && e.offset + e.pointer + 1 == COLS && col < 80 && row < 25
    ensures var (s', e') := KeyIn(s, e, c);
            && s'.x == 0 && s'.y == s.y + 1 && s'.printed == 0
            && e'.pointer == COLS - e.offset && Text(e') == Text(e) + [c]
            && |s'.cells| == SIZE
            && W.At(s', col, row) ==
               (if s.y < 23 then (if col == 79 && row == s.y then W.Glyph(c, 7) else W.At(s, col, row))
                else if row == 24 then W.Empty
                else if col == 79 && row + 1 == s.y then W.Glyph(c, 7) else W.At(s, col, row + 1))
  {
    hide Put, InStep;
    ScreenOf(s, e);
    W.Drawn(s, c, col, row);
    if row < 24 {
      W.Drawn(s, c, col, row + 1);
    }
    var (s', e') := KeyIn(s, e, c);
    assert s'.cells == if s.y < 23 then Put(s, c).cells else Scrolled(Put(s, c).cells);
  }

  /** A backspace takes the last key back, also over the end of the row, unless the screen moved up: the cursor,
      the text and every character on the screen are as before. */
  lemma BackspaceUndoes(s: Screen, e: Edit, c: byte, col: nat, row: nat)
    requires InStep(s, e) && Printable(Char(c)) && (e.offset + e.pointer + 1 == COLS ==> s.y < 23) && col < 80 && row < 25
    ensures var (s1, e1) := KeyIn(s, e, c);
            && InRange(s1) && Valid(e1) && CanStepBack(s1, e1)
            && var (s2, e2) := Backspace(s1, e1);
               && s2.x == s.x && s2.y == s.y && Text(e2) == Text(e) && e2.offset == e.offset && e2.previous == e.previous
               && s2.printed == (if e.offset + e.pointer + 1 == COLS then -1 else s.printed)
               && W.At(s2, col, row).c == W.At(s, col, row).c
  {
    hide Put, InStep;
    ScreenOf(s, e);
    W.Drawn(s, c, col, row);
    var (s1, e1) := KeyIn(s, e, c);
    assert e1.pointer == e.pointer + 1 && e1.line == e.line[e.pointer := c];
    if e.offset + e.pointer + 1 == COLS {
      assert s1.cells == Put(s, c).cells && s1.y == s.y + 1;
    }
    var (s2, e2) := Backspace(s1, e1);
    assert s2.cells == WithCell(s1.cells, CellAt(s.x, s.y), BLANK);
    assert e2.line[..e.pointer] == e.line[..e.pointer];
  }

  lemma ScreenOf(s: Screen, e: Edit)
    requires InStep(s, e)
    ensures InRange(s) && Valid(e) && 0 <= e.offset && s.x == e.offset + e.pointer < COLS && s.printed <= s.x + 1
    ensures W.At(s, s.x, s.y).c == BLANK
  {
    assert s.cells[CellAt(s.x, s.y)] == BLANK;
  }
}
