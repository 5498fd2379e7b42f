/** One terminal's screen as a value: 80 by 25 cells of a character and an attribute, a cursor, and a
    count of characters since the last newline. */
module Screens {
  import opened Words

  const COLS := 80
  const ROWS := 25
  const ROW_BYTES := 160
  const SIZE := 4000
  const ATTRIB: byte := 7
  const BLANK: byte := 32
  const NEWLINE: byte := 10
  const RETURN: byte := 13
  const NUL: byte := 0

  datatype Screen = Screen(cells: seq<byte>, x: int, y: int, printed: int)

  /** The cursor is on the screen. */
  predicate InRange(s: Screen) {
    |s.cells| == SIZE && 0 <= s.x < COLS && 0 <= s.y < ROWS
  }

  function CellAt(x: int, y: int): int {
    (COLS * y + x) * 2
  }

  function BlankCells(n: nat): (b: seq<byte>)
    ensures |b| == 2 * n
  {
    seq(2 * n, i => if i % 2 == 0 then BLANK else ATTRIB)
  }

  /** Every row moves up by one and the last becomes blank. */
  function Scrolled(cells: seq<byte>): (r: seq<byte>)
    requires |cells| == SIZE
    ensures |r| == SIZE
  {
    cells[ROW_BYTES..] + BlankCells(COLS)
  }

  function WithCell(cells: seq<byte>, at: nat, c: byte): (r: seq<byte>)
    requires |cells| == SIZE && at + 1 < SIZE
    ensures |r| == SIZE
  {
    cells[at := c][at + 1 := ATTRIB]
  }

  /** `putc` and `vputc`: a newline or carriage return starts the next row, scrolling at the bottom; any
      other character is drawn at the cursor, which at the right edge returns to the start of its row. */
  function Put(s: Screen, c: byte): (r: Screen)
    requires InRange(s)
    ensures InRange(r) && r.printed == s.printed
  {
    if c == NEWLINE || c == RETURN then
      if s.y + 1 >= ROWS then s.(cells := Scrolled(s.cells), x := 0) else s.(x := 0, y := s.y + 1)
    else
      s.(cells := WithCell(s.cells, CellAt(s.x, s.y), c), x := (s.x + 1) % COLS)
  }

  /** One character of `terminal_write` or `terminal_write_keypress`.  After more than 80 characters a
      newline is put in first, and then the character is drawn whatever it is; otherwise a newline restarts
      the count and a NUL is skipped. */
  function Emit(s: Screen, c: byte): (r: Screen)
    requires InRange(s)
    ensures InRange(r)
  {
    if s.printed > COLS then
      var r := Put(Put(s, NEWLINE), c);
      r.(printed := 1)
    else if c == NEWLINE then Put(s, c).(printed := 1)
    else if c == NUL then s
    else Put(s, c).(printed := s.printed + 1)
  }

  function EmitAll(s: Screen, text: seq<byte>): (r: Screen)
    requires InRange(s)
    ensures InRange(r)
  {
    if text == [] then s else Emit(EmitAll(s, text[..|text| - 1]), text[|text| - 1])
  }

  /** `clear` and the cursor at the top left; the count goes on. */
  function Wiped(s: Screen): (r: Screen)
    ensures InRange(r)
  {
    s.(cells := BlankCells(COLS * ROWS), x := 0, y := 0)
  }
}
