/** The three terminals in the source's own shape: video memory, a buffer for each terminal that is not
    shown, the cursor kept in each terminal and the one kept by the library, all changed in place. */
module Terminals {
  import opened Words
  import opened Screens
  import opened Desks
  import opened Memory
  import L = LineEdit

  /** The fields of a `terminal` besides its video buffer. */
  datatype Term = Term(x: int, y: int, printed: int, edit: L.Edit)

  // ----- drawing into a screen buffer -----

  method ClearLine(a: array<byte>, row: int)
    requires a.Length == SIZE
    modifies a
    ensures 0 <= row < ROWS ==> a[..] == old(a[..ROW_BYTES * row]) + BlankCells(COLS) + old(a[ROW_BYTES * (row + 1)..])
    ensures !(0 <= row < ROWS) ==> a[..] == old(a[..])
  {
    if row < 0 || row >= ROWS {
      return;
    }
    var base := COLS * row * 2;
    var i := 0;
    while i < COLS
      invariant 0 <= i <= COLS
      invariant forall k :: base <= k < base + 2 * i ==> a[k] == BlankCells(COLS)[k - base]
      invariant forall k :: 0 <= k < SIZE && !(base <= k < base + 2 * i) ==> a[k] == old(a[k])
    {
      a[base + 2 * i] := BLANK;
      a[base + 2 * i + 1] := ATTRIB;
      i := i + 1;
    }
  }

  method ScrollUp(a: array<byte>)
    requires a.Length == SIZE
    modifies a
    ensures a[..] == Scrolled(old(a[..]))
    ensures forall k :: 0 <= k < SIZE ==>
              a[k] == if k < SIZE - ROW_BYTES then old(a[k + ROW_BYTES]) else if k % 2 == 0 then BLANK else ATTRIB
  {
    MemMove(a, 0, ROW_BYTES, ROW_BYTES * (ROWS - 1));
    assert a[..SIZE - ROW_BYTES] == old(a[ROW_BYTES..]);
    ClearLine(a, ROWS - 1);
  }

  /** `clear` */
  method ClearAll(a: array<byte>)
    requires a.Length == SIZE
    modifies a
    ensures a[..] == BlankCells(COLS * ROWS)
    ensures forall k :: 0 <= k < SIZE ==> a[k] == if k % 2 == 0 then BLANK else ATTRIB
  {
    var i := 0;
    while i < COLS * ROWS
      invariant 0 <= i <= COLS * ROWS
      invariant forall k :: 0 <= k < 2 * i ==> a[k] == BlankCells(COLS * ROWS)[k]
    {
      a[2 * i] := BLANK;
      a[2 * i + 1] := ATTRIB;
      i := i + 1;
    }
  }

  /** The body that `putc` and `vputc` share: draws at the cursor given and returns where it goes. */
  method DrawAt(a: array<byte>, x: int, y: int, c: byte) returns (nx: int, ny: int)
    requires a.Length == SIZE && 0 <= x < COLS && 0 <= y < ROWS
    modifies a
    ensures 0 <= nx < COLS && 0 <= ny < ROWS
    ensures forall p :: Screen(a[..], nx, ny, p) == Put(Screen(old(a[..]), x, y, p), c)
  {
    if c == NEWLINE || c == RETURN {
      ny := y + 1;
      nx := 0;
      if ny >= ROWS {
        ScrollUp(a);
        ny := ny - 1;
      }
    } else {
      a[(COLS * y + x) * 2] := c;
      a[(COLS * y + x) * 2 + 1] := ATTRIB;
      nx := (x + 1) % COLS;
      ny := (y + nx / COLS) % ROWS;
      assert a[..] == WithCell(old(a[..]), CellAt(x, y), c);
    }
  }

  const VIDEO := 0xB_8000
  const SHELL_OFFSET := 7

  const BlankScreen: Screen := Screen(BlankCells(COLS * ROWS), 0, 0, 0)

  class Console {
    const video: array<byte>
    const buf0: array<byte>
    const buf1: array<byte>
    const buf2: array<byte>
    const base: nat          // where the buffers are in memory
    var terms: seq<Term>
    var shown: int
    var cursorX: int
    var cursorY: int

    function Buf(t: int): array<byte> {
      if t == 0 then buf0 else if t == 1 then buf1 else buf2
    }

    /** Four separate stretches of memory, a displayed terminal, and the library's cursor on the screen. */
    predicate Valid()
      reads this
    {
      && video.Length == SIZE && buf0.Length == SIZE && buf1.Length == SIZE && buf2.Length == SIZE
      && video != buf0 && video != buf1 && video != buf2 && buf0 != buf1 && buf0 != buf2 && buf1 != buf2
      && |terms| == 3 && 0 <= shown < 3 && 0 <= cursorX < COLS && 0 <= cursorY < ROWS
      && forall t :: 0 <= t < 3 ==> L.Valid(terms[t].edit)
    }

    /** What terminal `t` looks like: video memory if it is shown, else its own buffer. */
    ghost function Logical(t: int): Screen
      requires |terms| == 3 && 0 <= t < 3
      reads this, video, buf0, buf1, buf2
    {
      Screen(if t == shown then video[..] else Buf(t)[..], terms[t].x, terms[t].y, terms[t].printed)
    }

    ghost function PanelOf(t: int): Panel
      requires |terms| == 3 && 0 <= t < 3
      reads this, video, buf0, buf1, buf2
    {
      Panel(Logical(t), terms[t].edit)
    }

    ghost function TheDesk(): Desk
      requires |terms| == 3 && 0 <= shown
      reads this, video, buf0, buf1, buf2
    {
      Desk([PanelOf(0), PanelOf(1), PanelOf(2)], shown)
    }

    /** Terminals other than `t`, and everything but the drawing of `t`, are as before. */
    twostate predicate OthersSame(t: int)
      requires |old(terms)| == 3 && |terms| == 3
      reads this, video, buf0, buf1, buf2
    {
      && shown == old(shown)
      && (forall u :: 0 <= u < 3 && u != t ==> Logical(u) == old(Logical(u)))
      && (forall u :: 0 <= u < 3 ==> terms[u].edit == old(terms)[u].edit)
    }

    /** `terminal_open` */
    constructor (base: nat)
      ensures Valid() && fresh(video) && fresh(buf0) && fresh(buf1) && fresh(buf2)
      ensures Usable(TheDesk()) && shown == 0
      ensures forall t :: 0 <= t < 3 ==>
                Logical(t) == BlankScreen && terms[t].edit.offset == SHELL_OFFSET && terms[t].edit.pointer == 0
    {
      this.base := base;
      video := new byte[SIZE];
      buf0 := new byte[SIZE];
      buf1 := new byte[SIZE];
      buf2 := new byte[SIZE];
      var t := Term(0, 0, 0, L.Edit(SHELL_OFFSET, seq(L.BUFFER_SIZE, _ => NUL), 0, []));
      terms := [t, t, t];
      shown, cursorX, cursorY := 0, 0, 0;
      new;
      ClearAll(buf0);
      ClearAll(buf1);
      ClearAll(buf2);
      ClearAll(video);
    }

    // ----- drawing -----

    method SetCursorPos(x: int, y: int)
      modifies this`cursorX, this`cursorY
      ensures cursorX == if 0 <= x < COLS then x else old(cursorX)
      ensures cursorY == if 0 <= y < ROWS then y else old(cursorY)
    {
      if x >= 0 && x < COLS {
        cursorX := x;
      }
      if y >= 0 && y < ROWS {
        cursorY := y;
      }
    }

    /** Draws one character on terminal `t`, in video memory through the library's cursor if it is shown
        and in its buffer otherwise. */
    method DrawOn(t: int, c: byte)
      requires Valid() && 0 <= t < 3 && InRange(Logical(t))
      modifies this`terms, this`cursorX, this`cursorY, if t == shown then video else Buf(t)
      ensures Valid() && Logical(t) == Put(old(Logical(t)), c) && OthersSame(t)
    {
      var x, y;
      if t == shown {
        SetCursorPos(terms[t].x, terms[t].y);
        cursorX, cursorY := DrawAt(video, cursorX, cursorY, c);
        x, y := cursorX, cursorY;
      } else {
        x, y := DrawAt(Buf(t), terms[t].x, terms[t].y, c);
      }
      terms := terms[t := terms[t].(x := x, y := y)];
    }

    method SetPrinted(t: int, n: int)
      requires Valid() && 0 <= t < 3
      modifies this`terms
      ensures Valid() && Logical(t) == old(Logical(t)).(printed := n) && OthersSame(t)
    {
      terms := terms[t := terms[t].(printed := n)];
    }

    /** The loop body of `terminal_write` and of `terminal_write_keypress`. */
    method EmitOn(t: int, c: byte)
      requires Valid() && 0 <= t < 3 && InRange(Logical(t))
      modifies this`terms, this`cursorX, this`cursorY, if t == shown then video else Buf(t)
      ensures Valid() && Logical(t) == Emit(old(Logical(t)), c) && OthersSame(t)
    {
      if terms[t].printed > COLS {
        DrawOn(t, NEWLINE);
        SetPrinted(t, 0);
      } else if c == NEWLINE {
        SetPrinted(t, 0);
      } else if c == NUL {
        return;
      }
      DrawOn(t, c);
      SetPrinted(t, terms[t].printed + 1);
    }

    method EmitText(t: int, text: seq<byte>)
      requires Valid() && 0 <= t < 3 && InRange(Logical(t))
      modifies this`terms, this`cursorX, this`cursorY, if t == shown then video else Buf(t)
      ensures Valid() && Logical(t) == EmitAll(old(Logical(t)), text) && OthersSame(t)
    {
      var i := 0;
      while i < |text|
        invariant 0 <= i <= |text| && Valid() && OthersSame(t)
        invariant Logical(t) == EmitAll(old(Logical(t)), text[..i])
      {
        EmitOn(t, text[i]);
        assert text[..i + 1][..i] == text[..i];
        i := i + 1;
      }
      assert text[..|text|] == text;
    }

    // ----- what programs and the keyboard do -----

    /** `terminal_write` by a program of tree `exec`. */
    method TerminalWrite(exec: int, text: seq<byte>, nbytes: int) returns (r: int)
      requires Valid() && 0 <= exec < 3 && InRange(Logical(exec)) && nbytes <= |text|
      modifies this, video, buf0, buf1, buf2
      ensures Valid() && r == 0
      ensures Some(TheDesk()) == if nbytes <= 0 then Some(old(TheDesk())) else Step(old(TheDesk()), Write(exec, text[..nbytes]))
      ensures OthersSame(exec)
      ensures Logical(exec) == if nbytes <= 0 then old(Logical(exec)) else EmitAll(old(Logical(exec)), text[..nbytes])
    {
      if nbytes <= 0 {
        return 0;
      }
      hide EmitAll;
      ghost var d := TheDesk();
      EmitText(exec, text[..nbytes]);
      OnIs(d, exec, Text(text[..nbytes]), TheDesk());
      return 0;
    }

    /** `terminal_write_keypress`: always on the displayed terminal. */
    method TerminalWriteKeypress(text: seq<byte>, nbytes: int) returns (r: int)
      requires Valid() && InRange(Logical(shown)) && nbytes <= |text|
      modifies this, video, Buf(shown)
      ensures Valid() && r == 0 && OthersSame(shown)
      ensures Logical(shown) == if nbytes <= 0 then old(Logical(shown)) else EmitAll(old(Logical(shown)), text[..nbytes])
    {
      if nbytes <= 0 {
        return 0;
      }
      EmitText(shown, text[..nbytes]);
      return 0;
    }

    /** `terminal_clear` */
    method TerminalClear()
      requires Valid()
      modifies this, video
      ensures Valid() && Some(TheDesk()) == Step(old(TheDesk()), Clear) && OthersSame(shown)
      ensures forall k :: 0 <= k < SIZE ==> video[k] == if k % 2 == 0 then BLANK else ATTRIB
      ensures terms[shown].x == 0 && terms[shown].y == 0
    {
      ghost var d := TheDesk();
      ClearAll(video);
      terms := terms[shown := terms[shown].(x := 0, y := 0)];
      SetCursorPos(0, 0);
      OnIs(d, shown, Wipe, TheDesk());
    }

    /** `set_current_terminal`: saves video memory in the old terminal's buffer and loads the new one's. */
    method SetCurrentTerminal(term: int)
      requires Valid()
      modifies this`shown, video, buf0, buf1, buf2
      ensures Valid() && Some(TheDesk()) == Step(old(TheDesk()), Switch(term))
      ensures terms == old(terms) && shown == if 0 <= term <= 2 then term else old(shown)
      ensures forall u :: 0 <= u < 3 ==> Logical(u) == old(Logical(u))
    {
      if shown == term || term < 0 || term > 2 {
        return;
      }
      MemCpy(Buf(shown), base, 0, video, 0, SIZE);
      assert Buf(shown)[..] == old(video[..]);
      shown := term;
      MemCpy(video, VIDEO, 0, Buf(shown), 0, SIZE);
      assert video[..] == old(Buf(term)[..]);
    }

    // ----- line editing on the displayed terminal -----

    /** `terminal_add_to_buffer` */
    method AddToBuffer(c: byte)
      requires Valid() && InRange(Logical(shown))
      modifies this, video, Buf(shown)
      ensures Valid() && shown == old(shown)
      ensures (Logical(shown), terms[shown].edit) == L.KeyIn(old(Logical(shown)), old(terms[shown].edit), c)
      ensures old(terms[shown].edit.pointer) >= L.BUFFER_SIZE - 1 ==> Logical(shown) == old(Logical(shown)) && terms == old(terms)
      ensures forall u :: 0 <= u < 3 && u != shown ==> Logical(u) == old(Logical(u)) && terms[u].edit == old(terms)[u].edit
    {
      var e := terms[shown].edit;
      if e.pointer >= L.BUFFER_SIZE - 1 {
        return;
      }
      RecordKey(c);
      var r := TerminalWriteKeypress([c], 1);
      OneCharacter(old(Logical(shown)), c);
      if terms[shown].x == 0 && terms[shown].edit.pointer >= COLS - e.offset {
        StepDown();
      }
    }

    /** Stores the key in the line buffer; a newline copies the line out and empties the buffer. */
    method RecordKey(c: byte)
      requires Valid() && terms[shown].edit.pointer < L.BUFFER_SIZE - 1
      modifies this`terms
      ensures Valid() && terms == old(terms)[shown := old(terms)[shown].(edit := L.Insert(old(terms)[shown].edit, c))]
    {
      var e := terms[shown].edit;
      var line := e.line[e.pointer := c];
      var pointer, previous := e.pointer + 1, e.previous;
      if c == NEWLINE {
        previous := line[..pointer];
        pointer := 0;
        assert previous == line[..e.pointer + 1];
      }
      terms := terms[shown := terms[shown].(edit := L.Edit(e.offset, line, pointer, previous))];
    }

    /** Steps to the row below, scrolling when that is the last or lower. */
    method StepDown()
      requires Valid() && InRange(Logical(shown))
      modifies this`terms, video
      ensures Valid() && Logical(shown) == L.NextRow(old(Logical(shown))) && OthersSame(shown)
    {
      terms := terms[shown := terms[shown].(y := terms[shown].y + 1)];
      if terms[shown].y >= ROWS - 1 {
        ScrollUp(video);
      }
      terms := terms[shown := terms[shown].(printed := 0)];
    }

    /** `terminal_backspace`.  When the cursor has nowhere to step back to, it leaves the screen, and the blank
        is drawn in the column where the library's cursor happens to be. */
    method Backspace()
      requires Valid() && InRange(Logical(shown))
      modifies this, video
      ensures Valid() && shown == old(shown)
      ensures old(L.CanStepBack(Logical(shown), terms[shown].edit)) ==>
                (Logical(shown), terms[shown].edit) == L.Backspace(old(Logical(shown)), old(terms[shown].edit))
      ensures !old(L.CanStepBack(Logical(shown), terms[shown].edit)) ==>
                && terms[shown].x == -1 && terms[shown].y == old(terms[shown].y)
                && terms[shown].printed == old(terms[shown].printed) - 1
                && terms[shown].edit == old(terms[shown].edit).(pointer := old(terms[shown].edit.pointer) - 1)
                && (forall k :: 0 <= k < SIZE ==>
                      video[k] == (var at := ROW_BYTES * old(terms[shown].y) + 2 * old(cursorX);
                                   if k == at then BLANK else if k == at + 1 then ATTRIB else old(video[k])))
      ensures forall u :: 0 <= u < 3 && u != shown ==> Logical(u) == old(Logical(u)) && terms[u].edit == old(terms)[u].edit
    {
      var t := terms[shown];
      if t.edit.pointer <= 0 {
        return;
      }
      var x, y := t.x, t.y;
      if t.edit.pointer != COLS - t.edit.offset {
        x := x - 1;
      } else {
        if y > 0 {
          y := y - 1;
        }
        x := COLS - 1;
      }
      terms := terms[shown := Term(x, y, t.printed - 1, t.edit.(pointer := t.edit.pointer - 1))];
      SetCursorPos(x, y);
      ghost var before := Screen(video[..], cursorX, cursorY, 0);
      cursorX, cursorY := DrawAt(video, cursorX, cursorY, BLANK);
      assert Screen(video[..], cursorX, cursorY, 0) == Put(before, BLANK);
    }

    // ----- any history of calls -----

    /** One call, where what it does is defined. */
    method Perform(e: Event)
      requires Valid() && Legal(e) && Step(TheDesk(), e).Some?
      modifies this, video, buf0, buf1, buf2
      ensures Valid() && Some(TheDesk()) == Step(old(TheDesk()), e)
    {
      match e
      case Write(t, text) =>
        ghost var d := TheDesk();
        assert d.panels[t] == PanelOf(t) && text[..|text|] == text;
        if text == [] {
          OnIs(d, t, Text(text), d);
        }
        var r := TerminalWrite(t, text, |text|);
      case Press(k) => PressKey(k);
      case Clear => TerminalClear();
      case Switch(t) => SetCurrentTerminal(t);
    }

    method PressKey(k: L.Key)
      requires Valid() && Step(TheDesk(), Press(k)).Some?
      modifies this, video, Buf(shown)
      ensures Valid() && Some(TheDesk()) == Step(old(TheDesk()), Press(k))
    {
      hide L.KeyIn, L.Backspace;
      ghost var d := TheDesk();
      assert d.panels[shown] == PanelOf(shown);
      match k {
        case Char(c) => AddToBuffer(c);
        case Erase => Backspace();
      }
      OnIs(d, shown, Typed(k), TheDesk());
    }

    /** Any history of calls leaves every terminal with the screen and the edit buffer that its own outputs
        make of them: the copying at each switch cannot be seen. */
    method PerformAll(es: seq<Event>)
      requires Valid() && (forall e :: e in es ==> Legal(e)) && Steps(TheDesk(), es).Some?
      modifies this, video, buf0, buf1, buf2
      ensures Valid() && Some(TheDesk()) == Steps(old(TheDesk()), es)
      ensures Separate(old(TheDesk()), es, TheDesk())
    {
      ghost var d := TheDesk();
      for i := 0 to |es|
        invariant Valid() && Some(TheDesk()) == Steps(d, es[..i])
      {
        StepsBefore(d, es, i);
        Perform(es[i]);
      }
      assert es[..|es|] == es;
      TerminalsIndependent(d, es);
    }
  }

  lemma OneCharacter(s: Screen, c: byte)
    requires InRange(s)
    ensures EmitAll(s, [c][..1]) == Emit(s, c)
  {
    assert [c][..1] == [c] && [c][..0] == [];
    assert EmitAll(s, []) == s;
  }
}
