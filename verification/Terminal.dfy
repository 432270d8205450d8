/** The text terminal of libc/lib.c: an 80x25 cell array and a cursor, always the window of a
    document. */
module Terminal {
  import opened Machine
  import opened Memory
  import opened ScreenDoc

  const CELLS: int := 2000

  /** The cell array holds the lines `w`. */
  ghost predicate Displays(cells: seq<int>, w: seq<seq<int>>)
  {
    && |cells| == CELLS && |w| == LINES && (forall y :: 0 <= y < LINES ==> |w[y]| == COLS)
    && (forall y, x {:trigger w[y][x]} :: 0 <= y < LINES && 0 <= x < COLS ==>
          cells[y * COLS + x] == w[y][x])
  }

  /** The lines a cell array holds. */
  function LinesOf(cells: seq<int>): (w: seq<seq<int>>)
    requires |cells| == CELLS
    ensures Displays(cells, w)
  {
    seq(LINES, y requires 0 <= y < LINES => cells[y * COLS..(y + 1) * COLS])
  }

  /** One cell changes. */
  lemma DisplaysCell(cells: seq<int>, w: seq<seq<int>>, y: int, x: int, cell: int)
    requires Displays(cells, w) && 0 <= y < LINES && 0 <= x < COLS
    ensures y * COLS + x < CELLS
    ensures Displays(cells[y * COLS + x := cell], w[y := w[y][x := cell]])
  {
  }

  /** The lines move up by one and a blank one comes in. */
  lemma DisplaysScroll(cells: seq<int>, w: seq<seq<int>>, cells': seq<int>, color: Byte)
    requires Displays(cells, w) && |cells'| == CELLS
    requires cells'[..CELLS - COLS] == cells[COLS..]
    requires forall i :: CELLS - COLS <= i < CELLS ==> cells'[i] == VgaEntry(' ' as int, color)
    ensures Displays(cells', w[1..] + [Blank(color)])
  {
    var w' := w[1..] + [Blank(color)];
    forall y, x | 0 <= y < LINES && 0 <= x < COLS
      ensures cells'[y * COLS + x] == w'[y][x]
    {
      if y < LINES - 1 {
        assert cells'[y * COLS + x] == cells'[..CELLS - COLS][y * COLS + x];
        assert cells[COLS..][y * COLS + x] == cells[(y + 1) * COLS + x];
        assert w'[y][x] == w[y + 1][x];
      }
    }
  }

  /** The overlapping copy and the blanks behind it: an exact snapshot, moved up. */
  lemma ScrolledCells(before: seq<int>, moved: seq<int>, after: seq<int>, color: Byte)
    requires |before| == |after| == CELLS && moved == CopyUp(before, 0, COLS, COLS * (LINES - 1))
    requires forall i :: 0 <= i < CELLS ==>
               after[i] == if (LINES - 1) * COLS <= i then VgaEntry(' ' as int, color) else moved[i]
    ensures after[..CELLS - COLS] == before[COLS..]
    ensures forall i :: CELLS - COLS <= i < CELLS ==> after[i] == VgaEntry(' ' as int, color)
  {
    hide CopyUp, VgaEntry;
    CopyUpIsSnapshot(before, 0, COLS, COLS * (LINES - 1));
    assert after[..CELLS - COLS] == moved[0..0 + COLS * (LINES - 1)];
    assert before[COLS..COLS + COLS * (LINES - 1)] == before[COLS..];
  }

  /** From cell `from` of line `y` to the end of line `z` everything is blank. */
  lemma DisplaysBlank(cells: seq<int>, w: seq<seq<int>>, cells': seq<int>, w': seq<seq<int>>,
                      lo: int, hi: int, color: Byte)
    requires Displays(cells, w) && |cells'| == CELLS && 0 <= lo <= hi <= CELLS
    requires |w'| == LINES && forall y :: 0 <= y < LINES ==> |w'[y]| == COLS
    requires forall i :: 0 <= i < CELLS ==>
               cells'[i] == if lo <= i < hi then VgaEntry(' ' as int, color) else cells[i]
    requires forall y, x {:trigger w'[y][x]} :: 0 <= y < LINES && 0 <= x < COLS ==>
               w'[y][x] == if lo <= y * COLS + x < hi then VgaEntry(' ' as int, color) else w[y][x]
    ensures Displays(cells', w')
  {
  }

  predicate IsBlank(cell: int, color: Byte)
  {
    CellShows(cell, ' ' as int, color)
  }

  /** Cells `lo` to `hi` are blank, the others are as they were. */
  ghost predicate Blanked(before: seq<int>, after: seq<int>, lo: int, hi: int, color: Byte)
    requires |before| == |after| == CELLS
  {
    forall i :: 0 <= i < CELLS ==> if lo <= i < hi then IsBlank(after[i], color) else after[i] == before[i]
  }

  lemma BlankCellShows(color: Byte)
    ensures IsBlank(VgaEntry(' ' as int, color), color)
  {
    CellParts(' ' as int, color);
  }

  /** The screen has moved up by `s` lines, with blank ones below. */
  ghost predicate MovedUp(before: seq<int>, after: seq<int>, s: nat, color: Byte)
    requires |before| == |after| == CELLS
  {
    forall i :: 0 <= i < CELLS ==>
      if i + s * COLS < CELLS then after[i] == before[i + s * COLS] else IsBlank(after[i], color)
  }

  lemma MovedUpMore(a: seq<int>, b: seq<int>, c: seq<int>, s: nat, color: Byte)
    requires |a| == |b| == |c| == CELLS && MovedUp(a, b, s, color) && MovedUp(b, c, 1, color)
    ensures MovedUp(a, c, s + 1, color)
  {
    hide IsBlank;
  }

  /** The cells after a character, `up` lines moved up: its own cell shows it, if it prints. */
  ghost predicate Typed(before: seq<int>, after: seq<int>, index: int, c: int, up: nat, color: Byte)
    requires |before| == |after| == CELLS
  {
    forall i :: 0 <= i < CELLS ==>
      if i + up * COLS >= CELLS then IsBlank(after[i], color)
      else if Prints(c) && i + up * COLS == index then CellShows(after[i], c, color)
      else after[i] == before[i + up * COLS]
  }

  lemma TypedThenMoved(a: seq<int>, b: seq<int>, d: seq<int>, index: int, c: int, up: nat, color: Byte)
    requires |a| == |b| == |d| == CELLS && 0 <= index < CELLS
    requires b == if Prints(c) then a[index := VgaEntry(c, color)] else a
    requires MovedUp(b, d, up, color)
    ensures Typed(a, d, index, c, up, color)
  {
    hide IsBlank, VgaEntry, CellShows, Prints;
    CellWritten(c, color);
  }

  lemma CellWritten(c: int, color: Byte)
    ensures CellShows(VgaEntry(c, color), c, color)
  {
    CellParts(c, color);
  }

  class Screen {
    var buffer: array<int>
    var row: int
    var col: int
    var color: Byte
    ghost var doc: Doc

    ghost predicate Valid()
      reads this, buffer
    {
      && buffer.Length == CELLS && InWindow(doc) && Displays(buffer[..], Window(doc))
      && row == doc.at - Top(doc) && col == doc.col && color == doc.color
    }

    /** The terminal before any output: the cursor at the top left, whatever is in video memory. */
    constructor (contents: array<int>)
      requires contents.Length == CELLS
      ensures Valid() && buffer == contents && row == 0 && col == 0
      ensures doc == Doc(LinesOf(contents[..]), 0, 0, 0)
    {
      buffer, row, col, color := contents, 0, 0, 0;
      doc := Doc(LinesOf(contents[..]), 0, 0, 0);
    }

    /** `move`: true for ERR. */
    method MoveTo(y: int, x: int) returns (err: bool)
      requires Valid()
      modifies `row, `col, `doc
      ensures Valid() && doc == Move(old(doc), y, x)
      ensures err <==> x < 0 || y < 0 || x >= COLS || y >= LINES
      ensures if err then row == old(row) && col == old(col) else row == y && col == x
    {
      hide Displays;
      if x < 0 || y < 0 || x >= COLS || y >= LINES {
        return true;
      }
      col := x;
      row := y;
      doc := Move(doc, y, x);
      return false;
    }

    /** `attrset`. */
    method AttrSet(attr: int)
      requires Valid()
      modifies `color, `doc
      ensures Valid() && doc == old(doc).(color := if attr == 0 then 7 else attr % 256)
    {
      hide Displays;
      color := if attr == 0 then 7 else attr % 256;
      doc := doc.(color := color);
    }

    /** Cells `lo` to `hi` are blanked, as the loops of the clear functions do. */
    method BlankCells(lo: int, hi: int)
      requires buffer.Length == CELLS && 0 <= lo <= hi <= CELLS
      modifies buffer
      ensures forall i :: 0 <= i < CELLS ==>
                buffer[i] == if lo <= i < hi then VgaEntry(' ' as int, color) else old(buffer[i])
    {
      var i := lo;
      while i < hi
        invariant lo <= i <= hi
        invariant forall j :: 0 <= j < CELLS ==>
                    buffer[j] == if lo <= j < i then VgaEntry(' ' as int, color) else old(buffer[j])
      {
        buffer[i] := VgaEntry(' ' as int, color);
        i := i + 1;
      }
    }

    /** `clrtoeol`. */
    method ClrToEol()
      requires Valid()
      modifies buffer, `doc
      ensures Valid() && doc == ClearToEol(old(doc))
      ensures row == old(row) && col == old(col) && History(doc) == History(old(doc))
      ensures Blanked(old(buffer[..]), buffer[..], row * COLS + col, (row + 1) * COLS, color)
    {
      hide Displays;
      BlankCellShows(color);
      BlankCells(row * COLS + col, (row + 1) * COLS);
      doc := ClearToEol(doc);
      EolWindow(old(doc));
      DisplaysBlank(old(buffer[..]), old(Window(doc)), buffer[..], Window(doc),
                    row * COLS + col, (row + 1) * COLS, color);
    }

    /** `clear`: the cursor stays. */
    method ClearScreen()
      requires Valid()
      modifies buffer, `doc
      ensures Valid() && doc == Clear(old(doc))
      ensures row == old(row) && col == old(col) && History(doc) == History(old(doc))
      ensures forall i :: 0 <= i < CELLS ==> IsBlank(buffer[i], color)
    {
      hide Displays;
      BlankCellShows(color);
      BlankCells(0, CELLS);
      doc := Clear(doc);
      DisplaysBlank(old(buffer[..]), old(Window(doc)), buffer[..], Window(doc), 0, CELLS, color);
    }

    /** `clrtobot`. */
    method ClrToBot()
      requires Valid()
      modifies buffer, `doc
      ensures Valid() && doc == ClearToBot(old(doc))
      ensures row == old(row) && col == old(col) && History(doc) == History(old(doc))
      ensures Blanked(old(buffer[..]), buffer[..], row * COLS + col, CELLS, color)
    {
      hide Displays;
      BlankCellShows(color);
      ClrToEol();
      ghost var before, cells := doc, buffer[..];
      BlankCells((row + 1) * COLS, CELLS);
      doc := BlankFrom(before, before.at + 1);
      BotWindow(before);
      DisplaysBlank(cells, Window(before), buffer[..], Window(doc), (row + 1) * COLS, CELLS, color);
    }

    /** `scrl`: an overlapping copy up, then a blank last line, for each line. */
    method Scrl(s: nat)
      requires Valid()
      modifies buffer, `doc
      ensures Valid() && doc == Scroll(old(doc), s)
      ensures row == old(row) && col == old(col) && MovedUp(old(buffer[..]), buffer[..], s, color)
    {
      hide Displays, MovedUp;
      var left := s;
      NotMoved(buffer[..], color);
      while left > 0
        invariant 0 <= left <= s && Valid() && doc == Scroll(old(doc), s - left)
        invariant MovedUp(old(buffer[..]), buffer[..], s - left, color)
      {
        ghost var cells := buffer[..];
        ScrollOnce();
        MovedUpMore(old(buffer[..]), cells, buffer[..], s - left, color);
        left := left - 1;
      }
    }

    lemma NotMoved(cells: seq<int>, color: Byte)
      requires |cells| == CELLS
      ensures MovedUp(cells, cells, 0, color)
    {
    }

    lemma OnceMoved(before: seq<int>, after: seq<int>, color: Byte)
      requires |before| == |after| == CELLS && after[..CELLS - COLS] == before[COLS..]
      requires forall i :: CELLS - COLS <= i < CELLS ==> after[i] == VgaEntry(' ' as int, color)
      ensures MovedUp(before, after, 1, color)
    {
      hide IsBlank, VgaEntry;
      BlankCellShows(color);
      forall i | 0 <= i < CELLS - COLS
        ensures after[i] == before[i + COLS]
      {
        assert after[i] == after[..CELLS - COLS][i] == before[COLS..][i];
      }
    }

    method ScrollOnce()
      requires Valid()
      modifies buffer, `doc
      ensures Valid() && doc == Scroll(old(doc), 1)
      ensures MovedUp(old(buffer[..]), buffer[..], 1, color)
    {
      hide Displays, CopyUp, MovedUp;
      CopyForward(buffer, 0, COLS, COLS * (LINES - 1));
      ghost var moved := buffer[..];
      BlankCells((LINES - 1) * COLS, CELLS);
      ScrolledCells(old(buffer[..]), moved, buffer[..], color);
      DisplaysScroll(old(buffer[..]), old(Window(doc)), buffer[..], color);
      OnceMoved(old(buffer[..]), buffer[..], color);
      doc := Doc(doc.lines + [Blank(color)], doc.at + 1, doc.col, doc.color);
      assert Window(doc) == old(Window(doc))[1..] + [Blank(color)];
      OneScroll(old(doc));
    }

    lemma OneScroll(d: Doc)
      ensures Scroll(d, 1) == Doc(d.lines + [Blank(d.color)], d.at + 1, d.col, d.color)
    {
      assert Scroll(d, 0) == d;
    }

    lemma EolWindow(d: Doc)
      requires InWindow(d)
      ensures InWindow(ClearToEol(d))
      ensures var row := d.at - Top(d);
        forall y, x {:trigger Window(ClearToEol(d))[y][x]} :: 0 <= y < LINES && 0 <= x < COLS ==>
          Window(ClearToEol(d))[y][x] ==
          if row * COLS + d.col <= y * COLS + x < (row + 1) * COLS then VgaEntry(' ' as int, d.color)
          else Window(d)[y][x]
    {
    }

    lemma BotWindow(d: Doc)
      requires InWindow(d)
      ensures InWindow(BlankFrom(d, d.at + 1))
      ensures var row := d.at - Top(d);
        forall y, x {:trigger Window(BlankFrom(d, d.at + 1))[y][x]} :: 0 <= y < LINES && 0 <= x < COLS ==>
          Window(BlankFrom(d, d.at + 1))[y][x] ==
          if (row + 1) * COLS <= y * COLS + x then VgaEntry(' ' as int, d.color) else Window(d)[y][x]
    {
    }

    /** The cell at the cursor is written. */
    method PutCell(c: int)
      requires Valid()
      modifies buffer, `doc
      ensures Valid()
      ensures var d := old(doc);
        doc == d.(lines := d.lines[d.at := d.lines[d.at][d.col := VgaEntry(c, d.color)]])
      ensures 0 <= row * COLS + col < CELLS
      ensures buffer[..] == old(buffer[..])[row * COLS + col := VgaEntry(c, color)]
    {
      hide Displays, VgaEntry;
      ghost var d := doc;
      DisplaysCell(buffer[..], Window(d), row, col, VgaEntry(c, color));
      buffer[row * COLS + col] := VgaEntry(c, color);
      doc := d.(lines := d.lines[d.at := d.lines[d.at][d.col := VgaEntry(c, d.color)]]);
      assert Window(doc) == Window(d)[row := Window(d)[row][col := VgaEntry(c, color)]];
      assert buffer[..] == old(buffer[..])[row * COLS + col := VgaEntry(c, color)];
    }

    /** The end of `addch`: a cursor past the last line scrolls the screen by one. */
    method SettleCursor(ghost at: int)
      requires buffer.Length == CELLS && InWindow(doc) && Displays(buffer[..], Window(doc))
      requires color == doc.color && 0 <= col < COLS && row == at - Top(doc) && 0 <= row <= LINES
      modifies buffer, `row, `doc
      ensures Valid()
      ensures doc == Doc(Extend(old(doc).lines, at, color), at, col, color)
      ensures var up := if old(row) == LINES then 1 else 0;
        row == old(row) - up && MovedUp(old(buffer[..]), buffer[..], up, color)
    {
      hide Displays, VgaEntry, MovedUp;
      NotMoved(buffer[..], color);
      doc := doc.(col := col);
      if row >= LINES {
        row := LINES - 1;
        doc := doc.(at := |doc.lines| - 1);
        OneScroll(doc);
        Scrl(1);
      } else {
        doc := doc.(at := at);
      }
    }

    /** `addch`: the cell is written, the cursor moves, and the screen scrolls at most once. */
    method Addch(c: int)
      requires Valid() && !(c == BACKSPACE && col == 0)
      modifies buffer, `row, `col, `doc
      ensures Valid() && doc == AddCh(old(doc), c)
      ensures var up := |doc.lines| - |old(doc).lines|;
        0 <= up <= 1 && (up == 1 ==> row == LINES - 1) && Leads(c, old(row), old(col), row + up, col) &&
        Typed(old(buffer[..]), buffer[..], old(row) * COLS + old(col), c, up, color)
    {
      hide Displays, VgaEntry, Extend, MovedUp, Typed;
      CursorStaysIff(doc, c);
      ghost var d := doc;
      if c == NEWLINE || c == RETURN {
        col := 0;
        if c == NEWLINE {
          row := row + 1;
        }
      } else if c == BACKSPACE {
        col := col - 1;
      } else if c == VTAB {
        row := row + 1;
      } else if c == TAB {
        col := col + (4 - col % 4);
      } else {
        PutCell(c);
        col := col + 1;
      }
      if col >= COLS {
        col := 0;
        row := row + 1;
      }
      ghost var cells, up := buffer[..], if row == LINES then 1 else 0;
      SettleCursor(Wrapped(Step(d.at, d.col, c)).0);
      TypedThenMoved(old(buffer[..]), cells, buffer[..], old(row) * COLS + old(col), c, up, color);
    }

    /** `addnstr`. */
    method Addnstr(s: seq<int>)
      requires Valid() && Safe(doc, s)
      modifies buffer, `row, `col, `doc
      ensures Valid() && doc == AddStr(old(doc), s)
    {
      hide Displays, AddCh;
      var i := 0;
      while i < |s|
        invariant 0 <= i <= |s| && Valid() && Safe(doc, s[i..])
        invariant AddStr(doc, s[i..]) == AddStr(old(doc), s)
      {
        assert s[i..][1..] == s[i + 1..];
        Addch(s[i]);
        i := i + 1;
      }
    }
  }
}
