/** What the text terminal of libc/lib.c shows, as a document without bounds: a list of lines that
    only grows, a place in it, and a window on its last 25 lines. There is no scrolling here. */
module ScreenDoc {
  import opened Machine

  const COLS: int := 80
  const LINES: int := 25

  /** `vga_entry`: a character and its colours in one 16-bit cell. */
  function VgaEntry(c: int, color: Byte): (cell: int)
    ensures 0 <= cell < 0x1_0000
  {
    c % 256 + color * 256
  }

  /** What a cell shows: its low byte is the character, its high byte the colours. */
  function Glyph(cell: int): int
  {
    cell % 256
  }

  function Colour(cell: int): int
  {
    cell / 256
  }

  predicate CellShows(cell: int, c: int, color: Byte)
  {
    Glyph(cell) == c % 256 && Colour(cell) == color
  }

  /** A written cell shows the low byte of the character, and its colours. */
  lemma CellParts(c: int, color: Byte)
    ensures Glyph(VgaEntry(c, color)) == c % 256
    ensures Colour(VgaEntry(c, color)) == color
  {
    var g := c % 256;
    assert (g + color * 256) % 256 == g;
  }

  /** A line shows `chars` and behind them spaces. */
  ghost predicate LineShows(line: seq<int>, chars: seq<int>, color: Byte)
  {
    |line| == COLS && |chars| <= COLS &&
    forall x :: 0 <= x < COLS ==> CellShows(line[x], if x < |chars| then chars[x] else ' ' as int, color)
  }

  function Blank(color: Byte): (line: seq<int>)
    ensures |line| == COLS
  {
    seq(COLS, _ => VgaEntry(' ' as int, color))
  }

  /** `at` is the line of the cursor, counted from the top of the document. */
  datatype Doc = Doc(lines: seq<seq<int>>, at: int, col: int, color: Byte)

  ghost predicate WellFormed(d: Doc)
  {
    |d.lines| >= LINES && (forall i :: 0 <= i < |d.lines| ==> |d.lines[i]| == COLS)
  }

  function Max(a: int, b: int): int { if a < b then b else a }

  function Top(d: Doc): int
  {
    |d.lines| - LINES
  }

  ghost predicate InWindow(d: Doc)
  {
    WellFormed(d) && Top(d) <= d.at < |d.lines| && 0 <= d.col < COLS
  }

  /** The 25 lines on the screen. */
  function Window(d: Doc): (w: seq<seq<int>>)
    requires |d.lines| >= LINES
    ensures |w| == LINES
  {
    d.lines[Top(d)..]
  }

  const NEWLINE: int := 10
  const RETURN: int := 13
  const BACKSPACE: int := 8
  const VTAB: int := 11
  const TAB: int := 9

  /** Where a character sends the cursor, before lines are wrapped. */
  function Step(at: int, col: int, c: int): (int, int)
  {
    if c == NEWLINE then (at + 1, 0)
    else if c == RETURN then (at, 0)
    else if c == BACKSPACE then (at, col - 1)
    else if c == VTAB then (at + 1, col)
    else if c == TAB then (at, col + 4 - col % 4)
    else (at, col + 1)
  }

  predicate Prints(c: int)
  {
    c != NEWLINE && c != RETURN && c != BACKSPACE && c != VTAB && c != TAB
  }

  function Wrapped(p: (int, int)): (int, int)
  {
    if p.1 >= COLS then (p.0 + 1, 0) else p
  }

  /** A cursor that has left the last line gets a new one. */
  function Extend(lines: seq<seq<int>>, at: int, color: Byte): seq<seq<int>>
  {
    if at >= |lines| then lines + [Blank(color)] else lines
  }

  /** `addch`: the cursor leaves the screen exactly when it is a backspace in column 0. */
  function AddCh(d: Doc, c: int): (r: Doc)
    requires InWindow(d)
    ensures InWindow(r) <==> !(c == BACKSPACE && d.col == 0)
  {
    var lines := if Prints(c) then d.lines[d.at := d.lines[d.at][d.col := VgaEntry(c, d.color)]]
                 else d.lines;
    var (at, col) := Wrapped(Step(d.at, d.col, c));
    Doc(Extend(lines, at, d.color), at, col, d.color)
  }

  /** `scrl` by one line: the screen moves on, the cursor keeps its place on it. */
  function Scroll(d: Doc, s: nat): Doc
  {
    if s == 0 then d
    else
      var e := Scroll(d, s - 1);
      Doc(e.lines + [Blank(e.color)], e.at + 1, e.col, e.color)
  }

  /** `move`: ERR leaves the cursor alone. */
  function Move(d: Doc, y: int, x: int): Doc
  {
    if 0 <= y < LINES && 0 <= x < COLS then d.(at := Top(d) + y, col := x) else d
  }

  function ClearToEol(d: Doc): Doc
    requires InWindow(d)
  {
    d.(lines := d.lines[d.at := d.lines[d.at][..d.col] + Blank(d.color)[d.col..]])
  }

  /** Lines `from` on are blanked. */
  function BlankFrom(d: Doc, from: nat): (r: Doc)
    requires from <= |d.lines|
    ensures |r.lines| == |d.lines|
  {
    d.(lines := d.lines[..from] + seq(|d.lines| - from, _ => Blank(d.color)))
  }

  function ClearToBot(d: Doc): Doc
    requires InWindow(d)
  {
    BlankFrom(ClearToEol(d), d.at + 1)
  }

  function Clear(d: Doc): Doc
    requires |d.lines| >= LINES
  {
    BlankFrom(d, Top(d))
  }

  /** `addnstr`, for text without a backspace in column 0. */
  ghost predicate Safe(d: Doc, s: seq<int>)
    requires InWindow(d)
    decreases |s|
  {
    s != [] ==>
      !(s[0] == BACKSPACE && d.col == 0) && Safe(AddCh(d, s[0]), s[1..])
  }

  ghost function AddStr(d: Doc, s: seq<int>): (r: Doc)
    requires InWindow(d) && Safe(d, s)
    ensures InWindow(r)
    decreases |s|
  {
    if s == [] then d else AddStr(AddCh(d, s[0]), s[1..])
  }

  // ----- the cursor

  /** A character keeps the cursor on the screen exactly when it is not a backspace in column 0,
      and then one more line is always enough. */
  lemma CursorStaysIff(d: Doc, c: int)
    requires InWindow(d)
    ensures InWindow(AddCh(d, c)) <==> !(c == BACKSPACE && d.col == 0)
    ensures |AddCh(d, c).lines| <= |d.lines| + 1
    ensures var (at, col) := Wrapped(Step(d.at, d.col, c)); at <= |d.lines|
  {
  }

  /** Where a character takes the cursor from line `y`, column `x`: a tab stop is a multiple of four, and
      column 80 is column 0 of the next line. */
  predicate Leads(c: int, y: int, x: int, y': int, x': int)
  {
    if c == NEWLINE then y' == y + 1 && x' == 0
    else if c == RETURN then y' == y && x' == 0
    else if c == BACKSPACE then y' == y && x' == x - 1
    else if c == VTAB then y' == y + 1 && x' == x
    else if c == TAB && x + 4 < COLS then y' == y && x < x' <= x + 4 && x' % 4 == 0
    else if c != TAB && x + 1 < COLS then y' == y && x' == x + 1
    else y' == y + 1 && x' == 0
  }

  /** A character writes its own cell or none, moves the cursor as said, and brings in a blank line when
      the cursor leaves the last one. */
  lemma AddChEffect(d: Doc, c: int)
    requires InWindow(d)
    ensures var e := AddCh(d, c);
      Leads(c, d.at, d.col, e.at, e.col) && e.color == d.color &&
      |e.lines| == Max(|d.lines|, e.at + 1) && (e.at == |d.lines| ==> LineShows(e.lines[e.at], [], d.color)) &&
      (forall y, x {:trigger e.lines[y][x]} :: 0 <= y < |d.lines| && 0 <= x < COLS ==>
         if Prints(c) && y == d.at && x == d.col then CellShows(e.lines[y][x], c, d.color)
         else e.lines[y][x] == d.lines[y][x])
  {
    hide VgaEntry, Glyph, Colour;
    CursorStaysIff(d, c);
    CellParts(c, d.color);
    BlankShows(d.color);
  }

  lemma BlankShows(color: Byte)
    ensures LineShows(Blank(color), [], color)
  {
    hide VgaEntry, Glyph, Colour;
    CellParts(' ' as int, color);
  }

  // ----- history

  datatype Op =
    | Put(c: int) | PutStr(s: seq<int>) | Scrl(n: nat) | MoveTo(y: int, x: int)
    | Erase | EraseToEol | EraseToBot | Paint(color: Byte)

  ghost predicate Allowed(d: Doc, op: Op)
    requires InWindow(d)
  {
    match op
    case Put(c) => !(c == BACKSPACE && d.col == 0)
    case PutStr(s) => Safe(d, s)
    case _ => true
  }

  /** No operation takes the cursor off the screen. */
  ghost function Apply(d: Doc, op: Op): (r: Doc)
    requires InWindow(d) && Allowed(d, op)
    ensures InWindow(r)
  {
    match op
    case Put(c) => AddCh(d, c)
    case PutStr(s) => AddStr(d, s)
    case Scrl(n) => ScrollContinues(d, n); Scroll(d, n)
    case MoveTo(y, x) => Move(d, y, x)
    case Erase => Clear(d)
    case EraseToEol => ClearToEol(d)
    case EraseToBot => ClearToBot(d)
    case Paint(color) => d.(color := color)
  }

  /** What has left the screen. */
  function History(d: Doc): seq<seq<int>>
    requires |d.lines| >= LINES
  {
    d.lines[..Top(d)]
  }

  /** `later` continues `earlier`: nothing that had left the screen is changed. */
  ghost predicate Continues(earlier: Doc, later: Doc)
  {
    InWindow(earlier) && InWindow(later) && |earlier.lines| <= |later.lines| &&
    later.lines[..Top(earlier)] == History(earlier)
  }

  lemma ContinuesTransitive(a: Doc, b: Doc, c: Doc)
    requires Continues(a, b) && Continues(b, c)
    ensures Continues(a, c)
  {
    assert c.lines[..Top(a)] == c.lines[..Top(b)][..Top(a)];
    assert b.lines[..Top(a)] == b.lines[..Top(b)][..Top(a)];
  }

  lemma AddChContinues(d: Doc, c: int)
    requires InWindow(d) && !(c == BACKSPACE && d.col == 0)
    ensures Continues(d, AddCh(d, c))
  {
    CursorStaysIff(d, c);
  }

  lemma {:induction false} AddStrContinues(d: Doc, s: seq<int>)
    requires InWindow(d) && Safe(d, s)
    ensures Continues(d, AddStr(d, s))
    decreases |s|
  {
    hide AddCh, Continues;
    if s == [] {
      ContinuesSelf(d);
    } else {
      AddChContinues(d, s[0]);
      AddStrContinues(AddCh(d, s[0]), s[1..]);
      ContinuesTransitive(d, AddCh(d, s[0]), AddStr(d, s));
    }
  }

  lemma ContinuesSelf(d: Doc)
    requires InWindow(d)
    ensures Continues(d, d)
  {
  }

  lemma {:induction false} ScrollContinues(d: Doc, s: nat)
    requires InWindow(d)
    ensures Continues(d, Scroll(d, s))
    ensures Scroll(d, s).color == d.color && Scroll(d, s).col == d.col
    ensures |Scroll(d, s).lines| == |d.lines| + s && Scroll(d, s).at == d.at + s
  {
    if s > 0 {
      ScrollContinues(d, s - 1);
    }
  }

  lemma ApplyContinues(d: Doc, op: Op)
    requires InWindow(d) && Allowed(d, op)
    ensures Continues(d, Apply(d, op))
  {
    match op
    case Put(c) => AddChContinues(d, c);
    case PutStr(s) => AddStrContinues(d, s);
    case Scrl(n) => ScrollContinues(d, n);
    case _ =>
  }

  ghost predicate AllAllowed(d: Doc, ops: seq<Op>)
    requires InWindow(d)
    decreases |ops|
  {
    ops != [] ==> Allowed(d, ops[0]) && AllAllowed(Apply(d, ops[0]), ops[1..])
  }

  ghost function ApplyAll(d: Doc, ops: seq<Op>): Doc
    requires InWindow(d) && AllAllowed(d, ops)
    decreases |ops|
  {
    if ops == [] then d else ApplyAll(Apply(d, ops[0]), ops[1..])
  }

  /** Over every run, the cursor stays on the screen and what has scrolled off stays as it was. */
  lemma {:induction false} RunContinues(d: Doc, ops: seq<Op>)
    requires InWindow(d) && AllAllowed(d, ops)
    ensures Continues(d, ApplyAll(d, ops))
    decreases |ops|
  {
    hide Apply, Continues, Allowed;
    if ops == [] {
      ContinuesSelf(d);
    } else {
      ApplyContinues(d, ops[0]);
      RunContinues(Apply(d, ops[0]), ops[1..]);
      ContinuesTransitive(d, Apply(d, ops[0]), ApplyAll(d, ops));
    }
  }

  // ----- plain text

  /** Lines of characters on paper 80 columns wide, and the next character: a newline ends a line, and
      so does the 80th character. */
  function LayoutStep(ls: seq<seq<int>>, c: int): (r: seq<seq<int>>)
    requires Fits(ls)
    ensures Fits(r)
  {
    if c == NEWLINE then ls + [[]]
    else
      var line := ls[|ls| - 1] + [c];
      if |line| == COLS then ls[..|ls| - 1] + [line, []] else ls[..|ls| - 1] + [line]
  }

  ghost predicate Fits(ls: seq<seq<int>>)
  {
    ls != [] && |ls[|ls| - 1]| < COLS && forall i :: 0 <= i < |ls| ==> |ls[i]| <= COLS
  }

  /** The lines a text makes. */
  function Layout(s: seq<int>): (ls: seq<seq<int>>)
    ensures Fits(ls)
    decreases |s|
  {
    if s == [] then [[]] else LayoutStep(Layout(s[..|s| - 1]), s[|s| - 1])
  }

  /** The document a text leaves on an empty screen, cell by cell. */
  ghost predicate Shows(d: Doc, ls: seq<seq<int>>)
    requires Fits(ls)
  {
    && |d.lines| == (if |ls| < LINES then LINES else |ls|)
    && d.at == |ls| - 1 && d.col == |ls[|ls| - 1]|
    && (forall i :: 0 <= i < |d.lines| ==> LineShows(d.lines[i], if i < |ls| then ls[i] else [], d.color))
  }

  lemma CharAppended(line: seq<int>, chars: seq<int>, c: int, color: Byte)
    requires LineShows(line, chars, color) && |chars| < COLS
    ensures LineShows(line[|chars| := VgaEntry(c, color)], chars + [c], color)
  {
    hide VgaEntry, Glyph, Colour;
    CellParts(c, color);
  }

  lemma ShowsNewline(d: Doc, ls: seq<seq<int>>)
    requires InWindow(d) && Fits(ls) && Shows(d, ls)
    ensures Shows(AddCh(d, NEWLINE), LayoutStep(ls, NEWLINE))
  {
    hide LineShows, Blank;
    BlankShows(d.color);
  }

  lemma ShowsChar(d: Doc, ls: seq<seq<int>>, c: int)
    requires InWindow(d) && Fits(ls) && Shows(d, ls) && Prints(c)
    ensures Shows(AddCh(d, c), LayoutStep(ls, c))
  {
    hide LineShows, Blank, VgaEntry;
    var n := |ls| - 1;
    CharAppended(d.lines[n], ls[n], c, d.color);
    BlankShows(d.color);
    var r := LayoutStep(ls, c);
    assert r[n] == ls[n] + [c] && forall i :: 0 <= i < n ==> r[i] == ls[i];
    var e := AddCh(d, c);
    assert forall i :: 0 <= i < |d.lines| && i != n ==> e.lines[i] == d.lines[i];
  }

  /** Plain text written to an empty screen from its top left corner: the screen shows the last 25
      lines of the text as laid out on paper, in the current colours, the cursor right behind it. */
  lemma {:induction false} TextIsLaidOut(d: Doc, s: seq<int>)
    requires InWindow(d) && |d.lines| == LINES && d.at == 0 && d.col == 0
    requires forall i :: 0 <= i < LINES ==> LineShows(d.lines[i], [], d.color)
    requires forall i :: 0 <= i < |s| ==> (Prints(s[i]) || s[i] == NEWLINE)
    ensures Safe(d, s)
    ensures Shows(AddStr(d, s), Layout(s)) && AddStr(d, s).color == d.color
    decreases |s|
  {
    hide AddCh, LineShows, Shows, LayoutStep;
    if s == [] {
      ShowsNothing(d);
    } else {
      var init, c := s[..|s| - 1], s[|s| - 1];
      TextIsLaidOut(d, init);
      var e := AddStr(d, init);
      if c == NEWLINE {
        ShowsNewline(e, Layout(init));
      } else {
        ShowsChar(e, Layout(init), c);
      }
      CursorStaysIff(e, c);
      KeepsColor(e, c);
      assert s == init + [c];
      AddStrSnoc(d, init, c);
    }
  }

  lemma ShowsNothing(d: Doc)
    requires InWindow(d) && |d.lines| == LINES && d.at == 0 && d.col == 0
    requires forall i :: 0 <= i < LINES ==> LineShows(d.lines[i], [], d.color)
    ensures Shows(d, [[]])
  {
  }

  lemma KeepsColor(d: Doc, c: int)
    requires InWindow(d)
    ensures AddCh(d, c).color == d.color
  {
  }

  lemma {:induction false} AddStrSnoc(d: Doc, s: seq<int>, c: int)
    requires InWindow(d) && Safe(d, s)
    requires !(c == BACKSPACE && AddStr(d, s).col == 0) && InWindow(AddCh(AddStr(d, s), c))
    ensures Safe(d, s + [c]) && AddStr(d, s + [c]) == AddCh(AddStr(d, s), c)
    decreases |s|
  {
    hide AddCh;
    if s == [] {
      assert ([] + [c])[1..] == [];
    } else {
      AddStrSnoc(AddCh(d, s[0]), s[1..], c);
      assert (s + [c])[1..] == s[1..] + [c];
    }
  }
}
