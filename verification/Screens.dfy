/** The terminal's screen as a value (terminal/src/main.cpp): the cell grid, the cursor, the dirty row range
    and the control-sequence parser (ECMA-48, section 5.4), and what every byte and every resize does. */
module Screens {
  import opened Bytes
  import opened Sequences

  const MAX_ROWS := 120
  const MAX_COLS := 300
  const MAX_PARAMS := 8
  const SPACE: Byte := 32
  const ESC: Byte := 0x1B
  const BRACKET: Byte := 0x5B
  const ZERO: Byte := 0x30
  const NINE: Byte := 0x39
  const SEMICOLON: Byte := 0x3B
  const QUESTION: Byte := 0x3F

  // The final bytes of the control sequences the terminal knows, by their names in ECMA-48.
  const CUU: Byte := 0x41
  const CUD: Byte := 0x42
  const CUF: Byte := 0x43
  const CUB: Byte := 0x44
  const CUP: Byte := 0x48
  const ED: Byte := 0x4A
  const EL: Byte := 0x4B
  const HVP: Byte := 0x66
  const SGR: Byte := 0x6D

  datatype Color = DefaultFg | DefaultBg | Ansi(index: nat)

  datatype Cell = Cell(ch: Byte, fg: Color, bg: Color)

  const BLANK := Cell(SPACE, DefaultFg, DefaultBg)

  type Grid = seq<seq<Cell>>

  datatype ParserState = Ground | Escape | Csi

  datatype Parser = Parser(state: ParserState, params: seq<int>, paramCount: int)

  datatype Screen = Screen(grid: Grid, rows: nat, cols: nat, cursorRow: nat, cursorCol: nat, fg: Color, bg: Color,
                           parser: Parser, dirtyTop: nat, dirtyBottom: nat)

  ghost predicate IsGrid(g: Grid) {
    |g| == MAX_ROWS && forall r :: 0 <= r < MAX_ROWS ==> |g[r]| == MAX_COLS
  }

  /** The grid fits its array, the cursor is on the screen (one past the last column at most), and the
      parser's count is within its parameters. */
  ghost predicate WellFormed(s: Screen) {
    IsGrid(s.grid) && 1 <= s.rows <= MAX_ROWS && 1 <= s.cols <= MAX_COLS && s.cursorRow < s.rows &&
      s.cursorCol <= s.cols &&
    |s.parser.params| == MAX_PARAMS && 0 <= s.parser.paramCount <= MAX_PARAMS &&
    forall i :: 0 <= i < MAX_PARAMS ==> s.parser.params[i] >= 0
  }

  // ---- the grid ------------------------------------------------------------------------------

  function Touched(s: Screen, top: nat, bottom: nat): Screen {
    if top >= bottom then s
    else if s.dirtyTop >= s.dirtyBottom then s.(dirtyTop := top, dirtyBottom := bottom)
    else
      s.(dirtyTop := if top < s.dirtyTop then top else s.dirtyTop,
         dirtyBottom := if bottom > s.dirtyBottom then bottom else s.dirtyBottom)
  }

  /** The grid with every cell recomputed from its place. */
  function Mapped(f: (int, int) -> Cell): (g: Grid)
    ensures IsGrid(g) && forall r, c :: 0 <= r < MAX_ROWS && 0 <= c < MAX_COLS ==> g[r][c] == f(r, c)
  {
    seq(MAX_ROWS, r => seq(MAX_COLS, c => f(r, c)))
  }

  function CellAt(g: Grid, r: int, c: int): Cell {
    if 0 <= r < |g| && 0 <= c < |g[r]| then g[r][c] else BLANK
  }

  function RowCleared(s: Screen, row: nat, from: nat): Screen {
    var (was, blank, cols) := (s.grid, Cell(SPACE, s.fg, s.bg), s.cols);
    Touched(s.(grid := Mapped((r, c) => if r == row && from <= c < cols then blank else CellAt(was, r, c))), row,
      row + 1)
  }

  /** Rows from `row` up to `end` cleared, top to bottom. */
  function RowsCleared(s: Screen, row: nat, end: nat): (t: Screen)
    requires row <= end
    ensures t.rows == s.rows && t.cols == s.cols && t.cursorRow == s.cursorRow && t.cursorCol == s.cursorCol
    ensures t.fg == s.fg && t.bg == s.bg && t.parser == s.parser
    decreases end - row
  {
    if row == end then s else RowCleared(RowsCleared(s, row, end - 1), end - 1, 0)
  }

  /** Spaces up to the cursor, in the colors the cells have. */
  function LineStartCleared(s: Screen): Screen {
    var (was, row, col, cols) := (s.grid, s.cursorRow, s.cursorCol, s.cols);
    Touched(s.(grid := Mapped((r, c) =>
              if r == row && c <= col && c < cols then CellAt(was, r, c).(ch := SPACE) else CellAt(was, r, c))),
            row, row + 1)
  }

  /** Every row but the last takes the cells of the row below it. */
  function RowsMoved(s: Screen): Screen {
    s.(grid := Mapped((r, c) => if r + 1 < s.rows && c < s.cols then CellAt(s.grid, r + 1, c)
      else CellAt(s.grid, r, c)))
  }

  function ScrolledUp(s: Screen): Screen
    requires s.rows > 0
  {
    Touched(RowCleared(RowsMoved(s), s.rows - 1, 0), 0, s.rows)
  }

  function OnNextRow(s: Screen): Screen
    requires s.rows > 0
  {
    if s.cursorRow + 1 >= s.rows then ScrolledUp(s) else s.(cursorRow := s.cursorRow + 1)
  }

  /** A character in the cell under the cursor, and the cursor past it. */
  function CellPut(s: Screen, ch: Byte): Screen {
    Touched(s.(grid := Mapped((r, c) => if r == s.cursorRow && c == s.cursorCol then Cell(ch, s.fg, s.bg)
      else CellAt(s.grid, r, c))),
            s.cursorRow, s.cursorRow + 1).(cursorCol := s.cursorCol + 1)
  }

  function WithChar(s: Screen, ch: Byte): Screen
    requires s.rows > 0
  {
    CellPut(if s.cursorCol >= s.cols then OnNextRow(s.(cursorCol := 0)) else s, ch)
  }

  /** Spaces up to a column, or to the screen's edge. */
  function WithSpaces(s: Screen, next: nat): (t: Screen)
    requires s.rows > 0
    decreases next - s.cursorCol
  {
    if s.cursorCol < next && s.cursorCol < s.cols then WithSpaces(WithChar(s, SPACE), next) else s
  }

  // ---- control sequences ---------------------------------------------------------------------

  function Sgr(s: Screen, code: int): Screen {
    if code == 0 then s.(fg := DefaultFg, bg := DefaultBg)
    else if 30 <= code <= 37 then s.(fg := Ansi(code - 30))
    else if 90 <= code <= 97 then s.(fg := Ansi(code - 90 + 8))
    else if 40 <= code <= 47 then s.(bg := Ansi(code - 40))
    else if 100 <= code <= 107 then s.(bg := Ansi(code - 100 + 8))
    else if code == 39 then s.(fg := DefaultFg)
    else if code == 49 then s.(bg := DefaultBg)
    else s
  }

  function SgrAll(s: Screen, params: seq<int>): Screen {
    if params == [] then s else Sgr(SgrAll(s, params[..|params| - 1]), params[|params| - 1])
  }

  /** The parameters a sequence carries. */
  function Given(p: Parser): seq<int>
    requires 0 <= p.paramCount <= |p.params|
  {
    p.params[..p.paramCount]
  }

  function Or(a: int, otherwise: int): int { if a != 0 then a else otherwise }

  function Least(a: int, b: int): int { if a < b then a else b }

  /** What a control sequence with these parameters does. */
  function WithCsi(s: Screen, params: seq<int>, final: Byte): Screen
    requires s.rows > 0 && s.cols > 0 && s.cursorRow < s.rows && forall i :: 0 <= i < |params| ==> params[i] >= 0
  {
    var a := if |params| > 0 then params[0] else 0;
    var b := if |params| > 1 then params[1] else 0;
    if final == CUU then s.(cursorRow := s.cursorRow - Least(Or(a, 1), s.cursorRow))
    else if final == CUD then s.(cursorRow := Least(s.cursorRow + Or(a, 1), s.rows - 1))
    else if final == CUF then s.(cursorCol := Least(s.cursorCol + Or(a, 1), s.cols - 1))
    else if final == CUB then s.(cursorCol := s.cursorCol - Least(Or(a, 1), s.cursorCol))
    else if final == CUP || final == HVP then
      s.(cursorRow := Least(if a > 0 then a - 1 else 0, s.rows - 1),
        cursorCol := Least(if b > 0 then b - 1 else 0, s.cols - 1))
    else if final == ED then
      if a == 2 || a == 3 then RowsCleared(s, 0, s.rows).(cursorRow := 0, cursorCol := 0)
      else if a == 0 then RowsCleared(RowCleared(s, s.cursorRow, s.cursorCol), s.cursorRow + 1, s.rows)
      else if a == 1 then RowCleared(RowsCleared(s, 0, s.cursorRow), s.cursorRow, 0)
      else s
    else if final == EL then
      if a == 0 then RowCleared(s, s.cursorRow, s.cursorCol)
      else if a == 1 then LineStartCleared(s)
      else if a == 2 then RowCleared(s, s.cursorRow, 0)
      else s
    else if final == SGR then
      if params == [] then s.(fg := DefaultFg, bg := DefaultBg) else SgrAll(s, params)
    else s
  }

  // ---- the parser ----------------------------------------------------------------------------

  /** What a byte asks of the screen. */
  datatype Action = Ignore | LineFeed | Return | Backspace | Tab | Print(ch: Byte) | Control(params: seq<int>,
    final: Byte)

  function Zeros(): seq<int> { [0, 0, 0, 0, 0, 0, 0, 0] }

  /** One byte through the parser. */
  function Parsed(p: Parser, ch: Byte): (r: (Parser, Action))
    requires |p.params| == MAX_PARAMS && 0 <= p.paramCount <= MAX_PARAMS
    ensures |r.0.params| == MAX_PARAMS && 0 <= r.0.paramCount <= MAX_PARAMS
  {
    match p.state
    case Ground =>
      if ch == ESC then (p.(state := Escape), Ignore)
      else if ch == 10 then (p, LineFeed)
      else if ch == 13 then (p, Return)
      else if ch == 8 then (p, Backspace)
      else if ch == 9 then (p, Tab)
      else if ch == 7 then (p, Ignore)
      else if ch >= 32 then (p, Print(ch))
      else (p, Ignore)
    case Escape =>
      if ch == BRACKET then (Parser(Csi, Zeros(), 0), Ignore) else (p.(state := Ground), Ignore)
    case Csi =>
      if ZERO <= ch <= NINE then
        var count := if p.paramCount == 0 then 1 else p.paramCount;
        (p.(params := p.params[count - 1 := p.params[count - 1] * 10 + (ch - ZERO)], paramCount := count), Ignore)
      else if ch == SEMICOLON then
        var count := if p.paramCount < MAX_PARAMS then p.paramCount + 1 else p.paramCount;
        (p.(params := p.params[count - 1 := 0], paramCount := count), Ignore)
      else if ch == QUESTION then (p, Ignore)
      else if 0x40 <= ch <= 0x7E then (p.(state := Ground), Control(Given(p), ch))
      else (p.(state := Ground), Ignore)
  }

  function Done(s: Screen, action: Action): Screen
    requires s.rows > 0 && s.cols > 0 && s.cursorRow < s.rows
    requires action.Control? ==> forall i :: 0 <= i < |action.params| ==> action.params[i] >= 0
  {
    match action
    case Ignore => s
    case LineFeed => OnNextRow(s)
    case Return => s.(cursorCol := 0)
    case Backspace => s.(cursorCol := if s.cursorCol > 0 then s.cursorCol - 1 else 0)
    case Tab => WithSpaces(s, (s.cursorCol + 8) / 8 * 8)
    case Print(ch) => WithChar(s, ch)
    case Control(params, final) => WithCsi(s, params, final)
  }

  /** One byte of output. */
  function Fed(s: Screen, ch: Byte): Screen
    requires WellFormed(s)
  {
    var (parser, action) := Parsed(s.parser, ch);
    Done(s, action).(parser := parser)
  }

  // ---- resizing ------------------------------------------------------------------------------

  /** The cells of the new size outside the old one are blank. */
  function Widened(s: Screen, newRows: nat, newCols: nat): Screen {
    s.(grid := Mapped((r, c) => if r < newRows && (if r < s.rows then s.cols else 0) <= c < newCols then BLANK
      else CellAt(s.grid, r, c)))
  }

  /** As many scrolls as bring the cursor into the first newRows rows. */
  function ScrolledIntoView(s: Screen, newRows: nat): Screen
    requires newRows > 0
    decreases s.cursorRow
  {
    if s.cursorRow < newRows then s
    else ScrolledIntoView(ScrolledOnce(s), newRows)
  }

  /** The rows down to the cursor's scroll up by one, and the cursor with its text. */
  function ScrolledOnce(s: Screen): (t: Screen)
    requires s.cursorRow > 0
    ensures t.cursorRow == s.cursorRow - 1
  {
    ScrolledUp(s.(rows := s.cursorRow + 1)).(cursorRow := s.cursorRow - 1)
  }

  function GridSize(extent: int, padding: int, unit: int, limit: nat): (n: nat)
    requires unit > 0 && limit > 0
    ensures 1 <= n <= limit
  {
    var room := extent - padding * 2;
    var n := if room >= 0 then room / unit else -(-room / unit);
    if n < 1 then 1 else if n > limit then limit else n
  }

  function Fitted(s: Screen, newRows: nat, newCols: nat): Screen
    requires 1 <= newRows <= MAX_ROWS && 1 <= newCols <= MAX_COLS
  {
    var shown := ScrolledIntoView(Widened(s, newRows, newCols).(cols := newCols), newRows);
    var sized := shown.(rows := newRows, cursorCol := if shown.cursorCol > newCols then newCols else shown.cursorCol);
    Touched(sized, 0, newRows)
  }

  /** The window repainted the dirty rows. */
  function Flushed(s: Screen): Screen {
    s.(dirtyTop := 0, dirtyBottom := 0)
  }

  // ---- invariants ----------------------------------------------------------------------------

  predicate InDirt(s: Screen, r: int) { s.dirtyTop <= r < s.dirtyBottom }

  /** Every row whose cells changed is dirty, no row stopped being dirty, and the size stayed. */
  ghost predicate Repaints(s: Screen, t: Screen) {
    IsGrid(s.grid) && IsGrid(t.grid) && t.rows == s.rows && t.cols == s.cols &&
    (forall r :: InDirt(s, r) ==> InDirt(t, r)) &&
    (forall r, c :: 0 <= r < s.rows && CellAt(t.grid, r, c) != CellAt(s.grid, r, c) ==> InDirt(t, r))
  }

  lemma RepaintsTransitive(s: Screen, t: Screen, u: Screen)
    requires Repaints(s, t) && Repaints(t, u)
    ensures Repaints(s, u)
  {
    forall r, c | 0 <= r < s.rows && CellAt(u.grid, r, c) != CellAt(s.grid, r, c)
      ensures InDirt(u, r)
    {
      if CellAt(t.grid, r, c) != CellAt(s.grid, r, c) {
        assert InDirt(t, r);
      }
    }
  }

  /** Everything but the cells and the dirty range is the same. */
  predicate SameButCells(s: Screen, t: Screen) {
    t.rows == s.rows && t.cols == s.cols && t.cursorRow == s.cursorRow && t.cursorCol == s.cursorCol &&
    t.fg == s.fg && t.bg == s.bg && t.parser == s.parser
  }

  lemma ClearingRepaints(s: Screen, row: nat, from: nat)
    requires IsGrid(s.grid)
    ensures Repaints(s, RowCleared(s, row, from)) && SameButCells(s, RowCleared(s, row, from))
  {
  }

  lemma LineStartRepaints(s: Screen)
    requires IsGrid(s.grid)
    ensures Repaints(s, LineStartCleared(s)) && SameButCells(s, LineStartCleared(s))
  {
  }

  lemma {:induction false} ClearingRowsRepaints(s: Screen, row: nat, end: nat)
    requires IsGrid(s.grid) && row <= end
    ensures Repaints(s, RowsCleared(s, row, end))
    decreases end - row
  {
    hide RowCleared, CellAt, Repaints, IsGrid;
    RepaintsItself(s);
    if row < end {
      var before := RowsCleared(s, row, end - 1);
      ClearingRowsRepaints(s, row, end - 1);
      RepaintsGrids(s, before);
      ClearingRepaints(before, end - 1, 0);
      RepaintsTransitive(s, before, RowCleared(before, end - 1, 0));
    }
  }

  lemma ScrollingRepaints(s: Screen)
    requires IsGrid(s.grid) && s.rows > 0
    ensures Repaints(s, ScrolledUp(s)) && SameButCells(s, ScrolledUp(s))
  {
  }

  lemma RowTakesNext(s: Screen, r: int, c: int)
    requires IsGrid(s.grid) && 0 <= r && r + 1 < s.rows <= MAX_ROWS && 0 <= c < s.cols && c < MAX_COLS
    ensures CellAt(RowsMoved(s).grid, r, c) == CellAt(s.grid, r + 1, c)
    ensures IsGrid(RowsMoved(s).grid) && RowsMoved(s).rows == s.rows && RowsMoved(s).cols == s.cols
  {
  }

  lemma ClearingKeepsOthers(s: Screen, row: nat, r: int, c: int)
    requires IsGrid(s.grid) && 0 <= r < MAX_ROWS && r != row && 0 <= c < MAX_COLS
    ensures CellAt(RowCleared(s, row, 0).grid, r, c) == CellAt(s.grid, r, c)
  {
  }

  lemma ScrollMovesRow(s: Screen, r: int, c: int)
    requires IsGrid(s.grid) && 0 <= r && r + 1 < s.rows <= MAX_ROWS && 0 <= c < s.cols && c < MAX_COLS
    ensures CellAt(ScrolledUp(s).grid, r, c) == CellAt(s.grid, r + 1, c)
  {
    RowTakesNext(s, r, c);
    hide RowsMoved;
    ClearingKeepsOthers(RowsMoved(s), s.rows - 1, r, c);
  }

  lemma NextRowRepaints(s: Screen)
    requires WellFormed(s)
    ensures Repaints(s, OnNextRow(s)) && WellFormed(OnNextRow(s)) && OnNextRow(s).cursorCol == s.cursorCol
  {
    ScrollingRepaints(s);
  }

  lemma PutRepaints(s: Screen, ch: Byte)
    requires WellFormed(s) && s.cursorCol < s.cols
    ensures Repaints(s, CellPut(s, ch)) && WellFormed(CellPut(s, ch)) && CellPut(s, ch).cursorCol == s.cursorCol + 1
  {
  }

  lemma MovingRepaints(s: Screen)
    requires IsGrid(s.grid)
    ensures Repaints(s, s.(cursorCol := 0))
  {
  }

  lemma CharRepaints(s: Screen, ch: Byte)
    requires WellFormed(s)
    ensures Repaints(s, WithChar(s, ch)) && WellFormed(WithChar(s, ch))
    ensures s.cursorCol < s.cols ==> WithChar(s, ch).cursorCol == s.cursorCol + 1
  {
    hide OnNextRow, CellPut, IsGrid, CellAt, Repaints;
    var home := s.(cursorCol := 0);
    if s.cursorCol >= s.cols {
      NextRowRepaints(home);
      MovingRepaints(s);
      RepaintsTransitive(s, home, OnNextRow(home));
      RepaintsGrids(home, OnNextRow(home));
    }
    var t := if s.cursorCol >= s.cols then OnNextRow(home) else s;
    PutRepaints(t, ch);
    if s.cursorCol >= s.cols {
      RepaintsTransitive(s, t, WithChar(s, ch));
    }
  }

  lemma {:induction false} SpacesRepaint(s: Screen, next: nat)
    requires WellFormed(s)
    ensures Repaints(s, WithSpaces(s, next)) && WellFormed(WithSpaces(s, next))
    decreases next - s.cursorCol
  {
    if s.cursorCol < next && s.cursorCol < s.cols {
      CharRepaints(s, SPACE);
      SpacesRepaint(WithChar(s, SPACE), next);
      RepaintsTransitive(s, WithChar(s, SPACE), WithSpaces(s, next));
    }
  }

  lemma {:induction false} SgrKeepsScreen(s: Screen, params: seq<int>)
    ensures SgrAll(s, params) == s.(fg := SgrAll(s, params).fg, bg := SgrAll(s, params).bg)
  {
    if params != [] {
      SgrKeepsScreen(s, params[..|params| - 1]);
    }
  }

  lemma ErasingRepaints(s: Screen, params: seq<int>, final: Byte)
    requires WellFormed(s) && (forall i :: 0 <= i < |params| ==> params[i] >= 0) && (final == ED || final == EL)
    ensures Repaints(s, WithCsi(s, params, final)) && WellFormed(WithCsi(s, params, final))
  {
    if final == ED {
      DisplayErasingRepaints(s, params);
    } else {
      hide RowCleared, LineStartCleared, Repaints;
      LineStartRepaints(s);
      RepaintsItself(s);
      RepaintsGrids(s, LineStartCleared(s));
      ClearingRepaints(s, s.cursorRow, s.cursorCol);
      RepaintsGrids(s, RowCleared(s, s.cursorRow, s.cursorCol));
      ClearingRepaints(s, s.cursorRow, 0);
      RepaintsGrids(s, RowCleared(s, s.cursorRow, 0));
    }
  }

  lemma DisplayErasingRepaints(s: Screen, params: seq<int>)
    requires WellFormed(s) && forall i :: 0 <= i < |params| ==> params[i] >= 0
    ensures Repaints(s, WithCsi(s, params, ED)) && WellFormed(WithCsi(s, params, ED))
  {
    hide RowCleared, RowsCleared, Repaints;
    var a := if |params| > 0 then params[0] else 0;
    if a == 2 || a == 3 {
      ClearingRowsRepaints(s, 0, s.rows);
      HomingRepaints(s, RowsCleared(s, 0, s.rows));
    } else if a == 0 {
      var line := RowCleared(s, s.cursorRow, s.cursorCol);
      ClearingRepaints(s, s.cursorRow, s.cursorCol);
      RepaintsGrids(s, line);
      ClearingRowsRepaints(line, s.cursorRow + 1, s.rows);
      RepaintsGrids(line, RowsCleared(line, s.cursorRow + 1, s.rows));
      RepaintsTransitive(s, line, RowsCleared(line, s.cursorRow + 1, s.rows));
    } else if a == 1 {
      var above := RowsCleared(s, 0, s.cursorRow);
      ClearingRowsRepaints(s, 0, s.cursorRow);
      RepaintsGrids(s, above);
      ClearingRepaints(above, s.cursorRow, 0);
      RepaintsGrids(above, RowCleared(above, s.cursorRow, 0));
      RepaintsTransitive(s, above, RowCleared(above, s.cursorRow, 0));
    } else {
      RepaintsItself(s);
    }
  }

  lemma RepaintsGrids(s: Screen, t: Screen)
    requires Repaints(s, t)
    ensures IsGrid(s.grid) && IsGrid(t.grid) && t.rows == s.rows && t.cols == s.cols
  {
  }

  lemma RepaintsItself(s: Screen)
    requires IsGrid(s.grid)
    ensures Repaints(s, s)
  {
  }

  lemma HomingRepaints(s: Screen, t: Screen)
    requires Repaints(s, t)
    ensures IsGrid(t.grid) && Repaints(s, t.(cursorRow := 0, cursorCol := 0))
  {
  }

  lemma CsiRepaints(s: Screen, params: seq<int>, final: Byte)
    requires WellFormed(s) && forall i :: 0 <= i < |params| ==> params[i] >= 0
    ensures Repaints(s, WithCsi(s, params, final)) && WellFormed(WithCsi(s, params, final))
  {
    if final == ED || final == EL {
      ErasingRepaints(s, params, final);
    } else if final == SGR {
      SgrKeepsScreen(s, params);
    }
  }

  lemma ParserStaysFormed(p: Parser, ch: Byte)
    requires |p.params| == MAX_PARAMS && 0 <= p.paramCount <= MAX_PARAMS && forall i :: 0 <= i < MAX_PARAMS ==>
             p.params[i] >= 0
    ensures var (q, action) := Parsed(p, ch);
            (forall i :: 0 <= i < MAX_PARAMS ==> q.params[i] >= 0) &&
            (action.Control? ==> forall i :: 0 <= i < |action.params| ==> action.params[i] >= 0)
  {
  }

  /** Every byte keeps the screen well formed and marks every row it changes. */
  lemma ByteRepaints(s: Screen, ch: Byte)
    requires WellFormed(s)
    ensures Repaints(s, Fed(s, ch)) && WellFormed(Fed(s, ch))
  {
    hide WithCsi, WithChar, WithSpaces, OnNextRow, CellAt, Parsed;
    ParserStaysFormed(s.parser, ch);
    var (parser, action) := Parsed(s.parser, ch);
    match action {
      case LineFeed => NextRowRepaints(s);
      case Tab => SpacesRepaint(s, (s.cursorCol + 8) / 8 * 8);
      case Print(c) => CharRepaints(s, c);
      case Control(params, final) => CsiRepaints(s, params, final);
      case _ =>
    }
    RepaintsTransitive(s, Done(s, action), Fed(s, ch));
  }

  // ---- resizing keeps the text ---------------------------------------------------------------

  /** How many rows a resize scrolls away above. */
  function Scrolled(s: Screen, newRows: nat): nat {
    if s.cursorRow >= newRows then s.cursorRow - newRows + 1 else 0
  }

  /** Everything but the cells, the dirty range, the number of rows and the cursor's row is the same. */
  predicate SameColumns(s: Screen, t: Screen) {
    t.cols == s.cols && t.cursorCol == s.cursorCol && t.parser == s.parser && t.fg == s.fg && t.bg == s.bg
  }

  lemma ScrollOnceFrame(s: Screen)
    requires IsGrid(s.grid) && s.cursorRow > 0
    ensures IsGrid(ScrolledOnce(s).grid) && SameColumns(s, ScrolledOnce(s))
  {
    ScrollingRepaints(s.(rows := s.cursorRow + 1));
  }

  lemma ScrollOnceCell(s: Screen, r: int, c: int)
    requires IsGrid(s.grid) && 0 <= r < s.cursorRow < MAX_ROWS && 0 <= c < s.cols && c < MAX_COLS
    ensures CellAt(ScrolledOnce(s).grid, r, c) == CellAt(s.grid, r + 1, c)
  {
    ScrollMovesRow(s.(rows := s.cursorRow + 1), r, c);
  }

  lemma {:induction false} ScrollFrame(s: Screen, newRows: nat)
    requires IsGrid(s.grid) && 0 < newRows
    ensures var t := ScrolledIntoView(s, newRows);
            IsGrid(t.grid) && SameColumns(s, t) && t.cursorRow == s.cursorRow - Scrolled(s, newRows)
    decreases s.cursorRow
  {
    if s.cursorRow >= newRows {
      hide ScrolledOnce;
      ScrollOnceFrame(s);
      ScrollFrame(ScrolledOnce(s), newRows);
    }
  }

  lemma {:induction false} ScrollShifts(s: Screen, newRows: nat, r: nat, c: nat)
    requires IsGrid(s.grid) && s.cursorRow < MAX_ROWS && r < newRows && c < s.cols && c < MAX_COLS
    ensures CellAt(ScrolledIntoView(s, newRows).grid, r, c) == CellAt(s.grid, r + Scrolled(s, newRows), c)
    decreases s.cursorRow
  {
    if s.cursorRow >= newRows {
      hide ScrolledOnce, CellAt, IsGrid;
      var once, k := ScrolledOnce(s), Scrolled(s, newRows);
      ScrollOnceFrame(s);
      ScrollShifts(once, newRows, r, c);
      assert r + Scrolled(once, newRows) == r + k - 1;
      ScrollOnceCell(s, r + k - 1, c);
      assert CellAt(once.grid, r + Scrolled(once, newRows), c) == CellAt(s.grid, r + k, c);
      assert ScrolledIntoView(s, newRows) == ScrolledIntoView(once, newRows);
    }
  }

  /** After a resize to newRows by newCols every visible cell is the old cell k rows further down, where k
      is how far the screen had to scroll to keep the cursor in view; but a place that was not on the old
      screen is blank if the first blanking reached it, that is, if it was above newRows before the scroll.
      The cursor stays on its row of text, and in its column or behind the last one there now is. */
  lemma ResizeKeepsText(s: Screen, newRows: nat, newCols: nat, r: nat, c: nat)
    requires IsGrid(s.grid) && s.cursorRow < MAX_ROWS && 1 <= newRows <= MAX_ROWS && 1 <= newCols <= MAX_COLS
    requires r < newRows && c < newCols
    ensures var t := Fitted(s, newRows, newCols); var k := Scrolled(s, newRows);
            t.rows == newRows && t.cols == newCols && t.cursorRow == s.cursorRow - k &&
            t.cursorCol == (if s.cursorCol > newCols then newCols else s.cursorCol) &&
            t.fg == s.fg && t.bg == s.bg && t.parser == s.parser &&
            CellAt(t.grid, r, c) == if r + k < newRows && (r + k >= s.rows || c >= s.cols) then BLANK
              else CellAt(s.grid, r + k, c)
  {
    hide ScrolledIntoView;
    var wide := Widened(s, newRows, newCols).(cols := newCols);
    ScrollFrame(wide, newRows);
    ScrollShifts(wide, newRows, r, c);
  }

  /** On the columns both screens have, text moves up by k rows and nothing else happens to it. */
  lemma ResizeMovesRows(s: Screen, newRows: nat, newCols: nat, r: nat, c: nat)
    requires WellFormed(s) && 1 <= newRows <= MAX_ROWS && 1 <= newCols <= MAX_COLS
    requires r < newRows && c < newCols && c < s.cols && r + Scrolled(s, newRows) < s.rows
    ensures CellAt(Fitted(s, newRows, newCols).grid, r, c) == CellAt(s.grid, r + Scrolled(s, newRows), c)
  {
    ResizeKeepsText(s, newRows, newCols, r, c);
  }

  /** A cell that was not on the old screen is shown blank, whatever the array held there, exactly when its
      place was above newRows before the scroll: without scrolling, always. */
  lemma NewCellsBlank(s: Screen, newRows: nat, newCols: nat, r: nat, c: nat)
    requires WellFormed(s) && 1 <= newRows <= MAX_ROWS && 1 <= newCols <= MAX_COLS
    requires r < newRows && c < newCols && (r + Scrolled(s, newRows) >= s.rows || c >= s.cols)
    ensures CellAt(Fitted(s, newRows, newCols).grid, r, c) == BLANK <==>
              r + Scrolled(s, newRows) < newRows || CellAt(s.grid, r + Scrolled(s, newRows), c) == BLANK
    ensures Scrolled(s, newRows) == 0 ==> CellAt(Fitted(s, newRows, newCols).grid, r, c) == BLANK
  {
    ResizeKeepsText(s, newRows, newCols, r, c);
  }

  lemma ResizeRepaintsAll(s: Screen, newRows: nat, newCols: nat)
    requires IsGrid(s.grid) && s.cursorRow < MAX_ROWS && 1 <= newRows <= MAX_ROWS && 1 <= newCols <= MAX_COLS
    requires |s.parser.params| == MAX_PARAMS && 0 <= s.parser.paramCount <= MAX_PARAMS
    requires forall i :: 0 <= i < MAX_PARAMS ==> s.parser.params[i] >= 0
    ensures WellFormed(Fitted(s, newRows, newCols))
    ensures forall r :: 0 <= r < newRows ==> InDirt(Fitted(s, newRows, newCols), r)
  {
    hide ScrolledIntoView;
    ScrollFrame(Widened(s, newRows, newCols).(cols := newCols), newRows);
  }

  // ---- every run -----------------------------------------------------------------------------

  datatype Event = Output(ch: Byte) | Resize(rows: nat, cols: nat) | Flush

  /** The screen, and what the window last painted: cells, the column of a cursor block in each row or -1,
      and the row the cursor was last painted in. */
  datatype Shown = Shown(screen: Screen, painted: Grid, blocks: seq<int>, cursorAt: nat)

  ghost predicate GoodEvent(e: Event) {
    e.Resize? ==> 1 <= e.rows <= MAX_ROWS && 1 <= e.cols <= MAX_COLS
  }

  /** The rows that a flush repaints: the dirty ones, the cursor's, and the one it was last painted in. */
  function Invalid(w: Shown): Screen {
    Touched(Touched(w.screen, w.screen.cursorRow, w.screen.cursorRow + 1), w.cursorAt, w.cursorAt + 1)
  }

  ghost function Repainted(w: Shown): Shown
    requires |w.blocks| == MAX_ROWS
  {
    var (s, invalid) := (w.screen, Invalid(w));
    Shown(Flushed(s),
          Mapped((r, c) => if InDirt(invalid, r) && r < s.rows then CellAt(s.grid, r, c) else CellAt(w.painted, r, c)),
          seq(MAX_ROWS, r requires 0 <= r < MAX_ROWS =>
            if !InDirt(invalid, r) || r >= s.rows then w.blocks[r] else if r == s.cursorRow then s.cursorCol else -1),
          s.cursorRow)
  }

  ghost function After(w: Shown, e: Event): Shown
    requires WellFormed(w.screen) && GoodEvent(e) && |w.blocks| == MAX_ROWS
  {
    match e
    case Output(ch) => w.(screen := Fed(w.screen, ch))
    case Resize(rows, cols) => w.(screen := Fitted(w.screen, rows, cols))
    case Flush => Repainted(w)
  }

  /** Every visible row that differs from what was painted is in the dirty range; so is one with a cursor
      block, unless the cursor was last painted there. */
  ghost predicate Tracked(w: Shown) {
    |w.blocks| == MAX_ROWS &&
    (forall r :: 0 <= r < w.screen.rows && r < MAX_ROWS && w.blocks[r] != -1 ==>
       r == w.cursorAt || InDirt(w.screen, r)) &&
    forall r, c :: 0 <= r < w.screen.rows && CellAt(w.screen.grid, r, c) != CellAt(w.painted, r, c) ==>
      InDirt(w.screen, r)
  }

  /** The window shows the screen: every visible cell, and the cursor at its place and nowhere else. */
  ghost predicate ShowsScreen(w: Shown) {
    |w.blocks| == MAX_ROWS && w.screen.rows <= MAX_ROWS &&
    forall r :: 0 <= r < w.screen.rows ==>
      w.blocks[r] == (if r == w.screen.cursorRow then w.screen.cursorCol else -1) &&
      forall c :: CellAt(w.painted, r, c) == CellAt(w.screen.grid, r, c)
  }

  /** Bytes, resizes and flushes keep what differs inside the dirty range; repainting no more than the
      dirty rows and the cursor's two rows shows the screen. */
  lemma EventKeepsTracked(w: Shown, e: Event)
    requires WellFormed(w.screen) && Tracked(w) && GoodEvent(e)
    ensures WellFormed(After(w, e).screen) && Tracked(After(w, e))
    ensures e.Flush? ==> ShowsScreen(After(w, e))
  {
    hide WellFormed, Fed, Fitted, Repainted, ShowsScreen, CellAt;
    match e {
      case Output(ch) => ByteTracked(w, ch);
      case Resize(rows, cols) => ResizeTracked(w, rows, cols);
      case Flush => FlushShows(w);
    }
  }

  lemma ByteTracked(w: Shown, ch: Byte)
    requires WellFormed(w.screen) && Tracked(w)
    ensures WellFormed(Fed(w.screen, ch)) && Tracked(w.(screen := Fed(w.screen, ch)))
  {
    hide Fed, CellAt, IsGrid;
    ByteRepaints(w.screen, ch);
    var t := Fed(w.screen, ch);
    forall r, c | 0 <= r < t.rows && CellAt(t.grid, r, c) != CellAt(w.painted, r, c)
      ensures InDirt(t, r)
    {
      if CellAt(t.grid, r, c) == CellAt(w.screen.grid, r, c) {
        assert InDirt(w.screen, r);
      }
    }
  }

  lemma ResizeTracked(w: Shown, rows: nat, cols: nat)
    requires WellFormed(w.screen) && Tracked(w) && 1 <= rows <= MAX_ROWS && 1 <= cols <= MAX_COLS
    ensures WellFormed(Fitted(w.screen, rows, cols)) && Tracked(w.(screen := Fitted(w.screen, rows, cols)))
  {
    ResizeRepaintsAll(w.screen, rows, cols);
    ResizedRows(w.screen, rows, cols);
    hide Fitted, CellAt, WellFormed;
  }

  lemma ResizedRows(s: Screen, rows: nat, cols: nat)
    requires 1 <= rows <= MAX_ROWS && 1 <= cols <= MAX_COLS
    ensures Fitted(s, rows, cols).rows == rows
  {
    hide ScrolledIntoView, Widened;
  }

  lemma FlushShows(w: Shown)
    requires WellFormed(w.screen) && Tracked(w)
    ensures ShowsScreen(Repainted(w)) && Tracked(Repainted(w)) && WellFormed(Repainted(w).screen)
  {
    CellsShown(w);
    BlocksShown(w);
    FlushedFormed(w);
    hide WellFormed, CellAt, Repainted;
  }

  lemma FlushedFormed(w: Shown)
    requires WellFormed(w.screen) && |w.blocks| == MAX_ROWS
    ensures WellFormed(Repainted(w).screen) && Repainted(w).screen == Flushed(w.screen) && w.screen.rows <= MAX_ROWS
    ensures |Repainted(w).blocks| == MAX_ROWS && Repainted(w).cursorAt == w.screen.cursorRow
  {
    hide CellAt;
  }

  lemma InvalidHolds(w: Shown, r: int)
    ensures InDirt(w.screen, r) || r == w.screen.cursorRow || r == w.cursorAt ==> InDirt(Invalid(w), r)
  {
  }

  lemma CellsShown(w: Shown)
    requires WellFormed(w.screen) && Tracked(w)
    ensures forall r, c :: 0 <= r < w.screen.rows ==> CellAt(Repainted(w).painted, r, c) == CellAt(w.screen.grid, r, c)
  {
    forall r, c | 0 <= r < w.screen.rows ensures CellAt(Repainted(w).painted, r, c) == CellAt(w.screen.grid, r, c) {
      InvalidHolds(w, r);
      hide Invalid;
    }
  }

  lemma BlocksShown(w: Shown)
    requires WellFormed(w.screen) && Tracked(w)
    ensures forall r :: 0 <= r < w.screen.rows ==>
              Repainted(w).blocks[r] == if r == w.screen.cursorRow then w.screen.cursorCol else -1
  {
    forall r | 0 <= r < w.screen.rows
      ensures Repainted(w).blocks[r] == if r == w.screen.cursorRow then w.screen.cursorCol else -1
    {
      InvalidHolds(w, r);
      hide Invalid, CellAt;
    }
  }

  /** Over every run of bytes, resizes and flushes the screen stays well formed and tracked. */
  ghost function AfterAll(w: Shown, events: seq<Event>): (r: Shown)
    requires WellFormed(w.screen) && Tracked(w) && forall i :: 0 <= i < |events| ==> GoodEvent(events[i])
    ensures WellFormed(r.screen) && Tracked(r)
    ensures events != [] && events[|events| - 1].Flush? ==> ShowsScreen(r)
    decreases |events|
  {
    if events == [] then w
    else
      var before := AfterAll(w, events[..|events| - 1]);
      EventKeepsTracked(before, events[|events| - 1]);
      After(before, events[|events| - 1])
  }

  // ---- printing and parsing a control sequence -----------------------------------------------

  /** A parameter as printed: nothing, or a decimal number. */
  datatype Param = Empty | Number(value: nat)

  function Digits(n: nat): (digits: seq<Byte>)
    ensures digits != []
  {
    if n < 10 then [ZERO + n] else Digits(n / 10) + [ZERO + n % 10]
  }

  function PrintedParam(p: Param): seq<Byte> {
    match p case Empty => [] case Number(n) => Digits(n)
  }

  /** Parameters joined by semicolons. */
  function PrintedParams(params: seq<Param>): seq<Byte> {
    if params == [] then []
    else if |params| == 1 then PrintedParam(params[0])
    else PrintedParams(params[..|params| - 1]) + [SEMICOLON] + PrintedParam(params[|params| - 1])
  }

  function Printed(params: seq<Param>, final: Byte): seq<Byte> {
    [ESC, BRACKET] + PrintedParams(params) + [final]
  }

  function Value(p: Param): int {
    match p case Empty => 0 case Number(n) => n
  }

  function Values(params: seq<Param>): (values: seq<int>)
    ensures |values| == |params| && forall i :: 0 <= i < |params| ==> values[i] == Value(params[i])
  {
    seq(|params|, i requires 0 <= i < |params| => Value(params[i]))
  }

  ghost predicate GoodParser(p: Parser) {
    |p.params| == MAX_PARAMS && 0 <= p.paramCount <= MAX_PARAMS
  }

  /** Bytes through the parser: the parser after them and what they asked for. */
  function ParsedAll(p: Parser, bytes: seq<Byte>): (r: (Parser, seq<Action>))
    requires |p.params| == MAX_PARAMS && 0 <= p.paramCount <= MAX_PARAMS
    ensures |r.0.params| == MAX_PARAMS && 0 <= r.0.paramCount <= MAX_PARAMS
    decreases |bytes|
  {
    if bytes == [] then (p, [])
    else
      var (q, actions) := ParsedAll(p, bytes[..|bytes| - 1]);
      var (r, action) := Parsed(q, bytes[|bytes| - 1]);
      (r, if action == Ignore then actions else actions + [action])
  }

  lemma {:induction false} ParsedInTurn(p: Parser, a: seq<Byte>, b: seq<Byte>)
    requires GoodParser(p)
    ensures var (q, first) := ParsedAll(p, a); var (r, second) := ParsedAll(q, b);
            ParsedAll(p, a + b) == (r, first + second)
    decreases |b|
  {
    hide Parsed;
    var first := ParsedAll(p, a).1;
    if b == [] {
      assert a + b == a && first + [] == first;
      assert ParsedAll(ParsedAll(p, a).0, b).1 == [];
    } else {
      var init, last := b[..|b| - 1], b[|b| - 1];
      ParsedInTurn(p, a, init);
      assert (a + b)[..|a + b| - 1] == a + init && (a + b)[|a + b| - 1] == last;
      var (q, second) := ParsedAll(ParsedAll(p, a).0, init);
      var (r, action) := Parsed(q, last);
      assert first + (second + [action]) == (first + second) + [action];
    }
  }

  lemma ParsedOne(p: Parser, ch: Byte)
    requires GoodParser(p)
    ensures var (q, action) := Parsed(p, ch); ParsedAll(p, [ch]) == (q, if action == Ignore then [] else [action])
  {
    hide Parsed;
    assert [ch][..|[ch]| - 1] == [];
    assert ParsedAll(p, [ch][..|[ch]| - 1]) == (p, []);
    var (q, action) := Parsed(p, ch);
    assert [] + [action] == [action];
  }

  lemma DigitParsed(p: Parser, d: nat)
    requires GoodParser(p) && p.state == Csi && d < 10
    ensures var count := if p.paramCount == 0 then 1 else p.paramCount;
            ParsedAll(p, [ZERO + d]) == (Parser(Csi, p.params[count - 1 := p.params[count - 1] * 10 + d], count), [])
  {
    hide ParsedAll, Parsed;
    ParsedOne(p, ZERO + d);
    ParsedDigit(p, d);
  }

  lemma ParsedDigit(p: Parser, d: nat)
    requires GoodParser(p) && p.state == Csi && d < 10
    ensures var count := if p.paramCount == 0 then 1 else p.paramCount;
            Parsed(p, ZERO + d) == (Parser(Csi, p.params[count - 1 := p.params[count - 1] * 10 + d], count), Ignore)
  {
    var ch: Byte := ZERO + d;
    assert ch - ZERO == d;
  }

  lemma SemicolonParsed(p: Parser)
    requires GoodParser(p) && p.state == Csi
    ensures var count := if p.paramCount < MAX_PARAMS then p.paramCount + 1 else p.paramCount;
            ParsedAll(p, [SEMICOLON]) == (Parser(Csi, p.params[count - 1 := 0], count), [])
  {
    hide ParsedAll;
    ParsedOne(p, SEMICOLON);
  }

  lemma NothingTwice()
    ensures var none: seq<Action> := []; none + none == none
  {
  }

  /** Digits fill the current parameter. */
  lemma {:induction false} DigitsParsed(p: Parser, n: nat)
    requires GoodParser(p) && p.state == Csi && (p.paramCount > 0 || p.params == Zeros())
    requires p.paramCount > 0 ==> p.params[p.paramCount - 1] == 0
    ensures var count := if p.paramCount == 0 then 1 else p.paramCount;
            ParsedAll(p, Digits(n)) == (Parser(Csi, p.params[count - 1 := n], count), [])
  {
    hide Parsed, ParsedAll;
    var count := if p.paramCount == 0 then 1 else p.paramCount;
    assert p.params[count - 1] == 0;
    if n < 10 {
      DigitParsed(p, n);
    } else {
      DigitsParsed(p, n / 10);
      var q := Parser(Csi, p.params[count - 1 := n / 10], count);
      ParsedInTurn(p, Digits(n / 10), [ZERO + n % 10]);
      DigitParsed(q, n % 10);
      NothingTwice();
      assert n / 10 * 10 + n % 10 == n;
      assert q.params[count - 1 := n] == p.params[count - 1 := n];
    }
  }

  lemma ParamParsed(p: Parser, param: Param)
    requires GoodParser(p) && p.state == Csi && 0 < p.paramCount && p.params[p.paramCount - 1] == 0
    ensures ParsedAll(p, PrintedParam(param)) == (p.(params := p.params[p.paramCount - 1 := Value(param)]), [])
  {
    if param.Number? {
      DigitsParsed(p, param.value);
    } else {
      assert p.params[p.paramCount - 1 := 0] == p.params;
      assert ParsedAll(p, []) == (p, []);
    }
  }

  /** The parameters a printed sequence is read as: all of them, but an empty first one is dropped. */
  function Kept(params: seq<Param>): seq<Param> {
    if params != [] && params[0] == Empty then params[1..] else params
  }

  lemma {:induction false} ParamsParsed(params: seq<Param>)
    requires 1 <= |params| <= MAX_PARAMS
    ensures var (q, actions) := ParsedAll(Parser(Csi, Zeros(), 0), PrintedParams(params));
            q.state == Csi && Given(q) == Values(Kept(params)) && actions == [] &&
            (q.paramCount == 0 ==> q.params == Zeros())
    decreases |params|
  {
    hide Parsed, ParsedAll, Digits;
    var start := Parser(Csi, Zeros(), 0);
    if |params| == 1 {
      FirstParsed(params[0]);
      assert params == [params[0]];
    } else {
      var init, last := params[..|params| - 1], params[|params| - 1];
      ParamsParsed(init);
      var q := ParsedAll(start, PrintedParams(init)).0;
      ParsedInTurn(start, PrintedParams(init) + [SEMICOLON], PrintedParam(last));
      ParsedInTurn(start, PrintedParams(init), [SEMICOLON]);
      assert Kept(params) == Kept(init) + [last];
      NextParsed(q, Kept(init), last);
    }
  }

  lemma FirstParsed(param: Param)
    ensures var (q, actions) := ParsedAll(Parser(Csi, Zeros(), 0), PrintedParam(param));
            q.state == Csi && Given(q) == Values(Kept([param])) && actions == [] &&
              (q.paramCount == 0 ==> q.params == Zeros())
  {
    if param.Number? {
      DigitsParsed(Parser(Csi, Zeros(), 0), param.value);
    }
  }

  /** A semicolon and a parameter are read as one more value. */
  lemma NextParsed(q: Parser, kept: seq<Param>, last: Param)
    requires GoodParser(q) && q.state == Csi && Given(q) == Values(kept) && |kept| < MAX_PARAMS
    ensures var (r, first) := ParsedAll(q, [SEMICOLON]); var (t, second) := ParsedAll(r, PrintedParam(last));
            first == [] && second == [] && t.state == Csi && t.paramCount > 0 && Given(t) == Values(kept + [last])
  {
    hide ParsedAll, Parsed;
    SemicolonParsed(q);
    var semi := ParsedAll(q, [SEMICOLON]).0;
    assert q.paramCount == |kept| && semi.paramCount == |kept| + 1;
    ParamParsed(semi, last);
    var t := ParsedAll(semi, PrintedParam(last)).0;
    assert forall i :: 0 <= i < |kept| ==> t.params[i] == q.params[i] == Given(q)[i];
  }

  lemma QuietUntilFinal(p: Parser, params: seq<Param>, final: Byte)
    requires GoodParser(p) && p.state == Ground && 1 <= |params| <= MAX_PARAMS && 0x40 <= final <= 0x7E
    ensures var (q, actions) := ParsedAll(p, [ESC, BRACKET] + PrintedParams(params));
            q.state == Csi && actions == [] && Given(q) == Values(Kept(params)) &&
            ParsedAll(p, Printed(params, final)) == (q.(state := Ground), [Control(Given(q), final)])
  {
    hide ParsedAll, Parsed, PrintedParams, Values;
    IntroParsed(p);
    ParsedInTurn(p, [ESC, BRACKET], PrintedParams(params));
    ParamsParsed(params);
    NothingTwice();
    var quiet := [ESC, BRACKET] + PrintedParams(params);
    var q := ParsedAll(p, quiet).0;
    ParsedInTurn(p, quiet, [final]);
    FinalParsed(q, final);
    var none: seq<Action> := [];
    assert none + [Control(Given(q), final)] == [Control(Given(q), final)];
  }

  /** Printing a control sequence with one to eight parameters and feeding it to a parser at rest asks for
      exactly one thing, that sequence with its parameters, and leaves the parser at rest (ECMA-48, section
      5.4); but an empty first parameter is dropped, and the others move up one place. */
  lemma SequenceRoundTrip(p: Parser, params: seq<Param>, final: Byte)
    requires GoodParser(p) && p.state == Ground && 1 <= |params| <= MAX_PARAMS && 0x40 <= final <= 0x7E
    ensures var (q, actions) := ParsedAll(p, Printed(params, final));
            q.state == Ground && actions == [Control(Values(Kept(params)), final)]
  {
    QuietUntilFinal(p, params, final);
  }

  lemma IntroParsed(p: Parser)
    requires GoodParser(p) && p.state == Ground
    ensures ParsedAll(p, [ESC, BRACKET]) == (Parser(Csi, Zeros(), 0), [])
  {
    hide ParsedAll;
    assert [ESC, BRACKET] == [ESC] + [BRACKET];
    ParsedInTurn(p, [ESC], [BRACKET]);
    ParsedOne(p, ESC);
    ParsedOne(p.(state := Escape), BRACKET);
    NothingTwice();
  }

  lemma FinalParsed(q: Parser, final: Byte)
    requires GoodParser(q) && q.state == Csi && 0x40 <= final <= 0x7E
    ensures ParsedAll(q, [final]) == (q.(state := Ground), [Control(Given(q), final)])
  {
    hide ParsedAll;
    ParsedOne(q, final);
  }

  /** A sequence is read with exactly the parameters it was printed with, an empty one standing for zero,
      exactly when the first is not empty. */
  lemma ParametersExact(p: Parser, params: seq<Param>, final: Byte)
    requires GoodParser(p) && p.state == Ground && 1 <= |params| <= MAX_PARAMS && 0x40 <= final <= 0x7E
    ensures ParsedAll(p, Printed(params, final)).1 == [Control(Values(params), final)] <==> params[0] != Empty
  {
    SequenceRoundTrip(p, params, final);
    assert |Values(Kept(params))| == |Kept(params)|;
  }

  /** Bytes of output, one after the other. */
  ghost function FedAll(s: Screen, bytes: seq<Byte>): (t: Screen)
    requires WellFormed(s)
    ensures WellFormed(t)
    decreases |bytes|
  {
    if bytes == [] then s
    else
      var before := FedAll(s, bytes[..|bytes| - 1]);
      ByteRepaints(before, bytes[|bytes| - 1]);
      Fed(before, bytes[|bytes| - 1])
  }

  /** Bytes that ask for nothing move only the parser. */
  lemma {:induction false} QuietBytes(s: Screen, bytes: seq<Byte>)
    requires WellFormed(s) && ParsedAll(s.parser, bytes).1 == []
    ensures FedAll(s, bytes) == s.(parser := ParsedAll(s.parser, bytes).0)
    decreases |bytes|
  {
    if bytes != [] {
      QuietBytes(s, bytes[..|bytes| - 1]);
    }
  }

  lemma RowClearedAside(s: Screen, p: Parser, row: nat, from: nat)
    ensures RowCleared(s.(parser := p), row, from) == RowCleared(s, row, from).(parser := p)
    ensures LineStartCleared(s.(parser := p)) == LineStartCleared(s).(parser := p)
  {
    hide Mapped;
  }

  lemma {:induction false} RowsClearedAside(s: Screen, p: Parser, row: nat, end: nat)
    requires row <= end
    ensures RowsCleared(s.(parser := p), row, end) == RowsCleared(s, row, end).(parser := p)
    decreases end - row
  {
    hide RowCleared;
    if row < end {
      RowsClearedAside(s, p, row, end - 1);
      RowClearedAside(RowsCleared(s, row, end - 1), p, end - 1, 0);
    }
  }

  lemma {:induction false} SgrAside(s: Screen, p: Parser, params: seq<int>)
    ensures SgrAll(s.(parser := p), params) == SgrAll(s, params).(parser := p)
  {
    if params != [] {
      SgrAside(s, p, params[..|params| - 1]);
    }
  }

  /** What a control sequence does has nothing to do with what the parser holds. */
  lemma CsiAside(s: Screen, p: Parser, params: seq<int>, final: Byte)
    requires WellFormed(s) && forall i :: 0 <= i < |params| ==> params[i] >= 0
    ensures WithCsi(s.(parser := p), params, final) == WithCsi(s, params, final).(parser := p)
  {
    hide RowCleared, RowsCleared, LineStartCleared;
    var line, above := RowCleared(s, s.cursorRow, s.cursorCol), RowsCleared(s, 0, s.cursorRow);
    if final == ED || final == EL {
      ClearingRepaints(s, s.cursorRow, s.cursorCol);
      RowClearedAside(s, p, s.cursorRow, s.cursorCol);
      RowClearedAside(s, p, s.cursorRow, 0);
      RowClearedAside(above, p, s.cursorRow, 0);
      RowsClearedAside(s, p, 0, s.rows);
      RowsClearedAside(line, p, s.cursorRow + 1, s.rows);
      RowsClearedAside(s, p, 0, s.cursorRow);
    }
    SgrAside(s, p, params);
  }

  /** A printed control sequence fed to a terminal at rest does exactly what the sequence does, once, to the
      screen it found, and the parser rests again. */
  lemma SequenceFed(s: Screen, params: seq<Param>, final: Byte)
    requires WellFormed(s) && s.parser.state == Ground && 1 <= |params| <= MAX_PARAMS && 0x40 <= final <= 0x7E
    ensures var q := ParsedAll(s.parser, Printed(params, final)).0;
            q.state == Ground && FedAll(s, Printed(params, final)) == WithCsi(s, Values(Kept(params)),
              final).(parser := q)
  {
    hide Parsed, PrintedParams, WithCsi, FedAll;
    var quiet := [ESC, BRACKET] + PrintedParams(params);
    QuietUntilFinal(s.parser, params, final);
    QuietBytes(s, quiet);
    var p := ParsedAll(s.parser, quiet).0;
    FinalFed(s, quiet, final);
    CsiAside(s, p, Values(Kept(params)), final);
  }

  lemma CsiFed(s: Screen, final: Byte)
    requires WellFormed(s) && s.parser.state == Csi && 0x40 <= final <= 0x7E
    ensures var p := s.parser;
            (forall i :: 0 <= i < p.paramCount ==> p.params[i] >= 0) &&
            Fed(s, final) == WithCsi(s, Given(p), final).(parser := p.(state := Ground))
  {
    hide WithCsi;
  }

  lemma FinalFed(s: Screen, quiet: seq<Byte>, final: Byte)
    requires WellFormed(s) && ParsedAll(s.parser, quiet).1 == [] && ParsedAll(s.parser, quiet).0.state == Csi &&
             0x40 <= final <= 0x7E
    ensures var p := ParsedAll(s.parser, quiet).0;
            (forall i :: 0 <= i < p.paramCount ==> p.params[i] >= 0) &&
            FedAll(s, quiet + [final]) == WithCsi(s.(parser := p), Given(p), final).(parser := p.(state := Ground))
  {
    hide WithCsi, ParsedAll, WellFormed, Parsed;
    InitAndLast(quiet, final);
    QuietBytes(s, quiet);
    CsiFed(FedAll(s, quiet), final);
  }

  /** ESC [ row ; col H, or f: the cursor goes to that place counted from 1, or to the nearest one on the screen, and
      nothing else changes. */
  lemma CursorPosition(s: Screen, row: nat, col: nat, final: Byte)
    requires WellFormed(s) && s.parser.state == Ground && (final == 0x48 || final == 0x66)
    ensures var t := FedAll(s, Printed([Number(row), Number(col)], final));
            t == s.(cursorRow := if row == 0 then 0 else if row > s.rows then s.rows - 1 else row - 1,
                    cursorCol := if col == 0 then 0 else if col > s.cols then s.cols - 1 else col - 1,
                    parser := t.parser) &&
            t.parser.state == Ground
  {
    hide FedAll, ParsedAll, Printed, RowCleared, RowsCleared, LineStartCleared, SgrAll, WellFormed, CellAt;
    var params := [Number(row), Number(col)];
    SequenceFed(s, params, final);
    assert Values(Kept(params)) == [row, col];
    OnScreen(s);
  }

  lemma OnScreen(s: Screen)
    requires WellFormed(s)
    ensures s.cursorRow < s.rows && s.cols > 0
  {
  }
}
