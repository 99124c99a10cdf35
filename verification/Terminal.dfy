/** The terminal's screen in place (terminal/src/main.cpp): the cell array, cursor, dirty range and parser
    that every byte and every resize updates, each operation tied to what it does to the screen as a value. */
module Terminal {
  import opened Bytes
  import opened Screens

  class Terminal {
    const grid: array2<Cell>
    var rows: nat
    var cols: nat
    var cursorRow: nat
    var cursorCol: nat
    var fg: Color
    var bg: Color
    var state: ParserState
    const params: array<int>
    var paramCount: int
    var dirtyTop: nat
    var dirtyBottom: nat

    /** Before the first fit the screen has no rows and no columns. */
    constructor ()
      ensures Allocated() && fresh(grid) && fresh(params)
      ensures rows == 0 && cols == 0 && cursorRow == 0 && cursorCol == 0 && fg == DefaultFg && bg == DefaultBg
      ensures state == Ground && paramCount == 0 && forall i :: 0 <= i < MAX_PARAMS ==> params[i] == 0
    {
      grid := new Cell[MAX_ROWS, MAX_COLS];
      params := new int[MAX_PARAMS](_ => 0);
      rows, cols, cursorRow, cursorCol := 0, 0, 0, 0;
      fg, bg, state, paramCount := DefaultFg, DefaultBg, Ground, 0;
      dirtyTop, dirtyBottom := 0, 0;
    }

    ghost predicate Allocated() {
      grid.Length0 == MAX_ROWS && grid.Length1 == MAX_COLS && params.Length == MAX_PARAMS
    }

    ghost function Cells(): (g: Grid)
      requires Allocated()
      reads grid
      ensures IsGrid(g) && forall r, c :: 0 <= r < MAX_ROWS && 0 <= c < MAX_COLS ==> g[r][c] == grid[r, c]
    {
      seq(MAX_ROWS, r requires 0 <= r < MAX_ROWS reads grid => seq(MAX_COLS,
        c requires 0 <= c < MAX_COLS reads grid => grid[r, c]))
    }

    /** The screen as a value. */
    ghost function View(): Screen
      requires Allocated()
      reads this, grid, params
    {
      Screen(Cells(), rows, cols, cursorRow, cursorCol, fg, bg, Parser(state, params[..], paramCount), dirtyTop,
        dirtyBottom)
    }

    ghost predicate Valid()
      reads this, grid, params
    {
      Allocated() && WellFormed(View())
    }

    static lemma SameGrid(a: Grid, b: Grid)
      requires IsGrid(a) && IsGrid(b) && forall r, c :: 0 <= r < MAX_ROWS && 0 <= c < MAX_COLS ==> a[r][c] == b[r][c]
      ensures a == b
    {
      forall r | 0 <= r < MAX_ROWS ensures a[r] == b[r] {
      }
    }

    method TouchRows(top: nat, bottom: nat)
      requires Allocated()
      modifies this`dirtyTop, this`dirtyBottom
      ensures View() == Touched(old(View()), top, bottom)
    {
      if top >= bottom {
        return;
      }
      if dirtyTop >= dirtyBottom {
        dirtyTop, dirtyBottom := top, bottom;
        return;
      }
      if top < dirtyTop {
        dirtyTop := top;
      }
      if bottom > dirtyBottom {
        dirtyBottom := bottom;
      }
    }

    method ClearRow(row: nat, from: nat)
      requires Allocated() && row < MAX_ROWS && cols <= MAX_COLS
      modifies this`dirtyTop, this`dirtyBottom, grid
      ensures View() == RowCleared(old(View()), row, from)
    {
      BlankRow(row, from);
      SameGrid(Cells(), RowCleared(old(View()), row, from).grid);
      TouchRows(row, row + 1);
    }

    /** Spaces from a column on, in the current colors. */
    method BlankRow(row: nat, from: nat)
      requires Allocated() && row < MAX_ROWS && cols <= MAX_COLS
      modifies grid
      ensures forall i, j :: 0 <= i < MAX_ROWS && 0 <= j < MAX_COLS ==>
                grid[i, j] == if i == row && from <= j < cols then Cell(SPACE, fg, bg) else old(grid[i, j])
    {
      var c := from;
      while c < cols
        invariant from <= c
        invariant forall i, j :: 0 <= i < MAX_ROWS && 0 <= j < MAX_COLS ==>
                    grid[i, j] == if i == row && from <= j < c && j < cols then Cell(SPACE, fg, bg) else old(grid[i, j])
      {
        grid[row, c] := Cell(SPACE, fg, bg);
        c := c + 1;
      }
    }

    method ClearRows(row: nat, end: nat)
      requires Allocated() && row <= end <= MAX_ROWS && cols <= MAX_COLS
      modifies this`dirtyTop, this`dirtyBottom, grid
      ensures View() == RowsCleared(old(View()), row, end)
    {
      hide RowCleared, IsGrid;
      for r := row to end
        invariant View() == RowsCleared(old(View()), row, r)
      {
        ClearRow(r, 0);
      }
    }

    method ClearAll()
      requires Allocated() && rows <= MAX_ROWS && cols <= MAX_COLS
      modifies this`cursorRow, this`cursorCol, this`dirtyTop, this`dirtyBottom, grid
      ensures View() == RowsCleared(old(View()), 0, old(rows)).(cursorRow := 0, cursorCol := 0)
    {
      ClearRows(0, rows);
      cursorRow := 0;
      cursorCol := 0;
    }

    method ScrollUp()
      requires Allocated() && 0 < rows <= MAX_ROWS && cols <= MAX_COLS
      modifies this`dirtyTop, this`dirtyBottom, grid
      ensures View() == ScrolledUp(old(View()))
    {
      hide RowsMoved, RowCleared, CellAt, IsGrid;
      MoveRows();
      ClearRow(rows - 1, 0);
      TouchRows(0, rows);
    }

    method MoveRows()
      requires Allocated() && 0 < rows <= MAX_ROWS && cols <= MAX_COLS
      modifies grid
      ensures View() == RowsMoved(old(View()))
    {
      hide RowsMoved;
      for r := 1 to rows
        invariant forall i, j :: 0 <= i < MAX_ROWS && 0 <= j < MAX_COLS ==>
                    grid[i, j] == old(grid[if i + 1 < r && j < cols then i + 1 else i, j])
      {
        MoveRow(r);
      }
      forall i, j | 0 <= i < MAX_ROWS && 0 <= j < MAX_COLS
        ensures Cells()[i][j] == CellAt(old(View()).grid, if i + 1 < rows && j < cols then i + 1 else i, j)
      {
        assert Cells()[i][j] == grid[i, j];
      }
      RowsAreMoved(old(View()), Cells());
    }

    static lemma RowsAreMoved(s: Screen, g: Grid)
      requires IsGrid(s.grid) && IsGrid(g) && 0 < s.rows <= MAX_ROWS
      requires forall i, j :: 0 <= i < MAX_ROWS && 0 <= j < MAX_COLS ==>
                 g[i][j] == CellAt(s.grid, if i + 1 < s.rows && j < s.cols then i + 1 else i, j)
      ensures s.(grid := g) == RowsMoved(s)
    {
      var moved := RowsMoved(s).grid;
      forall i, j | 0 <= i < MAX_ROWS && 0 <= j < MAX_COLS ensures g[i][j] == moved[i][j] {
      }
      SameGrid(g, moved);
    }

    /** The row above takes this row's cells. */
    method MoveRow(row: nat)
      requires Allocated() && 0 < row < rows <= MAX_ROWS && cols <= MAX_COLS
      modifies grid
      ensures forall i, j :: 0 <= i < MAX_ROWS && 0 <= j < MAX_COLS ==>
                grid[i, j] == old(grid[if i + 1 == row && j < cols then row else i, j])
    {
      for c := 0 to cols
        invariant forall i, j :: 0 <= i < MAX_ROWS && 0 <= j < MAX_COLS ==>
                    grid[i, j] == old(grid[if i + 1 == row && j < c then row else i, j])
      {
        grid[row - 1, c] := grid[row, c];
      }
    }

    method Newline()
      requires Valid()
      modifies this`dirtyTop, this`dirtyBottom, this`cursorRow, grid
      ensures View() == OnNextRow(old(View()))
    {
      if cursorRow + 1 >= rows {
        ScrollUp();
      } else {
        cursorRow := cursorRow + 1;
      }
    }

    method PutChar(ch: Byte)
      requires Valid()
      modifies this`dirtyTop, this`dirtyBottom, this`cursorRow, this`cursorCol, grid
      ensures View() == WithChar(old(View()), ch)
    {
      hide CellPut, OnNextRow;
      if cursorCol >= cols {
        NextRowRepaints(View().(cursorCol := 0));
        cursorCol := 0;
        Newline();
      }
      PutCell(ch);
    }

    method PutCell(ch: Byte)
      requires Allocated() && cursorRow < MAX_ROWS && cursorCol < MAX_COLS && cursorCol < cols && 0 < rows
      modifies this`dirtyTop, this`dirtyBottom, this`cursorCol, grid
      ensures View() == CellPut(old(View()), ch)
    {
      hide IsGrid, CellAt, CellPut;
      StoreCell(ch);
      CellIsPut(old(View()), Cells(), ch);
      TouchRows(cursorRow, cursorRow + 1);
      cursorCol := cursorCol + 1;
    }

    method StoreCell(ch: Byte)
      requires Allocated() && cursorRow < MAX_ROWS && cursorCol < MAX_COLS
      modifies grid
      ensures IsGrid(old(View()).grid) && View() == old(View()).(grid := Cells())
      ensures forall i, j :: 0 <= i < MAX_ROWS && 0 <= j < MAX_COLS ==>
                Cells()[i][j] == if i == cursorRow && j == cursorCol then Cell(ch, fg, bg)
                                 else CellAt(old(View()).grid, i, j)
    {
      grid[cursorRow, cursorCol] := Cell(ch, fg, bg);
      forall i, j | 0 <= i < MAX_ROWS && 0 <= j < MAX_COLS
        ensures Cells()[i][j] == if i == cursorRow && j == cursorCol then Cell(ch, fg, bg)
                else CellAt(old(View()).grid, i, j)
      {
        assert Cells()[i][j] == grid[i, j];
      }
    }

    static lemma CellIsPut(s: Screen, g: Grid, ch: Byte)
      requires IsGrid(s.grid) && IsGrid(g)
      requires forall i, j :: 0 <= i < MAX_ROWS && 0 <= j < MAX_COLS ==>
                 g[i][j] == if i == s.cursorRow && j == s.cursorCol then Cell(ch, s.fg, s.bg) else CellAt(s.grid, i, j)
      ensures Touched(s.(grid := g), s.cursorRow, s.cursorRow + 1).(cursorCol := s.cursorCol + 1) == CellPut(s, ch)
    {
      SameGrid(g, CellPut(s, ch).grid);
    }

    method Tabulate()
      requires Valid()
      modifies this`dirtyTop, this`dirtyBottom, this`cursorRow, this`cursorCol, grid
      ensures View() == WithSpaces(old(View()), (old(cursorCol) + 8) / 8 * 8)
    {
      var next := (cursorCol + 8) / 8 * 8;
      while cursorCol < next && cursorCol < cols
        invariant Valid() && WithSpaces(old(View()), next) == WithSpaces(View(), next)
        decreases next - cursorCol
      {
        CharRepaints(View(), SPACE);
        PutChar(SPACE);
      }
    }

    method ApplySgr()
      requires Valid()
      modifies this`fg, this`bg
      ensures View() == WithCsi(old(View()), Given(old(View()).parser), SGR)
    {
      if paramCount == 0 {
        fg, bg := DefaultFg, DefaultBg;
        return;
      }
      ghost var given := params[..paramCount];
      for i := 0 to paramCount
        invariant View() == SgrAll(old(View()), given[..i])
      {
        assert given[..i + 1][..i] == given[..i];
        ApplyCode(params[i]);
      }
      assert given[..paramCount] == given;
    }

    method ApplyCode(code: int)
      requires Allocated()
      modifies this`fg, this`bg
      ensures View() == Sgr(old(View()), code)
    {
      if code == 0 {
        fg, bg := DefaultFg, DefaultBg;
      } else if 30 <= code <= 37 {
        fg := Ansi(code - 30);
      } else if 90 <= code <= 97 {
        fg := Ansi(code - 90 + 8);
      } else if 40 <= code <= 47 {
        bg := Ansi(code - 40);
      } else if 100 <= code <= 107 {
        bg := Ansi(code - 100 + 8);
      } else if code == 39 {
        fg := DefaultFg;
      } else if code == 49 {
        bg := DefaultBg;
      }
    }

    /** Moves the cursor. */
    method MoveCursor(final: Byte, a: int, b: int)
      requires Valid() && a >= 0 && b >= 0 && final in {CUU, CUD, CUF, CUB, CUP, HVP}
      modifies this`cursorRow, this`cursorCol
      ensures View() == WithCsi(old(View()), [a, b], final)
    {
      hide RowCleared, RowsCleared, LineStartCleared, SgrAll, IsGrid, CellAt;
      var n := if a != 0 then a else 1;
      if final == CUU {
        cursorRow := cursorRow - (if n <= cursorRow then n else cursorRow);
      } else if final == CUD {
        cursorRow := cursorRow + n;
        if cursorRow >= rows {
          cursorRow := rows - 1;
        }
      } else if final == CUF {
        cursorCol := cursorCol + n;
        if cursorCol >= cols {
          cursorCol := cols - 1;
        }
      } else if final == CUB {
        cursorCol := cursorCol - (if n <= cursorCol then n else cursorCol);
      } else {
        var row := if a > 0 then a - 1 else 0;
        var col := if b > 0 then b - 1 else 0;
        cursorRow := if row < rows then row else rows - 1;
        cursorCol := if col < cols then col else cols - 1;
      }
    }

    method EraseDisplay(a: int)
      requires Valid() && a >= 0
      modifies this`cursorRow, this`cursorCol, this`dirtyTop, this`dirtyBottom, grid
      ensures View() == WithCsi(old(View()), [a], ED)
    {
      hide RowCleared, RowsCleared;
      if a == 2 || a == 3 {
        ClearAll();
      } else if a == 0 {
        ClearRow(cursorRow, cursorCol);
        ClearRows(cursorRow + 1, rows);
      } else if a == 1 {
        ClearRows(0, cursorRow);
        ClearRow(cursorRow, 0);
      }
    }

    method EraseLine(a: int)
      requires Valid() && a >= 0
      modifies this`dirtyTop, this`dirtyBottom, grid
      ensures View() == WithCsi(old(View()), [a], EL)
    {
      if a == 0 {
        ClearRow(cursorRow, cursorCol);
      } else if a == 1 {
        EraseLineStart();
      } else if a == 2 {
        ClearRow(cursorRow, 0);
      }
    }

    method EraseLineStart()
      requires Valid()
      modifies this`dirtyTop, this`dirtyBottom, grid
      ensures View() == LineStartCleared(old(View()))
    {
      BlankLineStart();
      forall i, j | 0 <= i < MAX_ROWS && 0 <= j < MAX_COLS
        ensures Cells()[i][j] == var was := CellAt(old(View()).grid, i, j);
                if i == cursorRow && j <= cursorCol && j < cols then was.(ch := SPACE) else was
      {
        assert Cells()[i][j] == grid[i, j];
      }
      LineStartIs(old(View()), Cells());
      hide IsGrid, CellAt, LineStartCleared;
      TouchRows(cursorRow, cursorRow + 1);
    }

    static lemma LineStartIs(s: Screen, g: Grid)
      requires IsGrid(s.grid) && IsGrid(g)
      requires forall i, j :: 0 <= i < MAX_ROWS && 0 <= j < MAX_COLS ==>
                 g[i][j] == if i == s.cursorRow && j <= s.cursorCol && j < s.cols
                            then CellAt(s.grid, i, j).(ch := SPACE) else CellAt(s.grid, i, j)
      ensures Touched(s.(grid := g), s.cursorRow, s.cursorRow + 1) == LineStartCleared(s)
    {
      SameGrid(g, LineStartCleared(s).grid);
    }

    /** Spaces up to the cursor, in the colors the cells have. */
    method BlankLineStart()
      requires Allocated() && cursorRow < MAX_ROWS && cols <= MAX_COLS
      modifies grid
      ensures forall i, j :: 0 <= i < MAX_ROWS && 0 <= j < MAX_COLS ==>
                grid[i, j] == if i == cursorRow && j <= cursorCol && j < cols then old(grid[i, j]).(ch := SPACE)
                  else old(grid[i, j])
    {
      var c := 0;
      while c <= cursorCol && c < cols
        invariant 0 <= c
        invariant forall i, j :: 0 <= i < MAX_ROWS && 0 <= j < MAX_COLS ==>
                    grid[i, j] == if i == cursorRow && j < c && j <= cursorCol && j < cols
                      then old(grid[i, j]).(ch := SPACE) else old(grid[i, j])
      {
        grid[cursorRow, c] := grid[cursorRow, c].(ch := SPACE);
        c := c + 1;
      }
    }

    method HandleCsi(final: Byte)
      requires Valid()
      modifies this`cursorRow, this`cursorCol, this`fg, this`bg, this`dirtyTop, this`dirtyBottom, grid
      ensures View() == WithCsi(old(View()), Given(old(View()).parser), final)
    {
      var a := if paramCount > 0 then params[0] else 0;
      var b := if paramCount > 1 then params[1] else 0;
      FirstTwoCount(View(), Given(View().parser), final);
      if final in {CUU, CUD, CUF, CUB, CUP, HVP} {
        MoveCursor(final, a, b);
      } else if final == ED {
        EraseDisplay(a);
      } else if final == EL {
        EraseLine(a);
      } else if final == SGR {
        ApplySgr();
      }
    }

    /** Only the first two parameters matter to the sequences other than SGR. */
    static lemma FirstTwoCount(s: Screen, given: seq<int>, final: Byte)
      requires WellFormed(s) && forall i :: 0 <= i < |given| ==> given[i] >= 0
      ensures var a := if |given| > 0 then given[0] else 0; var b := if |given| > 1 then given[1] else 0;
              (final in {CUU, CUD, CUF, CUB, CUP, HVP} ==> WithCsi(s, given, final) == WithCsi(s, [a, b], final)) &&
              (final == ED || final == EL ==> WithCsi(s, given, final) == WithCsi(s, [a], final))
    {
    }

    /** One byte of the shell's output. */
    method ParserFeed(ch: Byte)
      requires Valid()
      modifies this, grid, params
      ensures View() == Fed(old(View()), ch) && Valid()
    {
      ByteRepaints(View(), ch);
      ghost var before := View();
      match state {
        case Ground =>
          FeedGround(ch);
        case Escape =>
          if ch == BRACKET {
            state := Csi;
            paramCount := 0;
            for i := 0 to MAX_PARAMS
              modifies params
              invariant forall j :: 0 <= j < i ==> params[j] == 0
            {
              params[i] := 0;
            }
            assert params[..] == Zeros();
          } else {
            state := Ground;
          }
        case Csi =>
          FeedCsi(ch);
      }
    }

    method FeedGround(ch: Byte)
      requires Valid() && state == Ground
      modifies this, grid
      ensures View() == Fed(old(View()), ch)
    {
      hide WithSpaces, WithChar, OnNextRow;
      if ch == ESC {
        state := Escape;
      } else if ch == 10 {
        Newline();
      } else if ch == 13 {
        cursorCol := 0;
      } else if ch == 8 {
        if cursorCol > 0 {
          cursorCol := cursorCol - 1;
        }
      } else if ch == 9 {
        Tabulate();
      } else if ch == 7 {
        // The bell is ignored.
      } else if ch >= 32 {
        PutChar(ch);
      }
    }

    method FeedCsi(ch: Byte)
      requires Valid() && state == Csi
      modifies this, grid, params
      ensures View() == Fed(old(View()), ch)
    {
      if ZERO <= ch <= NINE {
        if paramCount == 0 {
          paramCount := 1;
        }
        params[paramCount - 1] := params[paramCount - 1] * 10 + (ch - ZERO);
      } else if ch == SEMICOLON {
        if paramCount < MAX_PARAMS {
          paramCount := paramCount + 1;
        }
        params[paramCount - 1] := 0;
      } else if ch == QUESTION {
        // A '?' changes nothing.
      } else if 0x40 <= ch <= 0x7E {
        HandleCsi(ch);
        state := Ground;
      } else {
        state := Ground;
      }
    }

    /** How many whole cells a window of this size has room for, within the limits. */
    method FitGrid(width: int, height: int, cellWidth: int, lineHeight: int)
      requires Allocated() && cursorRow < MAX_ROWS && rows <= MAX_ROWS && cols <= MAX_COLS && cellWidth > 0 &&
               lineHeight > 0
      requires 0 <= paramCount <= MAX_PARAMS && forall i :: 0 <= i < MAX_PARAMS ==> params[i] >= 0
      modifies this, grid
      ensures View() == Fitted(old(View()), GridSize(height, 12, lineHeight, MAX_ROWS),
              GridSize(width, 12, cellWidth, MAX_COLS))
      ensures Valid()
    {
      var newCols := GridSize(width, 12, cellWidth, MAX_COLS);
      var newRows := GridSize(height, 12, lineHeight, MAX_ROWS);
      ResizeRepaintsAll(View(), newRows, newCols);
      hide Fitted, WellFormed, IsGrid;
      Refit(newRows, newCols);
    }

    method Refit(newRows: nat, newCols: nat)
      requires Allocated() && cursorRow < MAX_ROWS && rows <= MAX_ROWS && cols <= MAX_COLS
      requires 1 <= newRows <= MAX_ROWS && 1 <= newCols <= MAX_COLS
      modifies this`rows, this`cols, this`cursorRow, this`cursorCol, this`dirtyTop, this`dirtyBottom, grid
      ensures View() == Fitted(old(View()), newRows, newCols)
    {
      hide ScrolledIntoView, Widened, CellAt, IsGrid;
      Widen(newRows, newCols);
      cols := newCols;
      ScrollIntoView(newRows);
      rows := newRows;
      if cursorCol > cols {
        cursorCol := cols;
      }
      TouchRows(0, rows);
    }

    method Widen(newRows: nat, newCols: nat)
      requires Allocated() && newRows <= MAX_ROWS && newCols <= MAX_COLS
      modifies grid
      ensures View() == Widened(old(View()), newRows, newCols)
    {
      for r := 0 to newRows
        invariant forall i, j :: 0 <= i < MAX_ROWS && 0 <= j < MAX_COLS ==>
                    grid[i, j] == if i < r && (if i < rows then cols else 0) <= j < newCols then BLANK
                      else old(grid[i, j])
      {
        var first := if r < rows then cols else 0;
        var c := first;
        while c < newCols
          invariant first <= c
          invariant forall i, j :: 0 <= i < MAX_ROWS && 0 <= j < MAX_COLS ==>
                      grid[i, j] == if (i < r && (if i < rows then cols else 0) <= j < newCols) ||
                        (i == r && first <= j < c && j < newCols)
                                    then BLANK else old(grid[i, j])
        {
          grid[r, c] := BLANK;
          c := c + 1;
        }
      }
      SameGrid(Cells(), Widened(old(View()), newRows, newCols).grid);
    }

    method ScrollIntoView(newRows: nat)
      requires Allocated() && cursorRow < MAX_ROWS && cols <= MAX_COLS && 0 < newRows
      modifies this`rows, this`cursorRow, this`dirtyTop, this`dirtyBottom, grid
      ensures View() == ScrolledIntoView(old(View()), newRows)
    {
      hide ScrolledUp;
      while cursorRow >= newRows
        invariant cursorRow < MAX_ROWS
        invariant ScrolledIntoView(old(View()), newRows) == ScrolledIntoView(View(), newRows)
        decreases cursorRow
      {
        ghost var s := View();
        rows := cursorRow + 1;
        ScrollUp();
        cursorRow := cursorRow - 1;
        assert View() == ScrolledOnce(s);
      }
    }
  }
}
