/** What output looks like on the terminal's screen (terminal/src/main.cpp): which cell each byte and each control
    sequence changes, and to what. */
module Typing {
  import opened Bytes
  import opened Screens
  import opened Sequences

  /** Everything is as before but the cells, the cursor and the dirty range. */
  ghost predicate OnlyCells(s: Screen, t: Screen) {
    t.rows == s.rows && t.cols == s.cols && t.fg == s.fg && t.bg == s.bg && t.parser == s.parser
  }

  ghost predicate SameCells(s: Screen, t: Screen) {
    forall r, c :: CellAt(t.grid, r, c) == CellAt(s.grid, r, c)
  }

  // ---- printing --------------------------------------------------------------------------------

  /** A printable byte appears in the cell under the cursor in the current colours; the cursor moves one column on,
      and no other cell changes. */
  lemma BytePrinted(s: Screen, ch: Byte)
    requires WellFormed(s) && s.parser.state == Ground && ch >= 32 && s.cursorCol < s.cols
    ensures var t := Fed(s, ch);
            OnlyCells(s, t) && t.cursorRow == s.cursorRow && t.cursorCol == s.cursorCol + 1 &&
            forall r, c :: CellAt(t.grid, r, c) ==
              if r == s.cursorRow && c == s.cursorCol then Cell(ch, s.fg, s.bg) else CellAt(s.grid, r, c)
  {
  }

  /** Its row, and no other, is added to the rows that are to be painted again. */
  lemma ByteMarksItsRow(s: Screen, ch: Byte)
    requires WellFormed(s) && s.parser.state == Ground && ch >= 32 && s.cursorCol < s.cols
    ensures var t := Fed(s, ch);
            if s.dirtyTop >= s.dirtyBottom then t.dirtyTop == s.cursorRow && t.dirtyBottom == s.cursorRow + 1
            else t.dirtyTop == (if s.cursorRow < s.dirtyTop then s.cursorRow else s.dirtyTop) &&
                 t.dirtyBottom == if s.cursorRow >= s.dirtyBottom then s.cursorRow + 1 else s.dirtyBottom
  {
  }

  /** Behind the last column it appears at the start of the next row. */
  lemma ByteWraps(s: Screen, ch: Byte)
    requires WellFormed(s) && s.parser.state == Ground && ch >= 32 && s.cursorCol == s.cols && s.cursorRow + 1 < s.rows
    ensures var t := Fed(s, ch);
            OnlyCells(s, t) && t.cursorRow == s.cursorRow + 1 && t.cursorCol == 1 &&
            forall r, c :: CellAt(t.grid, r, c) ==
              if r == s.cursorRow + 1 && c == 0 then Cell(ch, s.fg, s.bg) else CellAt(s.grid, r, c)
  {
  }

  /** Behind the last column of the last row every row moves up by one, and it appears at the start of a last row that
      is blank in the current colours. */
  lemma ByteScrolls(s: Screen, ch: Byte)
    requires WellFormed(s) && s.parser.state == Ground && ch >= 32 && s.cursorCol == s.cols && s.cursorRow + 1 == s.rows
    ensures var t := Fed(s, ch);
            OnlyCells(s, t) && t.cursorRow == s.cursorRow && t.cursorCol == 1 &&
            forall r, c :: 0 <= r < s.rows && 0 <= c < s.cols ==>
              CellAt(t.grid, r, c) ==
                if r + 1 < s.rows then CellAt(s.grid, r + 1, c)
                else if c == 0 then Cell(ch, s.fg, s.bg) else Cell(32, s.fg, s.bg)
  {
    hide CellAt, RowsMoved, RowCleared, CellPut;
    var home := s.(cursorCol := 0);
    ScrolledCells(home);
    PutCells(ScrolledUp(home), ch);
  }

  lemma PutCells(s: Screen, ch: Byte)
    requires IsGrid(s.grid) && s.cursorRow < MAX_ROWS && s.cursorCol < MAX_COLS
    ensures var t := CellPut(s, ch);
            OnlyCells(s, t) && t.cursorRow == s.cursorRow && t.cursorCol == s.cursorCol + 1
    ensures forall r, c :: CellAt(CellPut(s, ch).grid, r, c) ==
              if r == s.cursorRow && c == s.cursorCol then Cell(ch, s.fg, s.bg) else CellAt(s.grid, r, c)
  {
  }

  /** A scroll moves every row up by one and blanks the last, in the current colours. */
  lemma ScrolledCells(s: Screen)
    requires WellFormed(s)
    ensures SameButCells(s, ScrolledUp(s)) && IsGrid(ScrolledUp(s).grid)
    ensures forall r, c :: 0 <= r < s.rows && 0 <= c < s.cols ==>
              CellAt(ScrolledUp(s).grid, r, c) ==
                if r + 1 < s.rows then CellAt(s.grid, r + 1, c) else Cell(32, s.fg, s.bg)
  {
    hide RowsMoved;
    ScrollingRepaints(s);
    forall r, c | 0 <= r < s.rows && 0 <= c < s.cols
      ensures CellAt(ScrolledUp(s).grid, r, c) ==
              if r + 1 < s.rows then CellAt(s.grid, r + 1, c) else Cell(32, s.fg, s.bg)
    {
      if r + 1 < s.rows {
        ScrollMovesRow(s, r, c);
      } else {
        LastRowBlank(RowsMoved(s), s.rows - 1, c);
        RowsMovedKeeps(s);
      }
    }
  }

  lemma LastRowBlank(s: Screen, row: nat, c: nat)
    requires row < MAX_ROWS && c < s.cols && c < MAX_COLS
    ensures CellAt(RowCleared(s, row, 0).grid, row, c) == Cell(32, s.fg, s.bg)
  {
  }

  lemma RowsMovedKeeps(s: Screen)
    ensures RowsMoved(s) == s.(grid := RowsMoved(s).grid)
  {
  }

  /** The place of a cell, and of the cursor, counted row by row. */
  function Place(r: int, c: int, cols: nat): int { r * cols + c }

  lemma PlaceIsOne(r: int, c: int, r': int, c': int, cols: nat)
    requires 0 <= c < cols && 0 <= c' < cols
    ensures Place(r, c, cols) == Place(r', c', cols) <==> r == r' && c == c'
  {
    if r < r' {
      RowsApart(r, r', cols);
    } else if r' < r {
      RowsApart(r', r, cols);
    }
  }

  lemma RowsApart(r: int, r': int, cols: nat)
    requires r < r'
    ensures r * cols + cols <= r' * cols
  {
    var d := r' - r - 1;
    assert r' * cols == (r + 1) * cols + d * cols;
    assert (r + 1) * cols == r * cols + cols;
  }

  /** Text that ends on the screen fills the cells from the cursor on, row by row, in the current colours; the
      cursor stands behind it, and no other cell changes. */
  lemma {:induction false} TextFlows(s: Screen, text: seq<Byte>)
    requires WellFormed(s) && s.parser.state == Ground && forall i :: 0 <= i < |text| ==> text[i] >= 32
    requires Place(s.cursorRow, s.cursorCol, s.cols) + |text| <= s.rows * s.cols
    ensures var t := FedAll(s, text); var start := Place(s.cursorRow, s.cursorCol, s.cols);
            OnlyCells(s, t) && Place(t.cursorRow, t.cursorCol, t.cols) == start + |text| &&
            (s.cursorCol + |text| <= s.cols ==> t.cursorRow == s.cursorRow) &&
            forall r, c :: 0 <= r && 0 <= c < s.cols ==>
              CellAt(t.grid, r, c) ==
                if start <= Place(r, c, s.cols) < start + |text|
                then Cell(text[Place(r, c, s.cols) - start], s.fg, s.bg) else CellAt(s.grid, r, c)
    decreases |text|
  {
    hide Fed, CellAt, Place, WellFormed;
    if text != [] {
      var init, last := text[..|text| - 1], text[|text| - 1];
      TextFlows(s, init);
      NextByte(s, FedAll(s, init), init, last);
    }
  }

  lemma NextByte(s: Screen, t: Screen, init: seq<Byte>, ch: Byte)
    requires WellFormed(s) && WellFormed(t) && OnlyCells(s, t) && t.parser.state == Ground && ch >= 32
    requires Place(t.cursorRow, t.cursorCol, t.cols) == Place(s.cursorRow, s.cursorCol, s.cols) + |init| <
             s.rows * s.cols
    requires s.cursorCol + |init| <= s.cols ==> t.cursorRow == s.cursorRow
    ensures var u := Fed(t, ch);
            OnlyCells(s, u) && Place(u.cursorRow, u.cursorCol, u.cols) == Place(t.cursorRow, t.cursorCol, t.cols) + 1 &&
            (s.cursorCol + |init| + 1 <= s.cols ==> u.cursorRow == s.cursorRow) &&
            forall r, c :: 0 <= r && 0 <= c < s.cols ==>
              CellAt(u.grid, r, c) ==
                if Place(r, c, s.cols) == Place(t.cursorRow, t.cursorCol, t.cols) then Cell(ch, s.fg, s.bg)
                else CellAt(t.grid, r, c)
  {
    hide Fed, CellAt, Place, WellFormed;
    CursorInside(t);
    PlaceIn(t);
    PlaceIn(s);
    if t.cursorCol < t.cols {
      BytePrinted(t, ch);
      PlaceAfter(t.cursorRow, t.cursorCol, t.cols);
      forall r, c | 0 <= r && 0 <= c < s.cols
        ensures Place(r, c, s.cols) == Place(t.cursorRow, t.cursorCol, t.cols) <==> r == t.cursorRow && c == t.cursorCol
      {
        PlaceIsOne(r, c, t.cursorRow, t.cursorCol, s.cols);
      }
    } else {
      NextRowExists(t);
      ByteWraps(t, ch);
      NextRowPlace(t.cursorRow, t.cols);
      PlaceAfter(t.cursorRow + 1, 0, t.cols);
      forall r, c | 0 <= r && 0 <= c < s.cols
        ensures Place(r, c, s.cols) == Place(t.cursorRow, t.cursorCol, t.cols) <==> r == t.cursorRow + 1 && c == 0
      {
        PlaceIsOne(r, c, t.cursorRow + 1, 0, s.cols);
      }
    }
  }

  lemma CursorInside(s: Screen)
    requires WellFormed(s)
    ensures 0 < s.cols && s.cursorRow < s.rows && s.cursorCol <= s.cols
  {
  }

  lemma PlaceIn(s: Screen)
    ensures Place(s.cursorRow, s.cursorCol, s.cols) == s.cursorRow * s.cols + s.cursorCol
  {
  }

  lemma PlaceAfter(r: int, c: int, cols: nat)
    ensures Place(r, c + 1, cols) == Place(r, c, cols) + 1
  {
  }

  lemma NextRowPlace(r: int, cols: nat)
    ensures Place(r, cols, cols) == Place(r + 1, 0, cols)
  {
    assert (r + 1) * cols == r * cols + cols;
  }

  lemma NextRowExists(s: Screen)
    requires WellFormed(s) && s.cursorCol == s.cols && Place(s.cursorRow, s.cursorCol, s.cols) < s.rows * s.cols
    ensures s.cursorRow + 1 < s.rows
  {
    assert (s.cursorRow + 1) * s.cols == s.cursorRow * s.cols + s.cols;
  }

  // ---- control characters ----------------------------------------------------------------------

  /** Line feed: down a row in the same column, or on the last row a scroll under the cursor. */
  lemma LineFeedMoves(s: Screen)
    requires WellFormed(s) && s.parser.state == Ground
    ensures var t := Fed(s, 10);
            OnlyCells(s, t) && t.cursorCol == s.cursorCol &&
            (s.cursorRow + 1 < s.rows ==> t.cursorRow == s.cursorRow + 1 && SameCells(s, t)) &&
            (s.cursorRow + 1 == s.rows ==>
               t.cursorRow == s.cursorRow &&
               forall r, c :: 0 <= r < s.rows && 0 <= c < s.cols ==>
                 CellAt(t.grid, r, c) == if r + 1 < s.rows then CellAt(s.grid, r + 1, c) else Cell(32, s.fg, s.bg))
  {
    hide ScrolledUp, CellAt;
    ScrolledCells(s);
  }

  /** Return and backspace move the cursor within its row, bell and the other control characters do nothing. */
  lemma ControlMoves(s: Screen, ch: Byte)
    requires WellFormed(s) && s.parser.state == Ground && ch < 32 && ch != 10 && ch != 9 && ch != 0x1B
    ensures Fed(s, ch) ==
            if ch == 13 then s.(cursorCol := 0)
            else if ch == 8 && s.cursorCol > 0 then s.(cursorCol := s.cursorCol - 1)
            else s
  {
  }

  /** Tab: spaces in the current colours up to the next multiple of eight, or to the end of the row; behind the last
      column nothing. */
  lemma TabFills(s: Screen)
    requires WellFormed(s) && s.parser.state == Ground
    ensures var t := Fed(s, 9); var stop := (s.cursorCol / 8 + 1) * 8;
            var end := if stop < s.cols then stop else s.cols;
            OnlyCells(s, t) && t.cursorRow == s.cursorRow && t.cursorCol == end &&
            forall r, c :: CellAt(t.grid, r, c) ==
              if r == s.cursorRow && s.cursorCol <= c < end then Cell(32, s.fg, s.bg) else CellAt(s.grid, r, c)
  {
    hide WithSpaces, CellAt;
    SpacesFill(s, (s.cursorCol + 8) / 8 * 8);
  }

  lemma {:induction false} SpacesFill(s: Screen, stop: nat)
    requires WellFormed(s) && s.cursorCol <= stop
    ensures var t := WithSpaces(s, stop); var end := if stop < s.cols then stop else s.cols;
            OnlyCells(s, t) && t.cursorRow == s.cursorRow && t.cursorCol == end &&
            forall r, c :: CellAt(t.grid, r, c) ==
              if r == s.cursorRow && s.cursorCol <= c < end then Cell(32, s.fg, s.bg) else CellAt(s.grid, r, c)
    decreases stop - s.cursorCol
  {
    hide CellAt, WithChar;
    if s.cursorCol < stop && s.cursorCol < s.cols {
      SpacePut(s);
      CharRepaints(s, SPACE);
      SpacesFill(WithChar(s, SPACE), stop);
    }
  }

  lemma SpacePut(s: Screen)
    requires WellFormed(s) && s.cursorCol < s.cols
    ensures var t := WithChar(s, SPACE);
            OnlyCells(s, t) && t.cursorRow == s.cursorRow && t.cursorCol == s.cursorCol + 1 &&
            forall r, c :: CellAt(t.grid, r, c) ==
              if r == s.cursorRow && c == s.cursorCol then Cell(32, s.fg, s.bg) else CellAt(s.grid, r, c)
  {
  }

  // ---- control sequences -----------------------------------------------------------------------

  /** A number is printed in decimal, most significant digit first. */
  lemma DecimalDigits(n: nat, d: nat)
    requires d < 10
    ensures Digits(d) == [48 + d] && (n > 0 ==> Digits(n * 10 + d) == Digits(n) + [48 + d])
  {
  }

  /** A sequence with one parameter is fed as what it stands for. */
  lemma OneParameterFed(s: Screen, n: nat, final: Byte)
    requires WellFormed(s) && s.parser.state == Ground && 0x40 <= final <= 0x7E
    ensures var t := FedAll(s, Printed([Number(n)], final));
            t == WithCsi(s, [n], final).(parser := t.parser) && t.parser.state == Ground
  {
    hide FedAll, WithCsi, Printed, ParsedAll;
    SequenceFed(s, [Number(n)], final);
    assert Values(Kept([Number(n)])) == [n];
  }

  /** A sequence is ESC, a bracket, its parameters with semicolons between them, and its final byte. */
  lemma PrintedForm(params: seq<Param>, last: Param, final: Byte)
    ensures Printed([], final) == [0x1B, 0x5B, final]
    ensures Printed([last], final) == [0x1B, 0x5B] + PrintedParam(last) + [final]
    ensures params != [] ==>
              Printed(params + [last], final) ==
              [0x1B, 0x5B] + (PrintedParams(params) + [0x3B] + PrintedParam(last)) + [final]
  {
    var all := params + [last];
    assert all[..|all| - 1] == params;
  }

  /** What no sequence is made of: an escape before anything but a bracket, and a byte that is no part of a sequence,
      are dropped with what they end; a question mark is passed over. */
  lemma StrayBytes(s: Screen, ch: Byte)
    requires WellFormed(s)
    ensures s.parser.state == Ground && ch == 0x1B ==> Fed(s, ch) == s.(parser := s.parser.(state := Escape))
    ensures s.parser.state == Escape && ch != 0x5B ==> Fed(s, ch) == s.(parser := s.parser.(state := Ground))
    ensures s.parser.state == Csi && ch == 0x3F ==> Fed(s, ch) == s
    ensures s.parser.state == Csi && (ch < 0x30 || ch == 0x3A || 0x3C <= ch <= 0x3E || ch > 0x7E) ==>
              Fed(s, ch) == s.(parser := s.parser.(state := Ground))
  {
  }

  /** A sequence of any other kind changes nothing on the screen. */
  lemma OtherSequences(s: Screen, params: seq<Param>, final: Byte)
    requires WellFormed(s) && s.parser.state == Ground && 1 <= |params| <= 8 && 0x40 <= final <= 0x7E
    requires final !in {0x41, 0x42, 0x43, 0x44, 0x48, 0x66, 0x4A, 0x4B, 0x6D}
    ensures var t := FedAll(s, Printed(params, final)); t == s.(parser := t.parser) && t.parser.state == Ground
  {
    hide FedAll, Printed, ParsedAll, RowCleared, RowsCleared, LineStartCleared, SgrAll, CellAt, IsGrid;
    SequenceFed(s, params, final);
  }

  /** ESC [ n A: up by n, by one if n is 0, as far as the screen goes. */
  lemma CursorUp(s: Screen, n: nat)
    requires WellFormed(s) && s.parser.state == Ground
    ensures var step, t := if n == 0 then 1 else n, FedAll(s, Printed([Number(n)], 0x41));
            t == s.(cursorRow := if s.cursorRow < step then 0 else s.cursorRow - step, parser := t.parser)
  {
    hide FedAll, Printed, RowCleared, RowsCleared, LineStartCleared, SgrAll, CellAt, IsGrid;
    OneParameterFed(s, n, 0x41);
  }

  /** ESC [ n B: the same downward. */
  lemma CursorDown(s: Screen, n: nat)
    requires WellFormed(s) && s.parser.state == Ground
    ensures var step, t := if n == 0 then 1 else n, FedAll(s, Printed([Number(n)], 0x42));
            t == s.(cursorRow := if s.cursorRow + step >= s.rows then s.rows - 1 else s.cursorRow + step,
                    parser := t.parser)
  {
    hide FedAll, Printed, RowCleared, RowsCleared, LineStartCleared, SgrAll, CellAt, IsGrid;
    OneParameterFed(s, n, 0x42);
  }

  /** ESC [ n C: the same to the right. */
  lemma CursorRight(s: Screen, n: nat)
    requires WellFormed(s) && s.parser.state == Ground
    ensures var step, t := if n == 0 then 1 else n, FedAll(s, Printed([Number(n)], 0x43));
            t == s.(cursorCol := if s.cursorCol + step >= s.cols then s.cols - 1 else s.cursorCol + step,
                    parser := t.parser)
  {
    hide FedAll, Printed, RowCleared, RowsCleared, LineStartCleared, SgrAll, CellAt, IsGrid;
    OneParameterFed(s, n, 0x43);
  }

  /** ESC [ n D: the same to the left. */
  lemma CursorLeft(s: Screen, n: nat)
    requires WellFormed(s) && s.parser.state == Ground
    ensures var step, t := if n == 0 then 1 else n, FedAll(s, Printed([Number(n)], 0x44));
            t == s.(cursorCol := if s.cursorCol < step then 0 else s.cursorCol - step, parser := t.parser)
  {
    hide FedAll, Printed, RowCleared, RowsCleared, LineStartCleared, SgrAll, CellAt, IsGrid;
    OneParameterFed(s, n, 0x44);
  }

  lemma RowClearedCells(s: Screen, row: nat, from: nat)
    requires IsGrid(s.grid) && row < MAX_ROWS && s.cols <= MAX_COLS
    ensures var t := RowCleared(s, row, from);
            SameButCells(s, t) && IsGrid(t.grid) &&
            forall r, c :: CellAt(t.grid, r, c) ==
              if r == row && from <= c < s.cols then Cell(32, s.fg, s.bg) else CellAt(s.grid, r, c)
  {
  }

  lemma {:induction false} RowsClearedCells(s: Screen, row: nat, end: nat)
    requires IsGrid(s.grid) && row <= end <= MAX_ROWS && s.cols <= MAX_COLS
    ensures var t := RowsCleared(s, row, end);
            IsGrid(t.grid) &&
            forall r, c :: CellAt(t.grid, r, c) ==
              if row <= r < end && 0 <= c < s.cols then Cell(32, s.fg, s.bg) else CellAt(s.grid, r, c)
    decreases end - row
  {
    hide RowCleared, CellAt, IsGrid;
    if row < end {
      RowsClearedCells(s, row, end - 1);
      RowClearedCells(RowsCleared(s, row, end - 1), end - 1, 0);
    }
  }

  /** ESC [ n J blanks, in the current colours, the cells from the cursor on for 0, all rows down to the cursor's whole
      row for 1, and everything for 2 and 3, which also bring the cursor home; no other cell changes. */
  lemma DisplayErased(s: Screen, n: nat)
    requires WellFormed(s) && s.parser.state == Ground
    ensures var t := FedAll(s, Printed([Number(n)], 0x4A));
            t.rows == s.rows && t.cols == s.cols && t.fg == s.fg && t.bg == s.bg &&
            t.cursorRow == (if n == 2 || n == 3 then 0 else s.cursorRow) &&
            t.cursorCol == (if n == 2 || n == 3 then 0 else s.cursorCol) &&
            forall r, c :: CellAt(t.grid, r, c) ==
              if 0 <= r < s.rows && 0 <= c < s.cols &&
                 ((n == 0 && (r > s.cursorRow || (r == s.cursorRow && c >= s.cursorCol))) ||
                  (n == 1 && r <= s.cursorRow) || n == 2 || n == 3)
              then Cell(32, s.fg, s.bg) else CellAt(s.grid, r, c)
  {
    hide FedAll, Printed, RowCleared, RowsCleared, CellAt;
    OneParameterFed(s, n, 0x4A);
    if n == 0 {
      RowClearedCells(s, s.cursorRow, s.cursorCol);
      RowsClearedCells(RowCleared(s, s.cursorRow, s.cursorCol), s.cursorRow + 1, s.rows);
    } else if n == 1 {
      RowsClearedCells(s, 0, s.cursorRow);
      RowClearedCells(RowsCleared(s, 0, s.cursorRow), s.cursorRow, 0);
    } else if n == 2 || n == 3 {
      RowsClearedCells(s, 0, s.rows);
    }
  }

  /** ESC [ n K blanks the cursor's row from the cursor on for 0 and all of it for 2, in the current colours; for 1 the
      cells up to and with the cursor's lose their characters and keep their colours. */
  lemma LineErased(s: Screen, n: nat)
    requires WellFormed(s) && s.parser.state == Ground
    ensures var t := FedAll(s, Printed([Number(n)], 0x4B));
            SameButCells(s.(parser := t.parser), t) &&
            forall r, c :: CellAt(t.grid, r, c) ==
              if r != s.cursorRow || !(0 <= c < s.cols) then CellAt(s.grid, r, c)
              else if (n == 0 && c >= s.cursorCol) || n == 2 then Cell(32, s.fg, s.bg)
              else if n == 1 && c <= s.cursorCol then Cell(32, CellAt(s.grid, r, c).fg, CellAt(s.grid, r, c).bg)
              else CellAt(s.grid, r, c)
  {
    hide FedAll, Printed, RowCleared, LineStartCleared, CellAt;
    OneParameterFed(s, n, 0x4B);
    RowClearedCells(s, s.cursorRow, s.cursorCol);
    RowClearedCells(s, s.cursorRow, 0);
    LineStartCells(s);
  }

  lemma LineStartCells(s: Screen)
    requires WellFormed(s)
    ensures var t := LineStartCleared(s);
            SameButCells(s, t) &&
            forall r, c :: CellAt(t.grid, r, c) ==
              if r == s.cursorRow && 0 <= c <= s.cursorCol && c < s.cols
              then Cell(32, CellAt(s.grid, r, c).fg, CellAt(s.grid, r, c).bg) else CellAt(s.grid, r, c)
  {
  }

  // ---- colours ---------------------------------------------------------------------------------

  /** The code says something about the letters' colour, or about the background's. */
  predicate ForLetters(code: int) { code == 0 || code == 39 || 30 <= code <= 37 || 90 <= code <= 97 }

  predicate ForBackground(code: int) { code == 0 || code == 49 || 40 <= code <= 47 || 100 <= code <= 107 }

  /** Of the codes of ESC [ ... m the last one that speaks of a colour decides it; without one it stays. */
  lemma {:induction false} LastCodeDecides(s: Screen, codes: seq<int>, j: int)
    requires -1 <= j < |codes|
    ensures (forall k :: j < k < |codes| ==> !ForLetters(codes[k])) && (j >= 0 ==> ForLetters(codes[j])) ==>
              SgrAll(s, codes).fg ==
                if j < 0 then s.fg
                else if codes[j] == 0 || codes[j] == 39 then DefaultFg
                else if codes[j] <= 37 then Ansi(codes[j] - 30) else Ansi(codes[j] - 82)
    ensures (forall k :: j < k < |codes| ==> !ForBackground(codes[k])) && (j >= 0 ==> ForBackground(codes[j])) ==>
              SgrAll(s, codes).bg ==
                if j < 0 then s.bg
                else if codes[j] == 0 || codes[j] == 49 then DefaultBg
                else if codes[j] <= 47 then Ansi(codes[j] - 40) else Ansi(codes[j] - 92)
    decreases |codes|
  {
    if codes != [] && j < |codes| - 1 {
      var init, last := codes[..|codes| - 1], codes[|codes| - 1];
      LastCodeDecides(s, init, j);
      assert forall k :: 0 <= k < |init| ==> init[k] == codes[k];
    }
  }

  /** After ESC [ codes m a printed byte has the colours the codes leave; the sequence itself changes no cell and does
      not move the cursor. */
  lemma PrintedInColour(s: Screen, codes: seq<Param>, ch: Byte)
    requires WellFormed(s) && s.parser.state == Ground && 1 <= |codes| <= MAX_PARAMS && codes[0] != Empty
    requires ch >= 32 && s.cursorCol < s.cols
    ensures var t := FedAll(s, Printed(codes, 0x6D));
            SameCells(s, t) && t.cursorRow == s.cursorRow && t.cursorCol == s.cursorCol && t.parser.state == Ground &&
            CellAt(Fed(t, ch).grid, s.cursorRow, s.cursorCol) ==
              Cell(ch, SgrAll(s, Values(codes)).fg, SgrAll(s, Values(codes)).bg)
  {
    hide FedAll, Printed, CellAt, SgrAll, Fed;
    SequenceFed(s, codes, 0x6D);
    SgrKeepsScreen(s, Values(codes));
    var t := FedAll(s, Printed(codes, 0x6D));
    BytePrinted(t, ch);
  }

  /** ESC [ m brings the default colours back. */
  lemma ColoursReset(s: Screen)
    requires WellFormed(s) && s.parser.state == Ground
    ensures var t := FedAll(s, Printed([Empty], 0x6D)); t == s.(fg := DefaultFg, bg := DefaultBg, parser := t.parser)
  {
    hide FedAll, Printed;
    SequenceFed(s, [Empty], 0x6D);
    assert Kept([Empty]) == [];
  }

  /** A window of this size shows as many cells as fit between its paddings, at least one and at most the limit. */
  lemma CellsThatFit(extent: int, padding: int, unit: int, limit: nat)
    requires unit > 0 && limit > 0
    ensures var n := GridSize(extent, padding, unit, limit);
            (n < limit ==> extent - 2 * padding < (n + 1) * unit) && (n > 1 ==> n * unit <= extent - 2 * padding) &&
            1 <= n <= limit
  {
    var room := extent - padding * 2;
    if room >= 0 {
      assert room / unit * unit <= room < (room / unit + 1) * unit;
      if limit <= room / unit {
        assert limit * unit <= room / unit * unit;
      }
      if room / unit < 1 {
        assert room < unit;
      }
    }
  }
}
