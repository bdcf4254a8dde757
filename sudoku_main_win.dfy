/**
 * The board and cell-state rules of the Sudoku main window.
 *
 * A cell widget is abstracted as a CellState record (its text, its read-only
 * flag and its text colour) addressed by (row, col). The window keeps the
 * current puzzle as a 9x9 board of optional digits, which it replaces as a
 * whole on reset and on a new game, and a fixed 9x9 grid of cell widgets,
 * which it updates one cell at a time.
 */
module SudokuMainWin {

  datatype Option<T> = None | Some(value: T)

  /** The text colours the window gives to its cells. */
  datatype Color = Black | Green

  /** What a cell widget shows and whether the user may type into it. */
  datatype CellState = CellState(text: string, readOnly: bool, color: Color)

  /** A board: rows of optional cell values. */
  type Board = seq<seq<Option<int>>>

  // ---------------------------------------------------------------------------
  // Cell text
  // ---------------------------------------------------------------------------

  /** The only texts a cell may keep after validation. */
  const ValidCellValues: set<string> := {"1", "2", "3", "4", "5", "6", "7", "8", "9"}

  predicate IsDigitChar(ch: char) {
    '1' <= ch <= '9'
  }

  /** The set of valid cell texts is exactly the one-character digit strings 1-9. */
  lemma ValidCellValuesAreDigits(s: string)
    ensures s in ValidCellValues <==> |s| == 1 && IsDigitChar(s[0])
  {
    if |s| == 1 && IsDigitChar(s[0]) {
      assert s == [s[0]];
      var ch := s[0];
      assert ch == '1' || ch == '2' || ch == '3' || ch == '4' || ch == '5'
          || ch == '6' || ch == '7' || ch == '8' || ch == '9';
    }
  }

  /**
   * The text a cell shows after it was given `value`: nothing when the value
   * is absent (the cell is cleared), otherwise the value's text.
   */
  function TextOf(value: Option<string>): string {
    match value
    case None => ""
    case Some(s) => s
  }

  /**
   * The normalisation of a cell's text: a text longer than one character is
   * cut to its first character, and anything that is then not a digit 1-9
   * clears the cell (None).
   */
  function NormalizeCellText(text: string): (r: Option<string>)
    ensures r.Some? ==> |r.value| == 1 && IsDigitChar(r.value[0])
    ensures r.Some? <==> |text| > 0 && IsDigitChar(text[0])
    ensures r.Some? ==> r.value == [text[0]]
  {
    var first := if |text| > 1 then text[..1] else text;
    ValidCellValuesAreDigits(first);
    if first in ValidCellValues then Some(first) else None
  }

  /** Normalising a text that normalisation produced changes nothing. */
  lemma NormalizeCellTextIdempotent(text: string)
    ensures NormalizeCellText(TextOf(NormalizeCellText(text))) == NormalizeCellText(text)
  {
  }

  /**
   * Every value the window ever writes into a cell (cleared, or a text from
   * ValidCellValues) is already in normal form, so the change handler that is
   * reconnected after the write would leave it as it is.
   */
  lemma WrittenTextIsNormal(value: Option<string>)
    requires value.None? || value.value in ValidCellValues
    ensures NormalizeCellText(TextOf(value)) == value
  {
  }

  /** The text of a digit 1-9, as the window writes it into a given cell. */
  function DigitText(d: int): (s: string)
    requires 1 <= d <= 9
    ensures s in ValidCellValues
  {
    var s := [('0' as int + d) as char];
    ValidCellValuesAreDigits(s);
    s
  }

  /** The digit 1-9 a cell text stands for, or None when it stands for none. */
  function CellDigit(s: string): (d: Option<int>)
    ensures d.Some? <==> s in ValidCellValues
    ensures d.Some? ==> 1 <= d.value <= 9
  {
    ValidCellValuesAreDigits(s);
    if s in ValidCellValues then Some(s[0] as int - '0' as int) else None
  }

  /** Writing a digit and reading it back gives the digit, and conversely. */
  lemma DigitTextRoundTrip(d: int, s: string)
    requires 1 <= d <= 9
    ensures CellDigit(DigitText(d)) == Some(d)
    ensures s in ValidCellValues ==> DigitText(CellDigit(s).value) == s
  {
  }

  // ---------------------------------------------------------------------------
  // Cell states
  // ---------------------------------------------------------------------------

  /** A cleared, editable, black cell: the state every cell gets on reset. */
  const ClearedCell: CellState := CellState("", false, Black)

  /**
   * The state of a cell after its text was validated: a read-only cell is
   * left alone; an editable one gets its normalised text and stays editable
   * and black.
   */
  function ValidatedCell(cell: CellState): (r: CellState)
    ensures cell.readOnly ==> r == cell
    ensures !cell.readOnly ==> !r.readOnly && r.color == Black
    ensures !cell.readOnly ==> (r.text == "" || r.text in ValidCellValues)
    ensures !cell.readOnly && |cell.text| > 0 && IsDigitChar(cell.text[0]) ==> r.text == [cell.text[0]]
    ensures !cell.readOnly && (|cell.text| == 0 || !IsDigitChar(cell.text[0])) ==> r == ClearedCell
  {
    if cell.readOnly then cell
    else
      var normalized := NormalizeCellText(cell.text);
      ValidCellValuesAreDigits(TextOf(normalized));
      CellState(TextOf(normalized), false, Black)
  }

  /** Validating a cell twice is the same as validating it once. */
  lemma ValidatedCellIdempotent(cell: CellState)
    ensures ValidatedCell(ValidatedCell(cell)) == ValidatedCell(cell)
  {
  }

  /**
   * The state a new game gives the cell at a position holding `value`: a
   * given digit becomes a read-only green cell showing the digit; an empty
   * position keeps the cleared state of the reset.
   */
  function GameCell(value: Option<int>): (r: CellState)
    requires value.None? || 1 <= value.value <= 9
    ensures r.readOnly <==> value.Some?
    ensures r.color == Green <==> value.Some?
    ensures value.None? ==> r == ClearedCell
    ensures CellDigit(r.text) == value
  {
    match value
    case None => ClearedCell
    case Some(d) =>
      DigitTextRoundTrip(d, DigitText(d));
      CellState(DigitText(d), true, Green)
  }

  /** After a new game, validating any cell leaves it exactly as the new game set it. */
  lemma GameCellIsStable(value: Option<int>)
    requires value.None? || 1 <= value.value <= 9
    ensures ValidatedCell(GameCell(value)) == GameCell(value)
  {
  }

  // ---------------------------------------------------------------------------
  // Boards
  // ---------------------------------------------------------------------------

  /** A 9x9 board whose entries are absent or a digit 1-9, as the puzzle generator produces. */
  predicate IsPuzzleBoard(b: Board) {
    |b| == 9 &&
    forall r :: 0 <= r < 9 ==>
      |b[r]| == 9 && forall c :: 0 <= c < 9 ==> b[r][c].None? || 1 <= b[r][c].value <= 9
  }

  /** The 9x9 board with no value anywhere. */
  function EmptyBoard(): (b: Board)
    ensures IsPuzzleBoard(b)
    ensures forall r, c :: 0 <= r < 9 && 0 <= c < 9 ==> b[r][c] == None
  {
    seq(9, _ => seq(9, _ => None))
  }

  // ---------------------------------------------------------------------------
  // Visiting every cell
  // ---------------------------------------------------------------------------

  /** The positions (row, 0), (row, 1), ..., (row, 8) of one row, left to right. */
  function RowPositions(row: int): seq<(int, int)> {
    seq(9, col => (row, col))
  }

  /** The positions of rows row, row + 1, ..., 8, each row from left to right. */
  function PositionsFrom(row: int): seq<(int, int)>
    decreases 9 - row
  {
    if row >= 9 then [] else RowPositions(row) + PositionsFrom(row + 1)
  }

  /**
   * The positions of all cells in the order the window visits them: 81
   * positions in strictly increasing row-major order; every visited position
   * lies on the board and every cell of the board is visited exactly once.
   */
  function AllCellPositions(): (order: seq<(int, int)>)
    ensures |order| == 81
    ensures forall i, j :: 0 <= i < j < |order| ==> Before(order[i], order[j])
    ensures forall p :: p in order <==> 0 <= p.0 < 9 && 0 <= p.1 < 9
    ensures forall i, j :: 0 <= i < j < |order| ==> order[i] != order[j]
  {
    PositionsFromCells(0);
    PositionsFromSorted(0);
    PositionsFrom(0)
  }

  /** Row-major position order: (r1, c1) comes strictly before (r2, c2). */
  predicate Before(p: (int, int), q: (int, int)) {
    p.0 < q.0 || (p.0 == q.0 && p.1 < q.1)
  }

  /** Rows row..8 are visited as 9 * (9 - row) positions: exactly the board cells in those rows. */
  lemma {:induction false} PositionsFromCells(row: int)
    requires 0 <= row <= 9
    ensures |PositionsFrom(row)| == 9 * (9 - row)
    ensures forall p :: p in PositionsFrom(row) <==> row <= p.0 < 9 && 0 <= p.1 < 9
    decreases 9 - row
  {
    if row < 9 {
      PositionsFromCells(row + 1);
      var head, rest := RowPositions(row), PositionsFrom(row + 1);
      assert PositionsFrom(row) == head + rest;
      forall p: (int, int)
        ensures p in head + rest <==> row <= p.0 < 9 && 0 <= p.1 < 9
      {
        if p.0 == row && 0 <= p.1 < 9 {
          assert head[p.1] == p;
        }
      }
    }
  }

  /** Every position visited for rows row..8 lies in one of those rows. */
  lemma PositionsFromRowBound(row: int)
    requires 0 <= row <= 9
    ensures forall k :: 0 <= k < |PositionsFrom(row)| ==> row <= PositionsFrom(row)[k].0
  {
    PositionsFromCells(row);
    var all := PositionsFrom(row);
    forall k | 0 <= k < |all|
      ensures row <= all[k].0
    {
      assert all[k] in all;
    }
  }

  /** Positions in strictly increasing row-major order. */
  predicate RowMajorSorted(s: seq<(int, int)>) {
    forall i, j :: 0 <= i < j < |s| ==> Before(s[i], s[j])
  }

  /** A sorted row followed by sorted later rows is sorted. */
  lemma ConcatRowMajorSorted(head: seq<(int, int)>, rest: seq<(int, int)>, row: int)
    requires RowMajorSorted(head) && RowMajorSorted(rest)
    requires forall k :: 0 <= k < |head| ==> head[k].0 == row
    requires forall k :: 0 <= k < |rest| ==> row < rest[k].0
    ensures RowMajorSorted(head + rest)
  {
  }

  /** Rows row..8 are visited in strictly increasing row-major order. */
  lemma {:induction false} PositionsFromSorted(row: int)
    requires 0 <= row <= 9
    ensures RowMajorSorted(PositionsFrom(row))
    decreases 9 - row
  {
    if row < 9 {
      PositionsFromRowBound(row + 1);
      PositionsFromSorted(row + 1);
      ConcatRowMajorSorted(RowPositions(row), PositionsFrom(row + 1), row);
      assert PositionsFrom(row) == RowPositions(row) + PositionsFrom(row + 1);
    }
  }

  // ---------------------------------------------------------------------------
  // The window
  // ---------------------------------------------------------------------------

  class SudokuMainWindow {
    /** The current puzzle, replaced as a whole on reset and on a new game. */
    var board: Board
    /** The 9x9 cell widgets, indexed by (row, col). */
    const cells: array2<CellState>

    /** The cell widgets form a 9x9 grid. */
    ghost predicate Valid()
      reads this
    {
      cells.Length0 == 9 && cells.Length1 == 9
    }

    /** The state a reset leaves: no value on the board and every cell cleared. */
    ghost predicate IsCleared()
      reads this, cells
    {
      Valid() &&
      board == EmptyBoard() &&
      forall r, c :: 0 <= r < 9 && 0 <= c < 9 ==> cells[r, c] == ClearedCell
    }

    /** The state a new game with puzzle `puzzle` leaves. */
    ghost predicate ShowsPuzzle(puzzle: Board)
      requires IsPuzzleBoard(puzzle)
      reads this, cells
    {
      Valid() &&
      board == puzzle &&
      forall r, c :: 0 <= r < 9 && 0 <= c < 9 ==> cells[r, c] == GameCell(puzzle[r][c])
    }

    /**
     * Part way through a new game: the cells before (row, col) in row-major
     * order show `puzzle`, the others are still cleared.
     */
    ghost predicate ShowsPuzzleBefore(puzzle: Board, row: int, col: int)
      requires IsPuzzleBoard(puzzle)
      reads this, cells
    {
      Valid() &&
      forall r, c :: 0 <= r < 9 && 0 <= c < 9 ==>
        cells[r, c] == if r < row || (r == row && c < col) then GameCell(puzzle[r][c]) else ClearedCell
    }

    /**
     * Creates the window over the cell widgets as the layout loaded them
     * (`loaded`) and resets the board.
     */
    constructor (loaded: seq<seq<CellState>>)
      requires |loaded| == 9 && forall r :: 0 <= r < 9 ==> |loaded[r]| == 9
      ensures Valid() && IsCleared()
      ensures fresh(cells)
    {
      cells := new CellState[9, 9]((r, c) requires 0 <= r < 9 && 0 <= c < 9 => loaded[r][c]);
      board := [];
      new;
      ResetBoard();
    }

    /**
     * Sets the cell at (row, col) to show `value` (cleared when absent) in
     * `color`, read-only or not; no other cell and not the board change.
     */
    method SetCellValue(row: int, col: int, value: Option<string>, readOnly: bool, color: Color)
      requires Valid()
      requires 0 <= row < 9 && 0 <= col < 9
      modifies cells
      ensures Valid()
      ensures cells[row, col] == CellState(TextOf(value), readOnly, color)
      ensures forall r, c :: 0 <= r < 9 && 0 <= c < 9 && (r, c) != (row, col) ==> cells[r, c] == old(cells[r, c])
    {
      cells[row, col] := CellState(TextOf(value), readOnly, color);
    }

    /** Empties the board and clears every cell to editable and black. */
    method ResetBoard()
      requires Valid()
      modifies this, cells
      ensures Valid() && IsCleared()
    {
      board := EmptyBoard();
      var order := AllCellPositions();
      for i := 0 to |order|
        invariant board == EmptyBoard()
        invariant forall k :: 0 <= k < i ==> cells[order[k].0, order[k].1] == ClearedCell
      {
        var (row, col) := order[i];
        assert order[i] in order;
        SetCellValue(row, col, None, false, Black);
      }
      forall r, c | 0 <= r < 9 && 0 <= c < 9
        ensures cells[r, c] == ClearedCell
      {
        assert (r, c) in order;
        var k :| 0 <= k < |order| && order[k] == (r, c);
      }
    }

    /**
     * Starts a new game on the board `puzzle` produced by the generator: the
     * window is reset, the board becomes `puzzle`, and every given digit is
     * shown in a read-only green cell.
     */
    method CreateNewGame(puzzle: Board)
      requires Valid()
      requires IsPuzzleBoard(puzzle)
      modifies this, cells
      ensures Valid() && ShowsPuzzle(puzzle)
    {
      ResetBoard();
      board := puzzle;
      for row := 0 to |board|
        invariant board == puzzle
        invariant ShowsPuzzleBefore(puzzle, row, 0)
      {
        for col := 0 to |board[row]|
          invariant board == puzzle
          invariant ShowsPuzzleBefore(puzzle, row, col)
        {
          var value := board[row][col];
          if value.None? {
            continue;
          }
          SetCellValue(row, col, Some(DigitText(value.value)), true, Green);
        }
      }
    }

    /**
     * Validates the text of the cell at (row, col): a read-only cell is left
     * alone; an editable one gets its normalised text and stays editable and
     * black. The board and every other cell are left unchanged.
     */
    method ValidateCellText(row: int, col: int)
      requires Valid()
      requires 0 <= row < 9 && 0 <= col < 9
      modifies cells
      ensures Valid()
      ensures cells[row, col] == ValidatedCell(old(cells[row, col]))
      ensures forall r, c :: 0 <= r < 9 && 0 <= c < 9 && (r, c) != (row, col) ==> cells[r, c] == old(cells[r, c])
      ensures board == old(board)
    {
      if cells[row, col].readOnly {
        return;
      }
      var text := cells[row, col].text;
      var normalized := NormalizeCellText(text);
      SetCellValue(row, col, normalized, false, Black);
    }
  }
}
