# PyQt-Sudoku main window: board and cell-state rules

This project models the board and cell-state rules of `SudokuMainWindow`, the
main window of a desktop Sudoku game, in Dafny.

The window has two kinds of state:

- **The board.** This is the current puzzle: a 9x9 grid of optional values. It is
  replaced as a whole on a reset and on a new game. In the model it is the field
  `board: seq<seq<Option<int>>>`, which the methods reassign.
- **The cells.** These are 81 text widgets. Each one shows a text, is read-only
  or editable, and has a text colour. They are updated one at a time. In the model
  they are a fixed `array2<CellState>`, indexed by `(row, col)`. A `CellState` is
  the record (text, read-only flag, colour), and the colour is `Black` or `Green`.

The model covers these rules:

- **Cell-text normalisation** (`NormalizeCellText`, a pure function). A text
  longer than one character is cut to its first character. Anything that is then
  not one of "1".."9" clears the cell. The result is always cleared or exactly
  one digit 1-9. Normalisation is idempotent.
- **Validation of a cell** (`ValidateCellText`). A read-only cell is left alone.
  An editable cell gets its normalised text and stays editable and black. No other
  cell changes, and the board does not change.
- **Visiting every cell** (`AllCellPositions`). This is the sequence of positions
  that the window's cell iterator yields: 81 positions in strictly increasing
  row-major order, covering every cell exactly once.
- **Reset** (`ResetBoard`). All 81 board entries become absent, and every cell
  becomes cleared, editable and black.
- **New game** (`CreateNewGame`). The generated board is installed. Every given
  digit is shown in a read-only green cell. Every other cell stays cleared,
  editable and black from the reset. The digit a cell shows can be read back as
  exactly the board value at its position.

The puzzle generator is an external library called with a random seed. In the
model its output is the parameter `puzzle` of `CreateNewGame`. The only thing
required of it is what the library provides: a 9x9 grid whose entries are absent
or a digit 1-9 (`IsPuzzleBoard`).

Validation only updates the cell widget (src/pyqt_sudoku/sudoku_main_win.py:137);
it never writes into `board`. `ValidateCellText` modifies only the cells, and its
contract states `board == old(board)`.

## Model

| member | source | states |
|---|---|---|
| SudokuMainWin.ValidCellValuesAreDigits | src/pyqt_sudoku/sudoku_main_win.py:23-33 | a text is in the constant `ValidCellValues` (the set "1".."9") exactly when it is one character between '1' and '9' |
| SudokuMainWin.NormalizeCellText | src/pyqt_sudoku/sudoku_main_win.py:132-136 | the result is cleared or exactly one digit 1-9; it is a digit exactly when the text's first character is 1-9 (so "", "0" and "a5" clear); in that case it is that first character, whatever follows ("7xyz" gives "7", "12" gives "1") |
| SudokuMainWin.NormalizeCellTextIdempotent | src/pyqt_sudoku/sudoku_main_win.py:132-137 | normalising the text that normalisation produced gives the same value again |
| SudokuMainWin.WrittenTextIsNormal | src/pyqt_sudoku/sudoku_main_win.py:99-106 | every value the window writes into a cell (cleared, or a valid cell value) is a fixed point of normalisation, so the change handler reconnected after the write would keep it |
| SudokuMainWin.DigitText | src/pyqt_sudoku/sudoku_main_win.py:100-103 | the text written for a digit 1-9 is one of the valid cell values |
| SudokuMainWin.DigitTextRoundTrip | src/pyqt_sudoku/sudoku_main_win.py:100-103 | reading back the text written for digit d gives d, and every valid cell value is the text of the digit it stands for |
| SudokuMainWin.ValidatedCell | src/pyqt_sudoku/sudoku_main_win.py:130-137 | a read-only cell is unchanged; an editable cell stays editable and black, and its text becomes the first character when that is 1-9, or empty otherwise |
| SudokuMainWin.ValidatedCellIdempotent | src/pyqt_sudoku/sudoku_main_win.py:130-137 | validating a cell twice gives the same state as validating it once |
| SudokuMainWin.GameCell | src/pyqt_sudoku/sudoku_main_win.py:55-62 | a position's cell is read-only exactly when the generated value is present, and green exactly then; an absent value leaves the cleared, editable, black cell; the digit the cell shows reads back as the generated value |
| SudokuMainWin.GameCellIsStable | src/pyqt_sudoku/sudoku_main_win.py:130-137 | validating any cell right after a new game leaves it exactly as the new game set it |
| SudokuMainWin.EmptyBoard | src/pyqt_sudoku/sudoku_main_win.py:71 | the reset board is a well-formed 9x9 board with every entry absent |
| SudokuMainWin.PositionsFromCells | src/pyqt_sudoku/sudoku_main_win.py:110-115 | the rows from `row` to 8 yield 9 * (9 - row) positions, and a position is yielded exactly when it is a board cell in one of those rows |
| SudokuMainWin.PositionsFromSorted | src/pyqt_sudoku/sudoku_main_win.py:110-115 | the rows from `row` on are yielded in strictly increasing row-major order |
| SudokuMainWin.AllCellPositions | src/pyqt_sudoku/sudoku_main_win.py:108-115 | the cell iterator yields 81 positions in strictly increasing row-major order; a position is yielded exactly when it is a board cell; no position is yielded twice |
| SudokuMainWin.SudokuMainWindow.constructor | src/pyqt_sudoku/sudoku_main_win.py:35-46 | a new window starts reset: an empty board and every cell cleared, editable and black |
| SudokuMainWin.SudokuMainWindow.SetCellValue | src/pyqt_sudoku/sudoku_main_win.py:75-106 | the cell at (row, col) shows the value's text (empty when cleared), with the given read-only flag and colour; no other cell changes |
| SudokuMainWin.SudokuMainWindow.ResetBoard | src/pyqt_sudoku/sudoku_main_win.py:64-73 | afterwards all 81 board entries are absent and every cell is cleared, editable and black |
| SudokuMainWin.SudokuMainWindow.CreateNewGame | src/pyqt_sudoku/sudoku_main_win.py:48-62 | afterwards the board is the generated puzzle and every cell is in the state GameCell gives for the puzzle's value at its position |
| SudokuMainWin.SudokuMainWindow.ValidateCellText | src/pyqt_sudoku/sudoku_main_win.py:117-137 | the cell becomes ValidatedCell of its old state; every other cell and the board stay unchanged |

## Left out

- Qt plumbing is not modelled: loading the layout file, looking up widgets by name, the button wiring, text alignment and `QColor`. A widget is addressed by its (row, col) position instead.
- The disconnect and reconnect of the text-changed signal around each cell update (lines 93-97 and 106) are not modelled. Each cell update is one atomic step. `WrittenTextIsNormal` shows that the reconnected handler would not change any text the window writes.
- The constructor takes the cell states that the layout file loaded as a parameter. These states are not known from the code, and the reset overwrites them.
- The puzzle generator (`Sudoku(seed=...).difficulty(0.3)`) and `random.randint` are external. Their output is the `puzzle` parameter of `CreateNewGame`. `IsPuzzleBoard` is required of it, which is the generator's own guarantee.
- SudokuMainWin.DigitText: it converts only the digits 1-9, not every integer as Python's `str` does. It is only called on generated values, which the generator keeps within 1-9.
- The colour constant `RED` is defined but never used, so the colour type has only `Black` and `Green`.
- src/pyqt_sudoku/sudoku_app.py is not modelled. It only launches the application and runs the event loop.
- The code has no hints, no checking against a solution, no stored solution board, no retry for puzzles with several solutions, no choice of difficulty (it is fixed at 0.3) and no timer, so none of these are modelled.
