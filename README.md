# Fill-a-Pix solver and grid library in Dafny

This project models the core of a Fill-a-Pix ("Mosaic") puzzle solver written in Java, and proves
properties of that model. A puzzle is a grid of cells. Every cell has a fill (FILLED `#`, EMPTY
space, or X `X`), may carry a clue 0..9, and may be a pixel of the intended picture. The clue of a
cell counts the FILLED cells in its clipped 3 x 3 window.

The model has three layers, each kept in the form the Java code has.

- **Grid library** (`cell.dfy`, `matrix.dfy`, `grid.dfy`, `grid_iterator.dfy`, `grid_lists.dfy`,
  `grid_strings.dfy`, `grid_parse.dfy`). `Cell`, `Matrix`, `Grid`, `GridIterator` and the three
  list views are classes over the heap. A `Grid` is a window with an offset over a shared
  `Matrix`, so `view` and `getSurroundingCells` alias the cells of their parent. The CSV line
  parser, the grid printer and `Grid.fromString` are loops proved against functions.
- **Puzzle values** (`fill.dfy`, `clue.dfy`, `mosaic.dfy`). `Fill` and clue values are datatypes,
  with the one-token text codec and its round trip. `ClueRecord` is the mutable `Clue` object.
  `Mosaic` is a class over a `Grid` of clues: computing clues from pixels, the deep copy, and the
  three text readers.
- **Solver** (`board.dfy`, `deduction.dfy`, `lifecycle.dfy`, `worklist.dfy`, `solver_tree.dfy`,
  `solver_steps.dfy`, `solver.dfy`).
  - `Lifecycle` holds the seven states, the listener registry and event order of
    `AbstractSolveAlgorithm`, and the check that every cell has a clue in reach.
  - `Deduction` is the one rule `takeStepImpl` applies to a clue's window, and the boards of the
    children a stall branches into.
  - `Worklists` covers the worklist, the loopback list and the list iterator.
  - The tree of `RecursionSolver` objects is an arena: the class `Solver.RecursionSolver` holds a
    sequence of nodes, and a solver is known by its index. A child always comes after its parent.
  - `SolverNodes` and `SolverSteps` give, as functions from the arena before to the arena after
    and the exception thrown, what every operation does. This includes the listeners a parent
    registers on each child and the catch blocks of `takeStep`.
  - Every method of the class is proved to perform exactly that function. The properties of the
    solver (the rule is sound, children have fewer EMPTY cells, `step()` never returns RUNNING,
    the tree stays well linked, which exceptions escape) are proved about the functions.

Java exceptions are values of an error datatype (`Result`, `Outcome`) carrying what the exception
carries. Two behaviours of the code worth knowing:

- A stall creates `min(m - (k - F) + 1, m)` children (m EMPTY and F FILLED cells in the window of
  clue k), and throws IndexOutOfBoundsException when more are asked for than there are EMPTY
  cells.
- `cancel()` on a terminated solver throws IllegalStateException from `setState`.

## Model

| member | source | states |
|---|---|---|
| Fills.Symbol | src/com/stackexchange/puzzling/user/mordechai/mosaic/Fill.java:5-16 | Fill.toString is a one-character symbol |
| Fills.ExactlyThreeFills | src/com/stackexchange/puzzling/user/mordechai/mosaic/Fill.java:5 | FILLED, EMPTY and X are the only fill values, and they are distinct |
| Fills.SymbolsDistinct | src/com/stackexchange/puzzling/user/mordechai/mosaic/Fill.java:5-16 | the symbols are "#", " " and "X", and the symbol identifies the fill |
| Clues.DecimalString | src/com/stackexchange/puzzling/user/mordechai/mosaic/Clue.java:73-74 | the digits appended for a clue number: all ASCII digits, and a single digit exactly below 10 that reads back as the number |
| Clues.FromString | src/com/stackexchange/puzzling/user/mordechai/mosaic/Clue.java:83-100 | pixel iff the text holds "*"; FILLED iff it holds "#"; X iff it holds "X" and no "#"; a clue iff the text starts with a digit, and then the clue is that digit's value (0..9), else -1 |
| Clues.ToString | src/com/stackexchange/puzzling/user/mordechai/mosaic/Clue.java:70-81 | the text starts with a digit exactly when clues are printed and the cell has one; it holds "#" (resp. "X") exactly when fills are printed and the fill is FILLED (resp. X); it holds "*" exactly when pixels are printed and the cell is a pixel |
| Clues.Text | src/com/stackexchange/puzzling/user/mordechai/mosaic/Clue.java:65-68 | toString() starts with a digit exactly when the cell has a clue, holds "#" or "X" exactly for those fills, and "*" exactly for a pixel |
| Clues.ToStringRoundTrip | src/com/stackexchange/puzzling/user/mordechai/mosaic/Clue.java:70-100 | parsing toString(fill, clue, pixel) gives back every printed field, and the default for every field left out (clue values -1..9) |
| Clues.TextRoundTrip | src/com/stackexchange/puzzling/user/mordechai/mosaic/Clue.java:65-100 | fromString(toString()) is the identity for clue values -1..9 |
| Clues.ClueRecord.constructor | src/com/stackexchange/puzzling/user/mordechai/mosaic/Clue.java:28-29 | new Clue() is EMPTY, clue -1, not a pixel |
| Clues.ClueRecord.Of | src/com/stackexchange/puzzling/user/mordechai/mosaic/Clue.java:9-13 | new Clue(fill, clue, isPixel) holds exactly those fields |
| Clues.ClueRecord.OfPixel | src/com/stackexchange/puzzling/user/mordechai/mosaic/Clue.java:15-17 | new Clue(isPixel) is the default clue with that pixel flag |
| Clues.ClueRecord.CopyOf | src/com/stackexchange/puzzling/user/mordechai/mosaic/Clue.java:19-26 | the copy constructor copies all three fields, and gives the defaults for null |
| Clues.ClueRecord.Copy | src/com/stackexchange/puzzling/user/mordechai/mosaic/Clue.java:31-33 | copy() is a new object with equal fields |
| Clues.ClueRecord.Merge | src/com/stackexchange/puzzling/user/mordechai/mosaic/Clue.java:35-39 | merge takes over all three fields of the other clue |
| Clues.ClueRecord.SetFill | src/com/stackexchange/puzzling/user/mordechai/mosaic/Clue.java:53-55 | only the fill changes |
| Clues.ClueRecord.SetClue | src/com/stackexchange/puzzling/user/mordechai/mosaic/Clue.java:57-59 | only the clue number changes |
| Clues.ClueRecord.SetIsPixel | src/com/stackexchange/puzzling/user/mordechai/mosaic/Clue.java:61-63 | only the pixel flag changes |
| Cells.Cell.constructor | src/com/stackexchange/puzzling/user/mordechai/grid/Cell.java:8-11 | a new cell has the given coordinates and null data |
| Cells.Cell.GetData | src/com/stackexchange/puzzling/user/mordechai/grid/Cell.java:13-15 | returns the current datum |
| Cells.Cell.SetData | src/com/stackexchange/puzzling/user/mordechai/grid/Cell.java:17-19 | the datum becomes d; the coordinates are constants |
| Cells.Cell.GetX | src/com/stackexchange/puzzling/user/mordechai/grid/Cell.java:21-23 | the column the cell was made at |
| Cells.Cell.GetY | src/com/stackexchange/puzzling/user/mordechai/grid/Cell.java:25-27 | the row the cell was made at |
| Matrices.Matrix.constructor | src/com/stackexchange/puzzling/user/mordechai/grid/Matrix.java:11-21 | width x height fresh cells, cell [x, y] created for (x, y), all holding null |
| Matrices.Matrix.CellAt | src/com/stackexchange/puzzling/user/mordechai/grid/Matrix.java:23-28 | null exactly outside the bounds; otherwise the owned cell created for (x, y) |
| Matrices.Matrix.HasCellAt | src/com/stackexchange/puzzling/user/mordechai/grid/Matrix.java:38-40 | true exactly inside the bounds |
| Matrices.Matrix.CellsDistinct | src/com/stackexchange/puzzling/user/mordechai/grid/Matrix.java:15-20 | distinct positions hold distinct cells, so writing one cell changes no other position |
| Grids.LinearToXY | src/com/stackexchange/puzzling/user/mordechai/grid/Grid.java:162-175 | every index below width * height names a cell, and toLinear(toX(i), toY(i)) == i |
| Grids.XYToLinear | src/com/stackexchange/puzzling/user/mordechai/grid/Grid.java:162-175 | every cell has an index below width * height, and toX/toY recover its coordinates |
| Grids.SurroundingIsNeighbourhood | src/com/stackexchange/puzzling/user/mordechai/grid/Grid.java:235-255 | for a cell of the grid, the window passes view's checks and holds exactly the in-bounds cells at distance at most 1, including the cell itself; it is 1 to 3 cells wide and high |
| Grids.SurroundingAccepted | src/com/stackexchange/puzzling/user/mordechai/grid/Grid.java:235-255 | view accepts the window exactly for 0 <= x <= width and 0 <= y <= height on a non-empty grid; one column past the edge yields a window that misses the point |
| Grids.CountWhere | src/com/stackexchange/puzzling/user/mordechai/grid/Grid.java:197-204 | the number of elements satisfying p is at most the number of elements |
| Grids.CopyGuardAdmitsOverflow | src/com/stackexchange/puzzling/user/mordechai/grid/Grid.java:507-510 | the written size checks let a 2 x 1 copy into a 2 x 1 grid at x offset 1 through, although its last column lands outside the target |
| Grids.CopyGuardsAgreeAtOrigin | src/com/stackexchange/puzzling/user/mordechai/grid/Grid.java:502-521 | every copy that fits passes the written checks, and with zero offsets the written and the needed checks agree |
| Grids.Grid.constructor | src/com/stackexchange/puzzling/user/mordechai/grid/Grid.java:38-40 | new Grid(w, h) owns a fresh w x h matrix of null cells |
| Grids.Grid.ViewOf | src/com/stackexchange/puzzling/user/mordechai/grid/Grid.java:27-36 | the protected constructor: a window at (x, y) onto the given matrix |
| Grids.Grid.CheckRange | src/com/stackexchange/puzzling/user/mordechai/grid/Grid.java:144-153 | passes exactly for 0 <= x < width and 0 <= y < height, else IndexOutOfBoundsException |
| Grids.Grid.CheckLinear | src/com/stackexchange/puzzling/user/mordechai/grid/Grid.java:155-160 | passes exactly for 0 <= i < length, else IndexOutOfBoundsException |
| Grids.Grid.ToX | src/com/stackexchange/puzzling/user/mordechai/grid/Grid.java:162-165 | defined exactly on 0..length-1; the result is a column, i mod width |
| Grids.Grid.ToY | src/com/stackexchange/puzzling/user/mordechai/grid/Grid.java:167-170 | defined exactly on 0..length-1; the result is a row, i div width |
| Grids.Grid.ToLinear | src/com/stackexchange/puzzling/user/mordechai/grid/Grid.java:172-175 | defined exactly on the cells; y * width + x, below length |
| Grids.Grid.LinearRoundTrip | src/com/stackexchange/puzzling/user/mordechai/grid/Grid.java:162-175 | toLinear and toX/toY are inverse bijections between the cells and 0..length-1 |
| Grids.Grid.Get | src/com/stackexchange/puzzling/user/mordechai/grid/Grid.java:72-76 | the datum at (x, y), or IndexOutOfBoundsException exactly outside the grid |
| Grids.Grid.GetLinear | src/com/stackexchange/puzzling/user/mordechai/grid/Grid.java:78-82 | element i of the row-major sequence, or IndexOutOfBoundsException exactly outside 0..length-1 |
| Grids.Grid.Set | src/com/stackexchange/puzzling/user/mordechai/grid/Grid.java:90-104 | inside the grid the one matrix cell behind (x, y) takes the datum and every other matrix cell is unchanged; outside it throws and writes nothing |
| Grids.Grid.SetLinear | src/com/stackexchange/puzzling/user/mordechai/grid/Grid.java:84-88 | the row-major sequence is updated at exactly index i, or nothing changes and it throws |
| Grids.Grid.AllNone | src/com/stackexchange/puzzling/user/mordechai/grid/Grid.java:206-212 | all cells are null, said cell by cell, exactly when all elements are null, said index by index |
| Grids.Grid.View | src/com/stackexchange/puzzling/user/mordechai/grid/Grid.java:218-233 | IllegalArgumentException exactly for a negative origin, a size below 1, or a rectangle past the grid; otherwise a new grid on the same matrix whose (i, j) is this grid's (i + x, j + y) |
| Grids.Grid.SurroundingCells | src/com/stackexchange/puzzling/user/mordechai/grid/Grid.java:235-255 | the view of the clipped 3 x 3 window, sharing storage with the grid |
| Grids.Grid.Count | src/com/stackexchange/puzzling/user/mordechai/grid/Grid.java:197-204 | the number of row-major elements satisfying p, at most length |
| Grids.Grid.Fill | src/com/stackexchange/puzzling/user/mordechai/grid/Grid.java:189-195 | every cell (x, y) becomes filler(x, y, old value), and the rest of the shared matrix is unchanged |
| Grids.Grid.Clear | src/com/stackexchange/puzzling/user/mordechai/grid/Grid.java:214-216 | every cell of the grid becomes null, and nothing outside it changes |
| Grids.Grid.IsEmpty | src/com/stackexchange/puzzling/user/mordechai/grid/Grid.java:206-212 | true exactly when every cell is null |
| Grids.Grid.Branch | src/com/stackexchange/puzzling/user/mordechai/grid/Grid.java:257-267 | a new grid of the same size with its own storage, whose (x, y) is copier(old (x, y)) |
| Grids.Grid.CopyTo | src/com/stackexchange/puzzling/user/mordechai/grid/Grid.java:502-517 | IllegalArgumentException for a negative offset; otherwise it succeeds exactly when the copy fits, and then target (x + xOffset, y + yOffset) takes this (x, y) and every other target cell is unchanged |
| Grids.Grid.ToGridString | src/com/stackexchange/puzzling/user/mordechai/grid/Grid.java:356-369 | the cell texts in row-major order, the delimiter between two cells of a row, a newline between rows, nothing after the last cell |
| GridStrings.PrintedStep | src/com/stackexchange/puzzling/user/mordechai/grid/Grid.java:360-366 | one more turn of the printing loop appends the cell's text and then the delimiter inside a row, a newline at a row end before the last row, and nothing after the last cell |
| GridStrings.PrintedIsGridText | src/com/stackexchange/puzzling/user/mordechai/grid/Grid.java:356-369 | what the printing loop builds is the rows joined by newlines, each row's cell texts joined by the delimiter |
| GridStrings.LeadingReturns | src/com/stackexchange/puzzling/user/mordechai/grid/Grid.java:447-451 | the carriage returns skipped before the first character: all of them are '\r' and the next character is not |
| GridStrings.ParseLineAsCsv | src/com/stackexchange/puzzling/user/mordechai/grid/Grid.java:443-496 | the character loop with its inquotes and started flags computes ParseCsv |
| GridStrings.CsvRunCountsFields | src/com/stackexchange/puzzling/user/mordechai/grid/Grid.java:459-489 | reading stores one field per comma outside quotes |
| GridStrings.CsvFieldCount | src/com/stackexchange/puzzling/user/mordechai/grid/Grid.java:443-496 | null exactly for a line of carriage returns only (or nothing); otherwise one field more than there are commas outside quotes |
| GridStrings.CsvPlainLine | src/com/stackexchange/puzzling/user/mordechai/grid/Grid.java:443-496 | a line without quotes or newline: the fields are the pieces between the commas, carriage returns dropped |
| GridStrings.CsvNewlineEnds | src/com/stackexchange/puzzling/user/mordechai/grid/Grid.java:481-484 | a newline outside quotes ends the line: whatever follows it is ignored |
| GridStrings.CsvRunNewline | src/com/stackexchange/puzzling/user/mordechai/grid/Grid.java:481-484 | reading a newline outside quotes stops the reader with the state unchanged |
| GridStrings.CsvRunQuoted | src/com/stackexchange/puzzling/user/mordechai/grid/Grid.java:460-466 | inside quotes every character but a quote, commas and line breaks included, is appended to the field |
| GridStrings.CsvQuotedField | src/com/stackexchange/puzzling/user/mordechai/grid/Grid.java:460-474 | a quoted field keeps its text whole, and a doubled quote inside it reads as one quote |
| GridStrings.SplitLines | src/com/stackexchange/puzzling/user/mordechai/grid/Grid.java:387 | str.split("\\r?\\n", -1) gives one line more than there are line feeds |
| GridStrings.SplitChars | src/com/stackexchange/puzzling/user/mordechai/grid/Grid.java:396 | line.split("") gives one token per character, and the single token "" for an empty line |
| GridParsing.FromLines | src/com/stackexchange/puzzling/user/mordechai/grid/Grid.java:413-438 | NullPointerException exactly when the tokenizer returns null for a line; null when no line has a token; otherwise a new grid with a row per line and a column per token of the longest line, holding the mapped tokens and null past the end of each line |
| GridParsing.ReadLines | src/com/stackexchange/puzzling/user/mordechai/grid/Grid.java:422-435 | the loop over the lines stops at the first null token list, and otherwise leaves every line written |
| GridParsing.PutLine | src/com/stackexchange/puzzling/user/mordechai/grid/Grid.java:424-434 | one pass of the inner loop leaves the grid holding one more line, as wide as the longest line so far |
| GridParsing.Reserve | src/com/stackexchange/puzzling/user/mordechai/grid/Grid.java:425-432 | a new grid on the first token, a wider copy for a longer line, otherwise the same grid; cells already written keep their data |
| GridParsing.Widen | src/com/stackexchange/puzzling/user/mordechai/grid/Grid.java:427-431 | new Grid then copyTo: a wider grid with the old cells in place and null in the new columns |
| GridParsing.FromString | src/com/stackexchange/puzzling/user/mordechai/grid/Grid.java:413-438 | FromLines over the lines of str.split("\\r?\\n", -1) |
| GridIterators.NextIgnoresWrapping | src/com/stackexchange/puzzling/user/mordechai/grid/GridIterator.java:253-264 | next() never wraps, and it throws exactly when hasNext() is false |
| GridIterators.EdgeMoves | src/com/stackexchange/puzzling/user/mordechai/grid/GridIterator.java:100-142 | without wrapping each of up/right/down/left throws exactly at its edge; with wrapping right from the row end goes to column 0 and down from the column end to row 0 |
| GridIterators.StepsStayInside | src/com/stackexchange/puzzling/user/mordechai/grid/GridIterator.java:100-203 | from a cell of the grid every step that does not throw lands on a cell of the grid, except the moves that go one past the last column or row |
| GridIterators.FirstNext | src/com/stackexchange/puzzling/user/mordechai/grid/GridIterator.java:8-9 | starting before the grid, the first next() lands on (0, 0) in either order |
| GridIterators.HasNextUnlessLast | src/com/stackexchange/puzzling/user/mordechai/grid/GridIterator.java:75-77 | the cell at row-major index k has a successor exactly when k is not the last index |
| GridIterators.RowMajorStep | src/com/stackexchange/puzzling/user/mordechai/grid/GridIterator.java:255-258 | one next() by row takes the cell at index k - 1 to the cell at index k |
| GridIterators.RowMajorWalk | src/com/stackexchange/puzzling/user/mordechai/grid/GridIterator.java:253-264 | by row, the (k+1)-th next() lands on (k % w, k / w), and hasNext() is false exactly after the last cell |
| GridIterators.RowMajorVisitsEachCellOnce | src/com/stackexchange/puzzling/user/mordechai/grid/GridIterator.java:253-264 | by row, every cell is reached, at the next() numbered by its linear index, and distinct calls reach distinct cells |
| GridIterators.RowMajorEnds | src/com/stackexchange/puzzling/user/mordechai/grid/GridIterator.java:253-264 | after w * h calls by row, the next next() throws |
| GridIterators.ColumnWalkIsTransposedRowWalk | src/com/stackexchange/puzzling/user/mordechai/grid/GridIterator.java:253-264 | the walk by column over w x h is the transpose of the walk by row over h x w |
| GridIterators.ColumnMajorWalk | src/com/stackexchange/puzzling/user/mordechai/grid/GridIterator.java:259-263 | by column, the (k+1)-th next() lands on (k / h, k % h), and hasNext() is false exactly after the last cell |
| GridIterators.GridIterator.constructor | src/com/stackexchange/puzzling/user/mordechai/grid/GridIterator.java:16-20 | the cursor starts at (-1, -1) on the given grid, with the given order and wrapping flags |
| GridIterators.GridIterator.Of | src/com/stackexchange/puzzling/user/mordechai/grid/GridIterator.java:22-24 | the one-argument constructor is by row, without wrapping |
| GridIterators.GridIterator.HasNext | src/com/stackexchange/puzzling/user/mordechai/grid/GridIterator.java:75-77 | true exactly when there is a column to the right or a row below |
| GridIterators.GridIterator.HasPrevious | src/com/stackexchange/puzzling/user/mordechai/grid/GridIterator.java:79-81 | true exactly when there is a column to the left or a row above |
| GridIterators.GridIterator.IsRowEnd | src/com/stackexchange/puzzling/user/mordechai/grid/GridIterator.java:62-64 | true exactly when x is at or past the last column |
| GridIterators.GridIterator.IsColumnEnd | src/com/stackexchange/puzzling/user/mordechai/grid/GridIterator.java:70-72 | true exactly when y is at or past the last row |
| GridIterators.GridIterator.Get | src/com/stackexchange/puzzling/user/mordechai/grid/GridIterator.java:83-98 | a coordinate still at -1 is bumped to 0, then the data of the cell under the cursor, or NullPointer when the cursor is outside the grid and cellAt gives null |
| GridIterators.GridIterator.Set | src/com/stackexchange/puzzling/user/mordechai/grid/GridIterator.java:87-89 | bumps the cursor like getCell(), writes the cell under it when it is in range and fails otherwise; no other cell changes |
| GridIterators.GridIterator.Go | src/com/stackexchange/puzzling/user/mordechai/grid/GridIterator.java:100-276 | every move leaves the cursor and the result as the move function says: unchanged and NoSuchElement when the move throws, otherwise at the new position with its data |
| GridIterators.GridIterator.MoveUp | src/com/stackexchange/puzzling/user/mordechai/grid/GridIterator.java:100-109 | y - 1 when there is a row above; otherwise columnEnd() when wrapping, else NoSuchElement with the cursor unchanged |
| GridIterators.GridIterator.MoveRight | src/com/stackexchange/puzzling/user/mordechai/grid/GridIterator.java:111-120 | x + 1 when there is a column to the right; otherwise rowStart() when wrapping, else NoSuchElement |
| GridIterators.GridIterator.MoveDown | src/com/stackexchange/puzzling/user/mordechai/grid/GridIterator.java:122-131 | y + 1 when there is a row below; otherwise columnStart() when wrapping, else NoSuchElement |
| GridIterators.GridIterator.MoveLeft | src/com/stackexchange/puzzling/user/mordechai/grid/GridIterator.java:133-142 | x - 1 when there is a column to the left; otherwise rowEnd() when wrapping, else NoSuchElement |
| GridIterators.GridIterator.MoveNextRow | src/com/stackexchange/puzzling/user/mordechai/grid/GridIterator.java:144-153 | to (0, y + 1) when there is a row below, otherwise NoSuchElement |
| GridIterators.GridIterator.MovePreviousRow | src/com/stackexchange/puzzling/user/mordechai/grid/GridIterator.java:155-163 | to (0, y - 1) when there is a row above, otherwise NoSuchElement |
| GridIterators.GridIterator.MovePreviousRowEnd | src/com/stackexchange/puzzling/user/mordechai/grid/GridIterator.java:165-173 | to (width, y - 1) when there is a row above, otherwise NoSuchElement |
| GridIterators.GridIterator.MoveNextColumn | src/com/stackexchange/puzzling/user/mordechai/grid/GridIterator.java:175-183 | to (x + 1, 0) when there is a column to the right, otherwise NoSuchElement |
| GridIterators.GridIterator.MovePreviousColumn | src/com/stackexchange/puzzling/user/mordechai/grid/GridIterator.java:185-193 | to (x - 1, 0) when there is a column to the left, otherwise NoSuchElement |
| GridIterators.GridIterator.MovePreviousColumnEnd | src/com/stackexchange/puzzling/user/mordechai/grid/GridIterator.java:195-203 | to (x - 1, height) when there is a column to the left, otherwise NoSuchElement |
| GridIterators.GridIterator.MoveRowEnd | src/com/stackexchange/puzzling/user/mordechai/grid/GridIterator.java:205-208 | x becomes the width, then get() |
| GridIterators.GridIterator.MoveRowStart | src/com/stackexchange/puzzling/user/mordechai/grid/GridIterator.java:210-213 | x becomes 0, then get() |
| GridIterators.GridIterator.MoveColumnEnd | src/com/stackexchange/puzzling/user/mordechai/grid/GridIterator.java:215-218 | y becomes the height, then get() |
| GridIterators.GridIterator.MoveColumnStart | src/com/stackexchange/puzzling/user/mordechai/grid/GridIterator.java:220-223 | y becomes 0, then get() |
| GridIterators.GridIterator.Jump | src/com/stackexchange/puzzling/user/mordechai/grid/GridIterator.java:225-235 | moves to (x, y) and returns its data when it is in the grid; otherwise IndexOutOfBounds and the cursor is unchanged |
| GridIterators.GridIterator.JumpRow | src/com/stackexchange/puzzling/user/mordechai/grid/GridIterator.java:237-239 | jump to row y in the current column |
| GridIterators.GridIterator.JumpColumn | src/com/stackexchange/puzzling/user/mordechai/grid/GridIterator.java:241-243 | jump to column x in the current row |
| GridIterators.GridIterator.Next | src/com/stackexchange/puzzling/user/mordechai/grid/GridIterator.java:253-264 | NoSuchElement when there is no next cell; otherwise one step by row (right, or the start of the next row) or by column (down, or the top of the next column) |
| GridIterators.GridIterator.Previous | src/com/stackexchange/puzzling/user/mordechai/grid/GridIterator.java:266-276 | NoSuchElement when there is no previous cell; otherwise one step back by row (left, or the end of the previous row) or by column (up, or the end of the previous column) |
| GridIterators.GridIterator.SetByRow | src/com/stackexchange/puzzling/user/mordechai/grid/GridIterator.java:282-284 | sets the order flag and nothing else |
| GridIterators.GridIterator.SetWrapping | src/com/stackexchange/puzzling/user/mordechai/grid/GridIterator.java:290-292 | sets the wrapping flag and nothing else |
| GridLists.ScanEmptyMeaning | src/com/stackexchange/puzzling/user/mordechai/grid/ColumnList.java:39-46 | a loop to a bound over get(i) answers false at the first non-null element, throws when the bound passes the list's end, and otherwise answers true |
| GridLists.ScanEmptyOverAll | src/com/stackexchange/puzzling/user/mordechai/grid/RowList.java:41-48 | with the list's length as the bound the loop answers "every element is null" |
| GridLists.Cleared | src/com/stackexchange/puzzling/user/mordechai/grid/ColumnList.java:33-37 | a clear loop to a bound leaves the elements below the bound null and the rest untouched |
| GridLists.ColumnLoopBoundMisses | src/com/stackexchange/puzzling/user/mordechai/grid/ColumnList.java:33-46 | on a 1 x 2 grid the width-bounded loops report a non-empty column as empty and leave its second cell set; on a 3 x 2 grid isEmpty throws |
| GridLists.ClearedOverAll | src/com/stackexchange/puzzling/user/mordechai/grid/RowList.java:33-38 | with the list's length as the bound, every element is cleared |
| GridLists.GridList.constructor | src/com/stackexchange/puzzling/user/mordechai/grid/GridList.java:9-11 | a view over the given grid |
| GridLists.GridList.Get | src/com/stackexchange/puzzling/user/mordechai/grid/GridList.java:13-16 | the row-major element at the index, or IndexOutOfBounds exactly when the index is outside the grid |
| GridLists.GridList.Size | src/com/stackexchange/puzzling/user/mordechai/grid/GridList.java:18-21 | the number of elements, width * height |
| GridLists.GridList.Set | src/com/stackexchange/puzzling/user/mordechai/grid/GridList.java:23-29 | returns the old element and writes the new one at that index only; an index outside the grid fails and changes nothing |
| GridLists.GridList.Clear | src/com/stackexchange/puzzling/user/mordechai/grid/GridList.java:31-34 | every element becomes null |
| GridLists.GridList.IsEmpty | src/com/stackexchange/puzzling/user/mordechai/grid/GridList.java:36-39 | true exactly when every element is null |
| GridLists.RowList.constructor | src/com/stackexchange/puzzling/user/mordechai/grid/RowList.java:10-13 | a view of row y of the given grid |
| GridLists.RowList.Get | src/com/stackexchange/puzzling/user/mordechai/grid/RowList.java:15-18 | element x of the row, failing exactly outside the row |
| GridLists.RowList.SizeAsWritten | src/com/stackexchange/puzzling/user/mordechai/grid/RowList.java:20-23 | size() returns the grid height, which is the row's length exactly when the grid is square |
| GridLists.RowList.Size | src/com/stackexchange/puzzling/user/mordechai/grid/RowList.java:20-23 | the length of the row |
| GridLists.RowList.Set | src/com/stackexchange/puzzling/user/mordechai/grid/RowList.java:25-31 | returns the old element and writes (x, y) only |
| GridLists.RowList.Clear | src/com/stackexchange/puzzling/user/mordechai/grid/RowList.java:33-38 | every cell of the row becomes null and no other row changes |
| GridLists.RowList.IsEmpty | src/com/stackexchange/puzzling/user/mordechai/grid/RowList.java:40-48 | true exactly when every cell of the row is null |
| GridLists.ColumnList.constructor | src/com/stackexchange/puzzling/user/mordechai/grid/ColumnList.java:10-13 | a view of column x of the given grid |
| GridLists.ColumnList.Get | src/com/stackexchange/puzzling/user/mordechai/grid/ColumnList.java:15-18 | element y of the column, failing exactly outside the column |
| GridLists.ColumnList.Size | src/com/stackexchange/puzzling/user/mordechai/grid/ColumnList.java:20-23 | the length of the column, the grid height |
| GridLists.ColumnList.Set | src/com/stackexchange/puzzling/user/mordechai/grid/ColumnList.java:25-31 | returns the old element and writes (x, y) only |
| GridLists.ColumnList.ClearAsWritten | src/com/stackexchange/puzzling/user/mordechai/grid/ColumnList.java:33-37 | the loop runs to the grid width: it clears only the cells above that bound, and throws exactly when the grid is wider than high; other columns are unchanged |
| GridLists.ColumnList.Clear | src/com/stackexchange/puzzling/user/mordechai/grid/ColumnList.java:33-37 | every cell of the column becomes null and no other column changes |
| GridLists.ColumnList.IsEmptyAsWritten | src/com/stackexchange/puzzling/user/mordechai/grid/ColumnList.java:39-46 | the loop runs to the grid width, with the outcome ScanEmptyMeaning describes |
| GridLists.ColumnList.IsEmpty | src/com/stackexchange/puzzling/user/mordechai/grid/ColumnList.java:39-46 | true exactly when every cell of the column is null |
| Boards.Window | src/com/stackexchange/puzzling/user/mordechai/grid/Grid.java:235-255 | the surrounding view of an in-grid cell has 1 to 9 cells, every one of them inside the grid |
| Boards.WindowMembers | src/com/stackexchange/puzzling/user/mordechai/grid/Grid.java:235-255 | a cell of the grid is in the surrounding view of (x, y) exactly when it is at most one step away in each direction |
| Boards.WindowDistinct | src/com/stackexchange/puzzling/user/mordechai/grid/Grid.java:235-255 | no cell occurs twice in a surrounding view |
| Boards.WindowHoldsCentre | src/com/stackexchange/puzzling/user/mordechai/grid/Grid.java:235-255 | the surrounding view of a cell holds the cell itself |
| Boards.FillCountsPartition | src/com/stackexchange/puzzling/user/mordechai/mosaic/solvers/RecursionSolver.java:214-216 | the FILLED, X and EMPTY counts over a view add up to its length |
| Boards.CountZero | src/com/stackexchange/puzzling/user/mordechai/mosaic/solvers/RecursionSolver.java:246 | a count is zero exactly when no element matches |
| Boards.PaintedCounts | src/com/stackexchange/puzzling/user/mordechai/mosaic/solvers/RecursionSolver.java:228-244 | painting the EMPTY cells of a view with FILLED or X leaves no EMPTY cell there, adds them to that fill's count and keeps the third count |
| Deduction.RuleContradiction | src/com/stackexchange/puzzling/user/mordechai/mosaic/solvers/RecursionSolver.java:218-226 | the step throws a contradiction exactly when the clue is below the FILLED count or above the FILLED plus EMPTY count |
| Deduction.RuleFills | src/com/stackexchange/puzzling/user/mordechai/mosaic/solvers/RecursionSolver.java:228-235 | when FILLED plus EMPTY equals the clue, every EMPTY cell of the view becomes FILLED, nothing else changes, and the clue is solved |
| Deduction.RuleCrosses | src/com/stackexchange/puzzling/user/mordechai/mosaic/solvers/RecursionSolver.java:237-244 | when FILLED equals the clue, every EMPTY cell of the view becomes X, nothing else changes, and the clue is solved |
| Deduction.RuleStalls | src/com/stackexchange/puzzling/user/mordechai/mosaic/solvers/RecursionSolver.java:228-246 | otherwise the board is unchanged and the clue stays unsolved |
| Deduction.RuleSolved | src/com/stackexchange/puzzling/user/mordechai/mosaic/solvers/RecursionSolver.java:228-246 | a step marks its clue solved exactly when the view had no EMPTY cell or the rule decided them all, and it reports a change exactly when the board changed |
| Deduction.RuleSound | src/com/stackexchange/puzzling/user/mordechai/mosaic/solvers/RecursionSolver.java:218-246 | every completion of the view that has exactly the clue's FILLED cells agrees with every cell the rule decided |
| Deduction.CompletionCounts | src/com/stackexchange/puzzling/user/mordechai/mosaic/solvers/RecursionSolver.java:218-226 | a completion has between F and F + E FILLED cells |
| Deduction.PaintWindow | src/com/stackexchange/puzzling/user/mordechai/mosaic/solvers/RecursionSolver.java:229-243 | the paint loop over the view leaves the board Painted describes |
| Deduction.EmptyPositions | src/com/stackexchange/puzzling/user/mordechai/mosaic/solvers/RecursionSolver.java:306-313 | the strictly increasing positions of exactly the EMPTY cells of the view; there are as many as the EMPTY count |
| Deduction.ListEmpties | src/com/stackexchange/puzzling/user/mordechai/mosaic/solvers/RecursionSolver.java:306-313 | the loop builds exactly EmptyPositions |
| Deduction.MakeChild | src/com/stackexchange/puzzling/user/mordechai/mosaic/solvers/RecursionSolver.java:317-328 | child i's board: EMPTY cells 0 .. i - 1 of the view crossed out, EMPTY cell i filled, the rest copied |
| Deduction.ChildShape | src/com/stackexchange/puzzling/user/mordechai/mosaic/solvers/RecursionSolver.java:315-330 | child i decides exactly i + 1 EMPTY cells of the view, keeps every cell outside the view, and has fewer EMPTY cells than its parent |
| Mosaics.PixelsAround | src/com/stackexchange/puzzling/user/mordechai/mosaic/Mosaic.java:204-211 | the clue putClue writes is a pixel count over a window, at most 9 |
| Mosaics.WindowIsNear | src/com/stackexchange/puzzling/user/mordechai/mosaic/Mosaic.java:205 | the window of (x, y) holds exactly the cells at most one step from it |
| Mosaics.PixelsAroundZero | src/com/stackexchange/puzzling/user/mordechai/mosaic/Mosaic.java:204-211 | putClue writes 0 exactly when no cell near (x, y) is a pixel |
| Mosaics.PixelsAroundFull | src/com/stackexchange/puzzling/user/mordechai/mosaic/Mosaic.java:204-211 | putClue writes the size of the window exactly when every cell near (x, y) is a pixel |
| Mosaics.PixelsAroundOnlyPixels | src/com/stackexchange/puzzling/user/mordechai/mosaic/Mosaic.java:208 | the count depends on the pixel flags alone, not on clue numbers or fills |
| Mosaics.ClueSymbol | src/com/stackexchange/puzzling/user/mordechai/mosaic/Mosaic.java:106-108 | a clue of 0 or more is written as its decimal number and "no clue" as a single space |
| Mosaics.Mosaic.Board | src/com/stackexchange/puzzling/user/mordechai/mosaic/Mosaic.java:187-190 | reading the mosaic through its row-major iterator gives its cells in order |
| Mosaics.Mosaic.CellsAt | src/com/stackexchange/puzzling/user/mordechai/mosaic/Mosaic.java:179-185 | get(x, y) is element y * width + x of the row-major cells |
| Mosaics.Mosaic.constructor | src/com/stackexchange/puzzling/user/mordechai/mosaic/Mosaic.java:150-153 | a width x height mosaic whose every cell is a default clue: EMPTY, clue -1, not a pixel |
| Mosaics.Mosaic.Copy | src/com/stackexchange/puzzling/user/mordechai/mosaic/Mosaic.java:146-148 | a deep copy: same size and clues, and storage disjoint from the original's |
| Mosaics.Mosaic.OfGrid | src/com/stackexchange/puzzling/user/mordechai/mosaic/Mosaic.java:155-157 | a mosaic over the given grid itself |
| Mosaics.Mosaic.PutClue | src/com/stackexchange/puzzling/user/mordechai/mosaic/Mosaic.java:204-211 | the clue at (x, y) becomes the pixel count of its window and nothing else changes; a point outside the grid fails, with the error getSurroundingCells or get raises for it |
| Mosaics.Mosaic.Put | src/com/stackexchange/puzzling/user/mordechai/mosaic/Mosaic.java:159-161 | grid().set at a point of the mosaic replaces that clue only |
| Mosaics.Mosaic.CountInWindow | src/com/stackexchange/puzzling/user/mordechai/mosaic/Mosaic.java:205-208 | count over the surrounding view sees exactly the window's clues |
| Mosaics.Mosaic.FillClues | src/com/stackexchange/puzzling/user/mordechai/mosaic/Mosaic.java:200-202 | every cell gets the pixel count of its window in the mosaic as it was; fills and pixel flags are unchanged |
| Mosaics.Mosaic.FillRow | src/com/stackexchange/puzzling/user/mordechai/mosaic/Mosaic.java:200-202 | one row of fillClues keeps the rows above relabelled and the rows below untouched |
| Mosaics.Mosaic.RemoveClue | src/com/stackexchange/puzzling/user/mordechai/mosaic/Mosaic.java:213-215 | the clue at (x, y) becomes -1 and nothing else changes; a point outside the grid fails with IndexOutOfBounds |
| Mosaics.Mosaic.ToClues | src/com/stackexchange/puzzling/user/mordechai/mosaic/Mosaic.java:106-108 | each clue's symbol, nothing between cells, a newline between rows, no trailing newline |
| Mosaics.CharTokens | src/com/stackexchange/puzzling/user/mordechai/mosaic/Mosaic.java:84 | split("") gives every line at least one token |
| Mosaics.CsvTokens | src/com/stackexchange/puzzling/user/mordechai/mosaic/Mosaic.java:111 | the CSV tokens of a line, and no tokens for a blank line |
| Mosaics.Patch | src/com/stackexchange/puzzling/user/mordechai/mosaic/Mosaic.java:85 | replacing every null cell by a default clue gives the mosaic the token lists describe |
| Mosaics.FromClues | src/com/stackexchange/puzzling/user/mordechai/mosaic/Mosaic.java:83-88 | one row per line, one cell per character, default clues past a line's end; it never fails |
| Mosaics.FromCsvAsWritten | src/com/stackexchange/puzzling/user/mordechai/mosaic/Mosaic.java:110-115 | fails exactly when some line has no CSV token list (a blank line), otherwise reads every line |
| Mosaics.CsvTrailingLineBreak | src/com/stackexchange/puzzling/user/mordechai/mosaic/Mosaic.java:110-115 | "1,2" followed by a line break fails as written but reads as a 2 x 2 mosaic when blank lines are empty rows |
| Mosaics.CsvTokensAgree | src/com/stackexchange/puzzling/user/mordechai/mosaic/Mosaic.java:110-115 | where the written reader succeeds, the corrected tokenizer gives the same token lists |
| Mosaics.CsvTokensBlank | src/com/stackexchange/puzzling/user/mordechai/mosaic/Mosaic.java:110-115 | the corrected tokenizer gives no token exactly for a blank line |
| Mosaics.FromCsv | src/com/stackexchange/puzzling/user/mordechai/mosaic/Mosaic.java:110-115 | fails exactly when every line is blank, otherwise reads the mosaic the lines describe |
| Mosaics.FromString | src/com/stackexchange/puzzling/user/mordechai/mosaic/Mosaic.java:60-65 | the corrected CSV reader (see Findings) for a text with a comma or a tab, one character per cell otherwise; only a CSV text can fail |
| Mosaics.FromStringAsWritten | src/com/stackexchange/puzzling/user/mordechai/mosaic/Mosaic.java:60-65 | fromString as written fails exactly for a text with a comma or a tab and a line without a CSV token list (a blank line); otherwise it reads every line with the reader the text selects |
| Lifecycle.Terminal | src/com/stackexchange/puzzling/user/mordechai/mosaic/solvers/RecursionSolver.java:381-384 | isTerminated(): exactly the states that are neither INITIALIZING nor runnable (SUCCEEDED, FAILED, CANCELLED) |
| Lifecycle.Runnable | src/com/stackexchange/puzzling/user/mordechai/mosaic/solvers/RecursionSolver.java:376-379 | runnable exactly when the state is neither terminal nor INITIALIZING |
| Lifecycle.SlotFor | src/com/stackexchange/puzzling/user/mordechai/mosaic/solvers/AbstractSolveAlgorithm.java:72-101 | onStart exactly on READY to RUNNING, onResume exactly on PAUSED to RUNNING, onPause, onCancel, onSucceed and onFail exactly on entering their state, and no handler otherwise |
| Lifecycle.SlotFires | src/com/stackexchange/puzzling/user/mordechai/mosaic/solvers/AbstractSolveAlgorithm.java:72-101 | a handler registered for one slot only is called on exactly the changes of that slot |
| Lifecycle.DispatchOrder | src/com/stackexchange/puzzling/user/mordechai/mosaic/solvers/AbstractSolveAlgorithm.java:68-70 | the all-state listeners come first in registration order, then the new state's listeners, then onStateChange, then at most one state handler |
| Lifecycle.RemoveFirst | src/com/stackexchange/puzzling/user/mordechai/mosaic/solvers/AbstractSolveAlgorithm.java:129 | List.remove drops exactly one occurrence of a present handler and leaves a list without it unchanged |
| Lifecycle.AddThenRemove | src/com/stackexchange/puzzling/user/mordechai/mosaic/solvers/AbstractSolveAlgorithm.java:117-129 | removing a handler just added to a list that did not hold it restores the list |
| Lifecycle.FirstUnclued | src/com/stackexchange/puzzling/user/mordechai/mosaic/solvers/AbstractSolveAlgorithm.java:38-47 | the first cell in row-major order whose window holds no clue, with every earlier window clued; None exactly when every window is clued |
| Lifecycle.FindUnclued | src/com/stackexchange/puzzling/user/mordechai/mosaic/solvers/AbstractSolveAlgorithm.java:39-47 | the iterator loop of the constructor stops at exactly FirstUnclued |
| Lifecycle.FirstUncluedStep | src/com/stackexchange/puzzling/user/mordechai/mosaic/solvers/AbstractSolveAlgorithm.java:40-46 | one pass of the loop advances the search by one cell |
| Lifecycle.CluedAt | src/com/stackexchange/puzzling/user/mordechai/mosaic/solvers/AbstractSolveAlgorithm.java:42-43 | the clue count over the surrounding view is non-zero exactly when the window holds a clue |
| Lifecycle.SolveAlgorithm.constructor | src/com/stackexchange/puzzling/user/mordechai/mosaic/solvers/AbstractSolveAlgorithm.java:34-36 | a new algorithm is INITIALIZING with no listeners and nothing fired |
| Lifecycle.SolveAlgorithm.SetState | src/com/stackexchange/puzzling/user/mordechai/mosaic/solvers/AbstractSolveAlgorithm.java:61-102 | a change to the current state does nothing; otherwise the state becomes s and the listeners are called in dispatch order; registrations are unchanged |
| Lifecycle.SolveAlgorithm.AddStateListener | src/com/stackexchange/puzzling/user/mordechai/mosaic/solvers/AbstractSolveAlgorithm.java:104-118 | the handler is appended to that state's list, which is created when missing; nothing else changes |
| Lifecycle.SolveAlgorithm.RemoveStateListener | src/com/stackexchange/puzzling/user/mordechai/mosaic/solvers/AbstractSolveAlgorithm.java:120-134 | the first registration is dropped, and a state left without listeners loses its map entry |
| Lifecycle.SolveAlgorithm.AddAllStateListener | src/com/stackexchange/puzzling/user/mordechai/mosaic/solvers/AbstractSolveAlgorithm.java:136-142 | the handler is appended to the all-state list |
| Lifecycle.SolveAlgorithm.RemoveAllStateListener | src/com/stackexchange/puzzling/user/mordechai/mosaic/solvers/AbstractSolveAlgorithm.java:144-150 | the first registration of the handler is dropped from the all-state list |
| Lifecycle.SolveAlgorithm.SetHandler | src/com/stackexchange/puzzling/user/mordechai/mosaic/solvers/AbstractSolveAlgorithm.java:152-210 | onStart .. onFail set their handler, or clear it when given null, and change nothing else |
| Lifecycle.SolveAlgorithm.OnStateChange | src/com/stackexchange/puzzling/user/mordechai/mosaic/solvers/AbstractSolveAlgorithm.java:212-215 | sets the state-change handler and nothing else |
| Lifecycle.Create | src/com/stackexchange/puzzling/user/mordechai/mosaic/solvers/AbstractSolveAlgorithm.java:34-49 | with the check on, fails with NoClue at the first row-major cell whose window has no clue, exactly when there is one; otherwise a new INITIALIZING algorithm on the unchanged mosaic |
| Worklists.FirstUnsolved | src/com/stackexchange/puzzling/user/mordechai/mosaic/solvers/RecursionSolver.java:286-292 | the first position from which on the coordinate is not solved, every one before it being solved |
| Worklists.DropSolved | src/com/stackexchange/puzzling/user/mordechai/mosaic/solvers/RecursionSolver.java:286-292 | the loop leaves the worklist starting at its first unsolved coordinate |
| Worklists.DrainLoopback | src/com/stackexchange/puzzling/user/mordechai/mosaic/solvers/RecursionSolver.java:182-189 | removes loopback entries up to and including the first unsolved one, which it picks; the list ends empty when none is unsolved |
| Worklists.ScanIterator | src/com/stackexchange/puzzling/user/mordechai/mosaic/solvers/RecursionSolver.java:191-200 | the iterator loop picks the first unsolved coordinate from the cursor on and removes the solved ones it passes |
| Worklists.ScanKeepsUnsolved | src/com/stackexchange/puzzling/user/mordechai/mosaic/solvers/RecursionSolver.java:191-200 | scanning keeps the worklist's order, every entry before the cursor and every unsolved coordinate; the pick sits at the old cursor |
| Worklists.RewindTo | src/com/stackexchange/puzzling/user/mordechai/mosaic/solvers/RecursionSolver.java:253-259 | the rewind stops at the first far coordinate met going back, or at the start, and passes only coordinates that are not far |
| Worklists.Rewind | src/com/stackexchange/puzzling/user/mordechai/mosaic/solvers/RecursionSolver.java:253-259 | the rewind loop ends at RewindTo, having counted one previous() per position |
| Worklists.Nearby | src/com/stackexchange/puzzling/user/mordechai/mosaic/solvers/RecursionSolver.java:263-265 | the queued coordinates are within two rows and two columns of c and are not c |
| Worklists.NearbyComplete | src/com/stackexchange/puzzling/user/mordechai/mosaic/solvers/RecursionSolver.java:263-265 | every coordinate within two of c, other than c, that the forward loop passes is queued |
| Worklists.Refill | src/com/stackexchange/puzzling/user/mordechai/mosaic/solvers/RecursionSolver.java:260-269 | the forward loop moves at least once when it has moves left, queues Nearby of what it passed, and stops early only after a coordinate at or beyond c |
| Worklists.RefillLoop | src/com/stackexchange/puzzling/user/mordechai/mosaic/solvers/RecursionSolver.java:260-269 | the forward loop ends at Refill |
| Worklists.FreshCoords | src/com/stackexchange/puzzling/user/mordechai/mosaic/solvers/RecursionSolver.java:53-57 | a child's worklist holds fresh unsolved copies of the parent's coordinates that were not solved, and no more |
| Worklists.CopyUnsolved | src/com/stackexchange/puzzling/user/mordechai/mosaic/solvers/RecursionSolver.java:53-57 | the constructor's loop builds exactly FreshCoords |
| SolverNodes.Adopt | src/com/stackexchange/puzzling/user/mordechai/mosaic/solvers/RecursionSolver.java:330-366 | appending new children below a leaf that has a recursion point keeps the tree well linked, with the leaf listing exactly the new nodes |
| SolverNodes.AncestorOrder | src/com/stackexchange/puzzling/user/mordechai/mosaic/solvers/RecursionSolver.java:461-466 | an ancestor was created no later than its descendant and is on a strictly higher level unless it is the node itself |
| SolverNodes.AncestorTrans | src/com/stackexchange/puzzling/user/mordechai/mosaic/solvers/RecursionSolver.java:457-466 | being an ancestor is transitive |
| SolverNodes.AncestorChain | src/com/stackexchange/puzzling/user/mordechai/mosaic/solvers/RecursionSolver.java:548-561 | the ancestors of a node form a chain ordered by level |
| SolverNodes.ClimbOne | src/com/stackexchange/puzzling/user/mordechai/mosaic/solvers/RecursionSolver.java:549-550 | while max is below min's level, replacing max by its parent keeps the common ancestors of the pair |
| SolverNodes.ClimbBoth | src/com/stackexchange/puzzling/user/mordechai/mosaic/solvers/RecursionSolver.java:552-558 | two distinct nodes on one level are both roots and share no ancestor, or have parents on one level that share exactly their common ancestors |
| SolverNodes.ActiveIsLeafBelow | src/com/stackexchange/puzzling/user/mordechai/mosaic/solvers/RecursionSolver.java:423-435 | getActive's descent from a node ends at a leaf that node is an ancestor of, or fails, and then only with NullPointerException |
| SolverNodes.SelfActive | src/com/stackexchange/puzzling/user/mordechai/mosaic/solvers/RecursionSolver.java:453-455 | isSelfActive(): true exactly for a node without children in a runnable state (neither terminal nor INITIALIZING) |
| SolverNodes.InValidation | src/com/stackexchange/puzzling/user/mordechai/mosaic/solvers/RecursionSolver.java:510-516 | inValidationProcess(): true exactly when the grid is complete (gridComplete() is an empty worklist, `clues == []`), ambiguity is checked, and the runnable node still has children, so it is not self-active; such a node is never terminal |
| SolverNodes.FailedAt | src/com/stackexchange/puzzling/user/mordechai/mosaic/solvers/RecursionSolver.java:360-364 | setState(FAILED) marks the node FAILED; the FAILED listener's effect on the parent (the child dropped, its steps and backtracks added) is stated by SolverNodes.FailedAtValid, which reads with this row |
| SolverNodes.FailedAtValid | src/com/stackexchange/puzzling/user/mordechai/mosaic/solvers/RecursionSolver.java:360-364 | failing a node changes only the node and its parent, which drops it and takes its step and backtrack counts; the tree stays well linked |
| SolverNodes.CopyFills | src/com/stackexchange/puzzling/user/mordechai/mosaic/solvers/RecursionSolver.java:339-343 | the parent takes every cell's fill from the child and keeps its own clue numbers and pixel flags |
| SolverNodes.TakeFills | src/com/stackexchange/puzzling/user/mordechai/mosaic/solvers/RecursionSolver.java:339-341 | the copy loop builds exactly CopyFills |
| SolverNodes.CopyFillsTwice | src/com/stackexchange/puzzling/user/mordechai/mosaic/solvers/RecursionSolver.java:339-343 | copying the child's fills a second time (the forEach after the loop) changes nothing |
| SolverNodes.ClueCoords | src/com/stackexchange/puzzling/user/mordechai/mosaic/solvers/RecursionSolver.java:59-63 | the root's worklist holds only unsolved coordinates on the board |
| SolverNodes.ClueCoordsSound | src/com/stackexchange/puzzling/user/mordechai/mosaic/solvers/RecursionSolver.java:59-63 | every coordinate of the root's worklist is that of a clue |
| SolverNodes.ClueCoordsComplete | src/com/stackexchange/puzzling/user/mordechai/mosaic/solvers/RecursionSolver.java:59-63 | every clue of the board has its coordinate in the root's worklist |
| SolverNodes.ListClues | src/com/stackexchange/puzzling/user/mordechai/mosaic/solvers/RecursionSolver.java:59-63 | the constructor's walk over the mosaic builds exactly ClueCoords |
| SolverNodes.PickFacts | src/com/stackexchange/puzzling/user/mordechai/mosaic/solvers/RecursionSolver.java:182-200 | the loopback list is drained first and the iterator scans only when it yields nothing; the clue picked is unsolved; the worklist keeps every unsolved coordinate; nothing but the two lists and the iterator changes |
| SolverNodes.PickedFromLoopback | src/com/stackexchange/puzzling/user/mordechai/mosaic/solvers/RecursionSolver.java:182-189 | with an unsolved loopback entry, the step takes the first one and keeps the rest of the list after it |
| SolverNodes.Walk | src/com/stackexchange/puzzling/user/mordechai/mosaic/solvers/RecursionSolver.java:253-269 | the coordinates queued after a change at c are within two rows and columns of c and are not c |
| SolverNodes.RequeueNear | src/com/stackexchange/puzzling/user/mordechai/mosaic/solvers/RecursionSolver.java:248-270 | the loopback block appends to the loopback list only coordinates near c, none of them c |
| SolverNodes.RequeueShape | src/com/stackexchange/puzzling/user/mordechai/mosaic/solvers/RecursionSolver.java:248-270 | the loopback block changes only the loopback list and the iterator, which moves back at most to where it was and points its last-returned index just before its cursor; at cursor 0 nothing changes |
| SolverNodes.MarkKeeps | src/com/stackexchange/puzzling/user/mordechai/mosaic/solvers/RecursionSolver.java:246-272 | the end of a step sets the board and the coordinate's solved flag, keeps the worklist and the counters, and keeps the node well formed and in its place in the tree |
| SolverNodes.VisitKeeps | src/com/stackexchange/puzzling/user/mordechai/mosaic/solvers/RecursionSolver.java:205-272 | visiting a clue keeps the node well formed and in its place in the tree |
| SolverNodes.RemoveKeeps | src/com/stackexchange/puzzling/user/mordechai/mosaic/solvers/RecursionSolver.java:209-211 | removing a coordinate without a clue keeps the node well formed |
| SolverNodes.DecideKeeps | src/com/stackexchange/puzzling/user/mordechai/mosaic/solvers/RecursionSolver.java:214-272 | applying the rule keeps the node well formed |
| SolverNodes.StepKeepsNode | src/com/stackexchange/puzzling/user/mordechai/mosaic/solvers/RecursionSolver.java:176-273 | takeStepImpl counts one step and keeps the node well formed and in its place in the tree |
| SolverNodes.PickKeeps | src/com/stackexchange/puzzling/user/mordechai/mosaic/solvers/RecursionSolver.java:176-205 | the node after the pick, counted and pointing at the clue picked, is well formed |
| SolverNodes.VisitAtClue | src/com/stackexchange/puzzling/user/mordechai/mosaic/solvers/RecursionSolver.java:206-272 | at a clue: a contradiction exactly when the clue can no longer be met, with the node unchanged; otherwise the rule's board, the coordinate solved exactly when no EMPTY cell is left in its window, and changed raised exactly when a cell was painted |
| SolverNodes.DecideAtClue | src/com/stackexchange/puzzling/user/mordechai/mosaic/solvers/RecursionSolver.java:214-272 | the same facts for the rule at a given window |
| SolverNodes.VisitWithoutClue | src/com/stackexchange/puzzling/user/mordechai/mosaic/solvers/RecursionSolver.java:208-212 | at a coordinate without a clue, iterator.remove() drops exactly the element last returned from the worklist and steps the cursor back onto it, or throws IllegalStateException, changing nothing, when there is none |
| SolverNodes.EndNodeKeeps | src/com/stackexchange/puzzling/user/mordechai/mosaic/solvers/RecursionSolver.java:280-298 | endIteration drops the iterator and keeps the board, the coordinates and the loopback list; on a stall the worklist starts at its first unsolved coordinate, which becomes the recursion point; otherwise worklist and recursion point are unchanged |
| SolverNodes.EndBranchingKids | src/com/stackexchange/puzzling/user/mordechai/mosaic/solvers/RecursionSolver.java:280-367 | the children endIteration makes are READY leaves one level down naming the node as their parent, and there are children or an exception only after a stall with an unsolved clue |
| SolverNodes.EndBranchingAt | src/com/stackexchange/puzzling/user/mordechai/mosaic/solvers/RecursionSolver.java:298-330 | after a stall, RequiresAdvancedLogicException at the first unsolved clue when advanced logic is off, otherwise a branch there |
| SolverNodes.Kids | src/com/stackexchange/puzzling/user/mordechai/mosaic/solvers/RecursionSolver.java:315-330 | one child per index asked for |
| SolverNodes.KidsAreOk | src/com/stackexchange/puzzling/user/mordechai/mosaic/solvers/RecursionSolver.java:330 | every child is a READY well-formed leaf, one level down, naming its parent |
| SolverNodes.BranchKids | src/com/stackexchange/puzzling/user/mordechai/mosaic/solvers/RecursionSolver.java:315-367 | a branch makes only READY well-formed leaves of the node |
| SolverNodes.BranchShape | src/com/stackexchange/puzzling/user/mordechai/mosaic/solvers/RecursionSolver.java:306-330 | min(m - (k - F) + 1, m) children for m EMPTY and F FILLED cells in the window of clue k (none when m is 0), IndexOutOfBoundsException exactly when more are asked for than there are EMPTY cells, child i's board as ChildCells gives it, and every child has fewer EMPTY cells than its parent |
| SolverNodes.KidsFewer | src/com/stackexchange/puzzling/user/mordechai/mosaic/solvers/RecursionSolver.java:317-328 | every child starts from its own board, which has fewer EMPTY cells than the parent's |
| SolverNodes.StepErrors | src/com/stackexchange/puzzling/user/mordechai/mosaic/solvers/RecursionSolver.java:176-273 | a step throws only ContradictionException, or IllegalStateException from iterator.remove() |
| SolverNodes.VisitErrors | src/com/stackexchange/puzzling/user/mordechai/mosaic/solvers/RecursionSolver.java:205-273 | a visit throws only ContradictionException, or IllegalStateException |
| SolverSteps.Transit | src/com/stackexchange/puzzling/user/mordechai/mosaic/solvers/RecursionSolver.java:492-508 | setState: a terminated node refuses with IllegalStateException and nothing changes; otherwise the node takes the new state, only it and nodes created before it change, the tree stays well linked, and only IllegalStateException or AmbigiousException escape |
| SolverSteps.ChildSucceeded | src/com/stackexchange/puzzling/user/mordechai/mosaic/solvers/RecursionSolver.java:332-358 | the SUCCEEDED listener changes only the parent and nodes created before it, keeps the tree well linked, and lets only IllegalStateException or AmbigiousException escape |
| SolverSteps.Settled | src/com/stackexchange/puzzling/user/mordechai/mosaic/solvers/RecursionSolver.java:349-357 | the end of the SUCCEEDED listener changes only the parent and nodes created before it and keeps the tree well linked |
| SolverSteps.SecondSolutionAmbiguous | src/com/stackexchange/puzzling/user/mordechai/mosaic/solvers/RecursionSolver.java:334-337 | a parent in validation that hears a child succeed fails and throws AmbigiousException at its recursion point, with its board and the child's |
| SolverSteps.ChildSuccessAdopts | src/com/stackexchange/puzzling/user/mordechai/mosaic/solvers/RecursionSolver.java:339-358 | otherwise the parent takes every fill of the child and clears its worklist and iterator; still in validation it keeps its other children, else it drops them and settles |
| SolverSteps.SettledAt | src/com/stackexchange/puzzling/user/mordechai/mosaic/solvers/RecursionSolver.java:349-357 | settling: a terminated parent throws IllegalStateException and nothing changes; otherwise it becomes SUCCEEDED and, unless that throws, has one recursion more than the child and the sums of both nodes' steps and backtracks |
| SolverSteps.Step | src/com/stackexchange/puzzling/user/mordechai/mosaic/solvers/RecursionSolver.java:121-172 | takeStep only adds nodes, keeps the tree well linked and ends only in an IllegalClueStateException, IllegalStateException or IndexOutOfBoundsException |
| SolverSteps.ParentStep | src/com/stackexchange/puzzling/user/mordechai/mosaic/solvers/RecursionSolver.java:127-150 | the step of a node with children does the same |
| SolverSteps.Unwind | src/com/stackexchange/puzzling/user/mordechai/mosaic/solvers/RecursionSolver.java:130-149 | the catch blocks keep the tree well linked, add no node and pass on only those exceptions |
| SolverSteps.Backtrack | src/com/stackexchange/puzzling/user/mordechai/mosaic/solvers/RecursionSolver.java:135-149 | an IllegalClueStateException other than AmbigiousException counts a backtrack; with children left the node goes on, pausing when asked; with none left it succeeds when its worklist is empty and otherwise fails and throws the exception on |
| SolverSteps.LeafStep | src/com/stackexchange/puzzling/user/mordechai/mosaic/solvers/RecursionSolver.java:151-171 | the step of a RUNNING leaf only adds nodes, keeps the tree well linked and throws only those exceptions |
| SolverSteps.StartIteration | src/com/stackexchange/puzzling/user/mordechai/mosaic/solvers/RecursionSolver.java:275-278 | startIteration puts a fresh iterator at the head of the worklist and resets changed when no iteration is under way; no other node changes |
| SolverSteps.ImplStep | src/com/stackexchange/puzzling/user/mordechai/mosaic/solvers/RecursionSolver.java:176-273 | takeStepImpl in the tree changes only the arena's contents, keeps it well linked and throws only those exceptions |
| SolverSteps.StepWithin | src/com/stackexchange/puzzling/user/mordechai/mosaic/solvers/RecursionSolver.java:176-273 | the node after takeStepImpl fits back into the tree, and the step throws only ContradictionException or IllegalStateException |
| SolverSteps.EndStep | src/com/stackexchange/puzzling/user/mordechai/mosaic/solvers/RecursionSolver.java:280-367 | endIteration appends its children to the tree, keeps it well linked and throws only those exceptions |
| SolverSteps.Ended | src/com/stackexchange/puzzling/user/mordechai/mosaic/solvers/RecursionSolver.java:280-367 | the leaf replaced by its end-of-iteration state can adopt the new children and the tree stays well linked |
| SolverSteps.BranchErrors | src/com/stackexchange/puzzling/user/mordechai/mosaic/solvers/RecursionSolver.java:302-328 | endIteration throws only RequiresAdvancedLogicException or IndexOutOfBoundsException |
| SolverSteps.PauseIf | src/com/stackexchange/puzzling/user/mordechai/mosaic/solvers/RecursionSolver.java:170-171 | the pause at the end of takeStep keeps the tree well linked and throws only IllegalStateException |
| SolverSteps.Pause | src/com/stackexchange/puzzling/user/mordechai/mosaic/solvers/RecursionSolver.java:85-90 | pause throws IllegalStateException exactly when the node is not RUNNING, changing nothing; otherwise only the node changes, to PAUSED |
| SolverSteps.RunSteps | src/com/stackexchange/puzzling/user/mordechai/mosaic/solvers/RecursionSolver.java:107-111 | run repeats takeStep(false) while the node is RUNNING; it ends only in a step's exception, or with the node no longer RUNNING, or with the allowed steps used up |
| SolverSteps.RunOnce | src/com/stackexchange/puzzling/user/mordechai/mosaic/solvers/RecursionSolver.java:108-110 | one round of run's loop: a step, then stop at an exception or a node no longer RUNNING, else go on |
| SolverSteps.StepPauses | src/com/stackexchange/puzzling/user/mordechai/mosaic/solvers/RecursionSolver.java:80-82 | step() that returns leaves the node PAUSED or terminated, never RUNNING |
| SolverSteps.PauseStops | src/com/stackexchange/puzzling/user/mordechai/mosaic/solvers/RecursionSolver.java:170-171 | the pause at the end of takeStep never returns with the node RUNNING |
| SolverSteps.UnwindStops | src/com/stackexchange/puzzling/user/mordechai/mosaic/solvers/RecursionSolver.java:130-149 | the catch blocks of step() return only with the node paused or terminated |
| Solver.StepNode | src/com/stackexchange/puzzling/user/mordechai/mosaic/solvers/RecursionSolver.java:176-273 | takeStepImpl on one node computes exactly the step StepAt specifies |
| Solver.PickNext | src/com/stackexchange/puzzling/user/mordechai/mosaic/solvers/RecursionSolver.java:182-200 | the loopback drain and iterator scan pick exactly what PickClue specifies |
| Solver.VisitNode | src/com/stackexchange/puzzling/user/mordechai/mosaic/solvers/RecursionSolver.java:205-272 | the visit of one coordinate does exactly what Visit specifies |
| Solver.CountFill | src/com/stackexchange/puzzling/user/mordechai/mosaic/solvers/RecursionSolver.java:308 | the count of cells of one fill in a window, as CountWhere on the gathered window |
| Solver.ApplyRule | src/com/stackexchange/puzzling/user/mordechai/mosaic/solvers/RecursionSolver.java:214-246 | the rule's loops over the window compute exactly the outcome Rule specifies |
| Solver.MarkNode | src/com/stackexchange/puzzling/user/mordechai/mosaic/solvers/RecursionSolver.java:246-272 | the end of a visit gives exactly the node Mark specifies |
| Solver.RequeueNode | src/com/stackexchange/puzzling/user/mordechai/mosaic/solvers/RecursionSolver.java:248-270 | the loopback block gives exactly the node Requeue specifies |
| Solver.EndIterate | src/com/stackexchange/puzzling/user/mordechai/mosaic/solvers/RecursionSolver.java:280-367 | endIteration on one node gives exactly the node EndNode and the children and exception EndBranching specify |
| Solver.BranchAt | src/com/stackexchange/puzzling/user/mordechai/mosaic/solvers/RecursionSolver.java:300-367 | branching at a clue gives exactly the children and exception Branch specifies |
| Solver.MakeKids | src/com/stackexchange/puzzling/user/mordechai/mosaic/solvers/RecursionSolver.java:315-367 | the children loop, run for i from 0 to the bound last, makes the first min(last + 1, m) children of Kids and throws IndexOutOfBoundsException exactly when last + 1 exceeds the m EMPTY cells |
| Solver.RecursionSolver.Of | src/com/stackexchange/puzzling/user/mordechai/mosaic/solvers/RecursionSolver.java:44-69 | a new solver's tree is the single root node it is given |
| Solver.RecursionSolver.Create | src/com/stackexchange/puzzling/user/mordechai/mosaic/solvers/RecursionSolver.java:40-69 | the public constructor fails with NoClue exactly when some cell's window holds no clue, reporting the first such cell in row-major order, and otherwise makes a well-linked tree of one root over the mosaic's board with every clue in its worklist |
| Solver.RecursionSolver.RootSolver | src/com/stackexchange/puzzling/user/mordechai/mosaic/solvers/RecursionSolver.java:44-69 | the same solver once the clue check has passed |
| Solver.RecursionSolver.RootOf | src/com/stackexchange/puzzling/user/mordechai/mosaic/solvers/RecursionSolver.java:44-69 | the root node holds the mosaic's board and a fresh, unsolved coordinate for every clue, and has no parent, level 0 and no children |
| Solver.RecursionSolver.SetState | src/com/stackexchange/puzzling/user/mordechai/mosaic/solvers/RecursionSolver.java:492-508 | setState on a node does exactly what Transit specifies |
| Solver.RecursionSolver.OnChildFailed | src/com/stackexchange/puzzling/user/mordechai/mosaic/solvers/RecursionSolver.java:360-364 | the FAILED listener drops the child from the parent and adds its steps and backtracks |
| Solver.RecursionSolver.OnChildSucceeded | src/com/stackexchange/puzzling/user/mordechai/mosaic/solvers/RecursionSolver.java:332-358 | the SUCCEEDED listener does exactly what ChildSucceeded specifies |
| Solver.RecursionSolver.Settle | src/com/stackexchange/puzzling/user/mordechai/mosaic/solvers/RecursionSolver.java:349-357 | the end of the SUCCEEDED listener does exactly what Settled specifies |
| Solver.RecursionSolver.AdoptChild | src/com/stackexchange/puzzling/user/mordechai/mosaic/solvers/RecursionSolver.java:339-347 | the parent takes the child's fills, drops the child and clears its worklist and iterator |
| Solver.RecursionSolver.TakeStep | src/com/stackexchange/puzzling/user/mordechai/mosaic/solvers/RecursionSolver.java:121-172 | takeStep does exactly what Step specifies |
| Solver.RecursionSolver.StepParent | src/com/stackexchange/puzzling/user/mordechai/mosaic/solvers/RecursionSolver.java:127-150 | the step of a node with children does exactly what ParentStep specifies |
| Solver.RecursionSolver.CatchChild | src/com/stackexchange/puzzling/user/mordechai/mosaic/solvers/RecursionSolver.java:130-149 | the catch blocks do exactly what Unwind specifies |
| Solver.RecursionSolver.StepLeaf | src/com/stackexchange/puzzling/user/mordechai/mosaic/solvers/RecursionSolver.java:151-171 | the step of a leaf does exactly what LeafStep specifies |
| Solver.RecursionSolver.StartIteration | src/com/stackexchange/puzzling/user/mordechai/mosaic/solvers/RecursionSolver.java:275-278 | startIteration puts the iterator at the head of the worklist and resets changed |
| Solver.RecursionSolver.TakeStepImpl | src/com/stackexchange/puzzling/user/mordechai/mosaic/solvers/RecursionSolver.java:176-273 | takeStepImpl does exactly what ImplStep specifies |
| Solver.RecursionSolver.EndIteration | src/com/stackexchange/puzzling/user/mordechai/mosaic/solvers/RecursionSolver.java:280-367 | endIteration does exactly what EndStep specifies |
| Solver.RecursionSolver.PauseIfDone | src/com/stackexchange/puzzling/user/mordechai/mosaic/solvers/RecursionSolver.java:170-171 | the pause at the end of takeStep does exactly what PauseIf specifies |
| Solver.RecursionSolver.Pause | src/com/stackexchange/puzzling/user/mordechai/mosaic/solvers/RecursionSolver.java:85-90 | pause does exactly what SolverSteps.Pause specifies |
| Solver.RecursionSolver.Step | src/com/stackexchange/puzzling/user/mordechai/mosaic/solvers/RecursionSolver.java:80-82 | step() is takeStep(true) and, when it returns, leaves the node not RUNNING |
| Solver.RecursionSolver.Run | src/com/stackexchange/puzzling/user/mordechai/mosaic/solvers/RecursionSolver.java:107-111 | run's loop does exactly what RunSteps specifies |
| Solver.RecursionSolver.RunRound | src/com/stackexchange/puzzling/user/mordechai/mosaic/solvers/RecursionSolver.java:108-110 | one round of run's loop keeps the tree well linked and stops exactly on an exception or a node no longer RUNNING |
| Solver.RecursionSolver.Start | src/com/stackexchange/puzzling/user/mordechai/mosaic/solvers/RecursionSolver.java:72-77 | start throws IllegalStateException, changing nothing, unless the node is READY, and then runs |
| Solver.RecursionSolver.Resume | src/com/stackexchange/puzzling/user/mordechai/mosaic/solvers/RecursionSolver.java:93-98 | resume throws IllegalStateException, changing nothing, unless the node is PAUSED, and then runs |
| Solver.RecursionSolver.Cancel | src/com/stackexchange/puzzling/user/mordechai/mosaic/solvers/RecursionSolver.java:101-105 | cancel on a terminated node throws IllegalStateException and changes nothing; otherwise the node becomes CANCELLED with an empty worklist and no children |
| Solver.RecursionSolver.CheckAmbiguity | src/com/stackexchange/puzzling/user/mordechai/mosaic/solvers/RecursionSolver.java:386-392 | the ambiguity check can be toggled only while INITIALIZING or READY, else IllegalStateException and nothing changes |
| Solver.RecursionSolver.UseAdvancedLogic | src/com/stackexchange/puzzling/user/mordechai/mosaic/solvers/RecursionSolver.java:398-404 | advanced logic can be toggled only while INITIALIZING or READY, else IllegalStateException and nothing changes |
| Solver.RecursionSolver.UseLoopbackEnhancement | src/com/stackexchange/puzzling/user/mordechai/mosaic/solvers/RecursionSolver.java:410-417 | the loopback enhancement can be toggled only while INITIALIZING or READY, else IllegalStateException and nothing changes |
| Solver.RecursionSolver.GetActive | src/com/stackexchange/puzzling/user/mordechai/mosaic/solvers/RecursionSolver.java:423-435 | getActive is null exactly for a terminated node; otherwise it is a leaf the node is an ancestor of, or a NullPointerException |
| Solver.RecursionSolver.CommonParent | src/com/stackexchange/puzzling/user/mordechai/mosaic/solvers/RecursionSolver.java:542-561 | commonParent is a common ancestor of both nodes that every common ancestor is an ancestor of, and null exactly when there is none |
| Deduction.ChildCrossed | src/com/stackexchange/puzzling/user/mordechai/mosaic/solvers/RecursionSolver.java:321-323 | in child i the first i EMPTY cells of the window are crossed out |
| Deduction.ChildDecides | src/com/stackexchange/puzzling/user/mordechai/mosaic/solvers/RecursionSolver.java:328 | child i fills EMPTY cell i of the window and makes no cell EMPTY that was not |
| Deduction.ChildKeepsOutside | src/com/stackexchange/puzzling/user/mordechai/mosaic/solvers/RecursionSolver.java:317-318 | the child's copy of the mosaic keeps every cell outside the window |
| Deduction.CompletionAllFilled | src/com/stackexchange/puzzling/user/mordechai/mosaic/solvers/RecursionSolver.java:228-235 | in any completion of a window that reaches F + E filled cells every EMPTY cell is FILLED, so painting them all loses no solution |
| Deduction.CompletionAllCrossed | src/com/stackexchange/puzzling/user/mordechai/mosaic/solvers/RecursionSolver.java:237-244 | in any completion of a window that keeps F filled cells every EMPTY cell is crossed out |
| Deduction.FewerEmpties | src/com/stackexchange/puzzling/user/mordechai/mosaic/solvers/RecursionSolver.java:315-330 | deciding at least one EMPTY cell, and emptying none, lowers the number of EMPTY cells |
| Deduction.PaintedNoEmpty | src/com/stackexchange/puzzling/user/mordechai/mosaic/solvers/RecursionSolver.java:229-243 | painting a window with no EMPTY cell leaves the board as it was |
| Deduction.SomeEmptyPainted | src/com/stackexchange/puzzling/user/mordechai/mosaic/solvers/RecursionSolver.java:229-243 | painting a window that has an EMPTY cell changes the board |

## Left out

- Listener closures other than the parent's SUCCEEDED and FAILED handlers: the `onRecursion` handler (src/com/stackexchange/puzzling/user/mordechai/mosaic/solvers/RecursionSolver.java:113-119, 369-372) is not called. The generic registry of `AbstractSolveAlgorithm` is modelled in `Lifecycle` with handlers known by identity and calls recorded in a log.
- Timing and reports: `elapsed`, `startTimer` and `done` (src/com/stackexchange/puzzling/user/mordechai/mosaic/solvers/AbstractSolveAlgorithm.java:222-253), and `getReport`/RecursionReport (src/com/stackexchange/puzzling/user/mordechai/mosaic/solvers/RecursionSolver.java:518-522) are wall-clock or floating-point and are not modelled.
- The AtomicReference around the state is a plain field; cross-thread visibility is not modelled.
- Solver.RecursionSolver.Run: `run()` loops until the node leaves RUNNING; the model takes at most `fuel` steps and reports when the steps ran out. Start and Resume inherit the bound.
- The root solver works on a snapshot of the mosaic's cells. The Java solver writes its fills into the caller's `Mosaic` object; the model does not write them back.
- Coordinates objects are entries of a per-solver table, and the worklist and loopback list hold indices into it. Sharing a Coordinates object between the two lists is sharing an index.
- The accessors `getChildren`, `getParent`, `getRoot`, `isRoot`, `recursionLevel`, `currentPoint()` and `recursionPoint()` only read fields of the arena and have no members of their own.
- Loopback enhancement on or off reaching the same final grid is not proved: it is a claim about whole runs of the search, not about one operation.
- Grid: `indexOf`/`indexOfCell`, the copy constructor, `forEach`, `asList`/`row`/`column` caching, `toGridString` with grid lines, `toString` and the CSV printers (`Grid.toString`, `Mosaic.toCSV`) are not part of this model.
- Grids.Grid.CopyTo: requires the source and target grids to be disjoint; a copy between overlapping views of one matrix is not modelled.
- Grids.Grid.Count: on a grid with exactly one dimension 0 (say 3 x 0), the Java iterator reports a next cell and its first `next()` dereferences the null cell at (0, 0), throwing NullPointerException; the model counts no element and returns 0.
- Grids.Grid.Fill: on a grid with exactly one dimension 0 (say 3 x 0), the Java iterator reports a next cell and its first `next()` dereferences the null cell at (0, 0), throwing NullPointerException; the model changes nothing and returns normally.
- Grids.Grid.Clear: on a grid with exactly one dimension 0 (say 3 x 0), the Java iterator reports a next cell and its first `next()` dereferences the null cell at (0, 0), throwing NullPointerException; the model (through Fill) changes nothing and returns normally.
- Grids.Grid.IsEmpty: on a grid with exactly one dimension 0 (say 3 x 0), the Java iterator reports a next cell and its first `next()` dereferences the null cell at (0, 0), throwing NullPointerException; the model answers true.
- Grids.Grid.Branch: on a grid with exactly one dimension 0 (say 3 x 0), the Java iterator reports a next cell and its first `next()` dereferences the null cell at (0, 0), throwing NullPointerException; the model returns an empty copy of the same size.
- Grids.Grid.CopyTo: on a grid with exactly one dimension 0 (say 3 x 0), the Java iterator reports a next cell and its first `next()` dereferences the null cell at (0, 0), throwing NullPointerException; once the offsets and sizes pass, the model copies nothing and returns Pass.
- Grids.Grid.ToGridString: on a grid with exactly one dimension 0 (say 3 x 0), the Java iterator reports a next cell and its first `next()` dereferences the null cell at (0, 0), throwing NullPointerException; the model returns the empty string.
- GridLists.GridList.Clear: on a grid with exactly one dimension 0 (say 3 x 0), the Java iterator reports a next cell and its first `next()` dereferences the null cell at (0, 0), throwing NullPointerException; the model (through Grids.Grid.Clear) changes nothing.
- GridLists.GridList.IsEmpty: on a grid with exactly one dimension 0 (say 3 x 0), the Java iterator reports a next cell and its first `next()` dereferences the null cell at (0, 0), throwing NullPointerException; the model (through Grids.Grid.IsEmpty) answers true.
- Mosaics.Mosaic.constructor: on a grid with exactly one dimension 0 (say 3 x 0), the Java iterator reports a next cell and its first `next()` dereferences the null cell at (0, 0), throwing NullPointerException; `new Mosaic(width, height)` fills its grid and so throws for such a size; the model makes an empty mosaic of that size.
- Mosaics.Mosaic.Copy: on a grid with exactly one dimension 0 (say 3 x 0), the Java iterator reports a next cell and its first `next()` dereferences the null cell at (0, 0), throwing NullPointerException; `new Mosaic(other)` branches the grid and so throws for such a mosaic; the model makes an empty copy.
- Mosaics.Mosaic.ToClues: on a grid with exactly one dimension 0 (say 3 x 0), the Java iterator reports a next cell and its first `next()` dereferences the null cell at (0, 0), throwing NullPointerException; the model returns the empty string.
- Lifecycle.Create: on a grid with exactly one dimension 0 (say 3 x 0), the Java iterator reports a next cell and its first `next()` dereferences the null cell at (0, 0), throwing NullPointerException; with the check on, the constructor's walk throws for such a mosaic; the model finds no unclued cell and succeeds.
- Solver.RecursionSolver.Create: on a grid with exactly one dimension 0 (say 3 x 0), the Java iterator reports a next cell and its first `next()` dereferences the null cell at (0, 0), throwing NullPointerException; the inherited check throws for such a mosaic; the model finds no unclued cell and makes a root solver.
- Mosaics.FromString: a text with a comma or a tab goes to the corrected `Mosaics.FromCsv` (see Findings), so a blank line reads as a row without tokens; `fromString` as written throws NullPointerException there, which `Mosaics.FromStringAsWritten` models.
- Matrices.Matrix.constructor: sizes are natural numbers, so the NegativeArraySizeException of a negative size is not modelled.
- Image loading (`Mosaic.loadScaledImage`/`loadImage`), the `Scanner` file and stream readers, and clue minimisation (`clueGenerator`, `tryRemove`, `putMinimumClues`) are I/O, randomness or floating point and are not modelled.
- Clues.FromString: accepts only the ASCII digits '0'..'9' as a clue, where `Character.isDigit` also accepts other Unicode digits.
- GridIterator's wrap-left and wrap-up moves, `rowEnd`/`columnEnd` and `previousRowEnd`/`previousColumnEnd` set the index one past the last cell; the model keeps that value and proves nothing about the cell there.
- The JavaFX user interface, the exception classes' own code and the bare interfaces are not part of this model.

## Findings

| source | as written | input that shows it | evidently intended | confidence | as-written member | corrected member |
|---|---|---|---|---|---|---|
| src/com/stackexchange/puzzling/user/mordechai/grid/Grid.java:507-510 | `copyTo` refuses a target only when `other.width() + xOffset < width()`, and likewise for the height | a 2 x 1 grid copied into a 2 x 1 grid at x offset 1: the check passes, the first column is written, then the second write throws IndexOutOfBoundsException | refuse unless `xOffset + width() <= other.width()` and the same for the heights, before any write | not executed | Grids.CopyGuardAdmitsOverflow | Grids.Grid.CopyTo |
| src/com/stackexchange/puzzling/user/mordechai/grid/RowList.java:20-23 | `size()` returns `grid.height()` | a row of a 3 x 1 grid has size 1 where it holds 3 cells | the grid width, the length of the row | not executed | GridLists.RowList.SizeAsWritten | GridLists.RowList.Size |
| src/com/stackexchange/puzzling/user/mordechai/grid/ColumnList.java:33-46 | `clear` and `isEmpty` loop `x < grid.width()` over a column of `grid.height()` cells | on a 1 x 2 grid a column whose second cell is set reads as empty and keeps that cell after clear; on a 3 x 2 grid `isEmpty` throws | loop over the column's height | not executed | GridLists.ColumnLoopBoundMisses | GridLists.ColumnList.IsEmpty |
| src/com/stackexchange/puzzling/user/mordechai/mosaic/Mosaic.java:110-115 | `fromCSV` passes each line to `parseLineAsCSV`, which returns null for a blank line, and the null list is dereferenced | "1,2" followed by a line break throws a NullPointerException, though "1,2" reads as a 1 x 2 mosaic | a blank line reads as a row of default clues | not executed | Mosaics.CsvTrailingLineBreak | Mosaics.FromCsv |
