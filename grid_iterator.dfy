/**
 * The cursor over a grid (GridIterator.java). The cursor is a pair (x, y) that starts at (-1, -1),
 * before the first cell; every move changes it and then reads the cell under it. Reading a cell
 * first bumps a negative coordinate up by one, which is how the first move lands on row 0 or
 * column 0.
 */
module GridIterators {
  import opened Wrappers
  import opened Grids

  /** NoSuchElementException, IndexOutOfBoundsException and the NullPointerException of reading a
      position outside the grid. */
  datatype IterError = NoSuchElement | IndexOutOfRange | NullPointer

  /** A cursor position. */
  datatype Cursor = Cursor(x: int, y: int)
  {
    predicate HasUp() { y > 0 }
    predicate HasRight(w: int) { x < w - 1 }
    predicate HasDown(h: int) { y < h - 1 }
    predicate HasLeft() { x > 0 }
    predicate HasNext(w: int, h: int) { HasRight(w) || HasDown(h) }
    predicate HasPrevious() { HasLeft() || HasUp() }
    predicate IsRowEnd(w: int) { !HasRight(w) }
    predicate IsColumnEnd(h: int) { !HasDown(h) }
    predicate Inside(w: int, h: int) { 0 <= x < w && 0 <= y < h }

    /** What getCell does before its lookup: a negative coordinate moves up by one. */
    function Bumped(): Cursor
    {
      Cursor(if x < 0 then x + 1 else x, if y < 0 then y + 1 else y)
    }
  }

  /** The position of a fresh iterator. */
  const Start := Cursor(-1, -1)

  /** The moves of the iterator, one per public moving method. */
  datatype Move =
    | Up | Right | Down | Left
    | NextRow | PreviousRow | PreviousRowEnd
    | NextColumn | PreviousColumn | PreviousColumnEnd
    | RowEnd | RowStart | ColumnEnd | ColumnStart

  /** The position a move sets, before the read that follows it; None when it throws
      NoSuchElementException (and the position is then unchanged). */
  function Moved(m: Move, c: Cursor, w: int, h: int, wrapping: bool): Option<Cursor>
  {
    match m
    case Up => if c.HasUp() then Some(c.(y := c.y - 1)) else if wrapping then Some(c.(y := h)) else None
    case Right => if c.HasRight(w) then Some(c.(x := c.x + 1)) else if wrapping then Some(c.(x := 0)) else None
    case Down => if c.HasDown(h) then Some(c.(y := c.y + 1)) else if wrapping then Some(c.(y := 0)) else None
    case Left => if c.HasLeft() then Some(c.(x := c.x - 1)) else if wrapping then Some(c.(x := w)) else None
    case NextRow => if c.HasDown(h) then Some(Cursor(0, c.y + 1)) else None
    case PreviousRow => if c.HasUp() then Some(Cursor(0, c.y - 1)) else None
    case PreviousRowEnd => if c.HasUp() then Some(Cursor(w, c.y - 1)) else None
    case NextColumn => if c.HasRight(w) then Some(Cursor(c.x + 1, 0)) else None
    case PreviousColumn => if c.HasLeft() then Some(Cursor(c.x - 1, 0)) else None
    case PreviousColumnEnd => if c.HasLeft() then Some(Cursor(c.x - 1, h)) else None
    case RowEnd => Some(c.(x := w))
    case RowStart => Some(c.(x := 0))
    case ColumnEnd => Some(c.(y := h))
    case ColumnStart => Some(c.(y := 0))
  }

  /** The move next() makes: along the row (or column), else to the start of the next one. */
  function NextMove(c: Cursor, w: int, h: int, byRow: bool): Move
  {
    if byRow then (if c.HasRight(w) then Right else NextRow)
    else (if c.HasDown(h) then Down else NextColumn)
  }

  /** The move previous() makes. */
  function PreviousMove(c: Cursor, w: int, h: int, byRow: bool): Move
  {
    if byRow then (if c.HasLeft() then Left else PreviousRowEnd)
    else (if c.HasUp() then Up else PreviousColumnEnd)
  }

  /** The position after one next() and the read it makes; None when next() throws. */
  function Advanced(c: Cursor, w: int, h: int, byRow: bool): Option<Cursor>
  {
    match Moved(NextMove(c, w, h, byRow), c, w, h, false)
    case None => None
    case Some(d) => Some(d.Bumped())
  }

  /** The position after k calls of next() on a fresh iterator; None once one of them has thrown. */
  function Walk(k: nat, w: int, h: int, byRow: bool): Option<Cursor>
  {
    if k == 0 then Some(Start)
    else match Walk(k - 1, w, h, byRow)
      case None => None
      case Some(c) => Advanced(c, w, h, byRow)
  }

  /** next() never wraps: the wrapping flag plays no part in it. */
  lemma NextIgnoresWrapping(c: Cursor, w: int, h: int, byRow: bool)
    ensures Moved(NextMove(c, w, h, byRow), c, w, h, true) == Moved(NextMove(c, w, h, byRow), c, w, h, false)
    ensures Moved(NextMove(c, w, h, byRow), c, w, h, false).None? <==> !c.HasNext(w, h)
  {
  }

  /** Without wrapping, a step off an edge throws; with wrapping, right from the row end goes to
      x = 0 of the same row and down from the column end to y = 0 of the same column. */
  lemma EdgeMoves(c: Cursor, w: int, h: int)
    ensures Moved(Up, c, w, h, false).None? <==> !c.HasUp()
    ensures Moved(Right, c, w, h, false).None? <==> c.IsRowEnd(w)
    ensures Moved(Down, c, w, h, false).None? <==> c.IsColumnEnd(h)
    ensures Moved(Left, c, w, h, false).None? <==> !c.HasLeft()
    ensures c.IsRowEnd(w) ==> Moved(Right, c, w, h, true) == Some(Cursor(0, c.y))
    ensures c.IsColumnEnd(h) ==> Moved(Down, c, w, h, true) == Some(Cursor(c.x, 0))
  {
  }

  /** From a cell of the grid, each step that does not throw lands on a cell of the grid again,
      except the ones that go one past the last column or row (left or up with wrapping, the
      "end" moves). */
  lemma StepsStayInside(m: Move, c: Cursor, w: int, h: int, wrapping: bool)
    requires c.Inside(w, h)
    requires m !in {RowEnd, ColumnEnd, PreviousRowEnd, PreviousColumnEnd}
    requires !(wrapping && m in {Up, Left})
    ensures Moved(m, c, w, h, wrapping).Some? ==> Moved(m, c, w, h, wrapping).value.Inside(w, h)
  {
  }

  /** The first call of next() on a w x h grid (w, h >= 1) lands on (0, 0) in either order. */
  lemma FirstNext(w: int, h: int, byRow: bool)
    requires w >= 1 && h >= 1
    ensures Walk(1, w, h, byRow) == Some(Cursor(0, 0))
  {
  }

  /** The cell at row-major index k has a successor exactly when k is not the last index. */
  lemma HasNextUnlessLast(w: nat, h: nat, k: nat)
    requires w >= 1 && h >= 1 && k < w * h
    ensures Cursor(XOf(k, w), YOf(k, w)).HasNext(w, h) <==> k + 1 < w * h
  {
    LinearToXY(k, w, h);
    assert (h - 1) * w + (w - 1) + 1 == h * w by {
      assert (h - 1) * w == h * w - w;
    }
    assert w * h == h * w;
    if k + 1 == w * h {
      DivModUnique(k, w, h - 1, w - 1);
    }
  }

  /** One next() in row-major order takes the cell at index k - 1 to the cell at index k. */
  lemma RowMajorStep(w: nat, h: nat, k: nat)
    requires w >= 1 && h >= 1 && 1 <= k < w * h
    ensures Advanced(Cursor(XOf(k - 1, w), YOf(k - 1, w)), w, h, true) == Some(Cursor(XOf(k, w), YOf(k, w)))
  {
    LinearToXY(k - 1, w, h);
    var px, py := XOf(k - 1, w), YOf(k - 1, w);
    assert k == py * w + px + 1;
    if px < w - 1 {
      DivModUnique(k, w, py, px + 1);
    } else {
      assert k == (py + 1) * w + 0;
      DivModUnique(k, w, py + 1, 0);
      LinearToXY(k, w, h);
    }
  }

  /** Row-major order: the k-th next() (counting from 0) lands on (k % w, k / w), and hasNext is
      false exactly after the last cell. */
  lemma {:induction false} RowMajorWalk(w: nat, h: nat, k: nat)
    requires w >= 1 && h >= 1 && k < w * h
    ensures Walk(k + 1, w, h, true) == Some(Cursor(XOf(k, w), YOf(k, w)))
    ensures Cursor(XOf(k, w), YOf(k, w)).HasNext(w, h) <==> k + 1 < w * h
  {
    HasNextUnlessLast(w, h, k);
    if k == 0 {
      FirstNext(w, h, true);
    } else {
      RowMajorWalk(w, h, k - 1);
      RowMajorStep(w, h, k);
    }
  }

  /** Row-major order visits every cell exactly once: cell (x, y) is the k-th, k = y * w + x, and
      distinct calls land on distinct cells. */
  lemma RowMajorVisitsEachCellOnce(w: nat, h: nat, x: int, y: int, k1: nat, k2: nat)
    requires w >= 1 && h >= 1
    ensures 0 <= x < w && 0 <= y < h ==> Walk(LinearOf(x, y, w) + 1, w, h, true) == Some(Cursor(x, y))
    ensures k1 < k2 < w * h ==> Walk(k1 + 1, w, h, true) != Walk(k2 + 1, w, h, true)
  {
    if 0 <= x < w && 0 <= y < h {
      XYToLinear(x, y, w, h);
      RowMajorWalk(w, h, LinearOf(x, y, w));
    }
    if k1 < k2 < w * h {
      RowMajorWalk(w, h, k1);
      RowMajorWalk(w, h, k2);
      LinearToXY(k1, w, h);
      LinearToXY(k2, w, h);
    }
  }

  /** After the last cell, next() throws. */
  lemma RowMajorEnds(w: nat, h: nat)
    requires w >= 1 && h >= 1
    ensures Walk(w * h + 1, w, h, true) == None
  {
    RowMajorWalk(w, h, w * h - 1);
  }

  /** The cursor with its coordinates swapped. */
  function Transposed(c: Cursor): Cursor
  {
    Cursor(c.y, c.x)
  }

  /** A column-major walk over w x h is the transpose of a row-major walk over h x w. */
  lemma {:induction false} ColumnWalkIsTransposedRowWalk(w: int, h: int, k: nat)
    ensures Walk(k, w, h, false) == (match Walk(k, h, w, true) case None => None case Some(c) => Some(Transposed(c)))
  {
    if k > 0 {
      ColumnWalkIsTransposedRowWalk(w, h, k - 1);
    }
  }

  /** Column-major order: the k-th next() lands on (k / h, k % h), moving down a column and then to
      the top of the next one. */
  lemma ColumnMajorWalk(w: nat, h: nat, k: nat)
    requires w >= 1 && h >= 1 && k < w * h
    ensures Walk(k + 1, w, h, false) == Some(Cursor(YOf(k, h), XOf(k, h)))
    ensures Cursor(YOf(k, h), XOf(k, h)).HasNext(w, h) <==> k + 1 < w * h
  {
    assert w * h == h * w;
    RowMajorWalk(h, w, k);
    ColumnWalkIsTransposedRowWalk(w, h, k + 1);
  }

  /** GridIterator: a cursor over one grid, in row or column order, with or without wrapping. */
  class GridIterator<T> {
    const grid: Grid<T>
    var x: int
    var y: int
    var byRow: bool
    var wrapping: bool

    function Position(): Cursor
      reads this
    {
      Cursor(x, y)
    }

    /** What reading the cell at c gives: its datum, or a NullPointerException off the grid. */
    ghost function Read(c: Cursor): Result<Option<T>, IterError>
      requires grid.Valid()
      reads grid.matrix.cells, grid.matrix.CellSet
    {
      if grid.InRange(c.x, c.y) then Success(grid.At(c.x, c.y)) else Failure(NullPointer)
    }

    constructor (grid: Grid<T>, byRow: bool, wrapping: bool)
      ensures this.grid == grid && Position() == Start
      ensures this.byRow == byRow && this.wrapping == wrapping
    {
      this.grid := grid;
      x, y := -1, -1;
      this.byRow, this.wrapping := byRow, wrapping;
    }

    /** new GridIterator(grid): row-major, not wrapping. */
    constructor Of(grid: Grid<T>)
      ensures this.grid == grid && Position() == Start && byRow && !wrapping
    {
      this.grid := grid;
      x, y := -1, -1;
      byRow, wrapping := true, false;
    }

    function HasNext(): (b: bool)
      reads this
      ensures b <==> Position().HasNext(grid.width, grid.height)
    {
      x < grid.width - 1 || y < grid.height - 1
    }

    function HasPrevious(): (b: bool)
      reads this
      ensures b <==> Position().HasPrevious()
    {
      x > 0 || y > 0
    }

    /** isRowEnd(): there is no cell to the right. */
    function IsRowEnd(): (b: bool)
      reads this
      ensures b <==> x >= grid.width - 1
    {
      !(x < grid.width - 1)
    }

    /** isColumnEnd(): there is no cell below. */
    function IsColumnEnd(): (b: bool)
      reads this
      ensures b <==> y >= grid.height - 1
    {
      !(y < grid.height - 1)
    }

    /** get(): bumps a negative coordinate, then reads the cell under the cursor. */
    method Get() returns (r: Result<Option<T>, IterError>)
      requires grid.Valid()
      modifies this
      ensures Position() == old(Position()).Bumped() && byRow == old(byRow) && wrapping == old(wrapping)
      ensures r == Read(Position())
    {
      if x < 0 {
        x := x + 1;
      }
      if y < 0 {
        y := y + 1;
      }
      var g := grid.Get(x, y);
      r := if g.Success? then Success(g.value) else Failure(NullPointer);
    }

    /** set(data): bumps like get(), then writes data to the cell under the cursor and nowhere else. */
    method Set(data: Option<T>) returns (r: Outcome<IterError>)
      requires grid.Valid()
      modifies this, grid.Repr()
      ensures Position() == old(Position()).Bumped() && byRow == old(byRow) && wrapping == old(wrapping)
      ensures r.Pass? <==> grid.InRange(x, y)
      ensures r.Fail? ==> r.error == NullPointer
      ensures forall i, j :: grid.matrix.InRange(i, j) ==>
        grid.matrix.At(i, j) == if r.Pass? && i == grid.ox + x && j == grid.oy + y then data else old(grid.matrix.At(i, j))
    {
      if x < 0 {
        x := x + 1;
      }
      if y < 0 {
        y := y + 1;
      }
      var s := grid.Set(x, y, data);
      r := if s.Pass? then Pass else Fail(NullPointer);
    }

    /** The common shape of every move: on NoSuchElementException the cursor stays, otherwise it
        takes the moved position and get() reads there. */
    method Go(m: Move) returns (r: Result<Option<T>, IterError>)
      requires grid.Valid()
      modifies this
      ensures byRow == old(byRow) && wrapping == old(wrapping)
      ensures Moved(m, old(Position()), grid.width, grid.height, wrapping).None? ==>
        Position() == old(Position()) && r == Failure(NoSuchElement)
      ensures Moved(m, old(Position()), grid.width, grid.height, wrapping).Some? ==>
        Position() == Moved(m, old(Position()), grid.width, grid.height, wrapping).value.Bumped()
        && r == Read(Position())
    {
      var moved := Moved(m, Position(), grid.width, grid.height, wrapping);
      if moved.None? {
        return Failure(NoSuchElement);
      }
      x, y := moved.value.x, moved.value.y;
      r := Get();
    }

    method MoveUp() returns (r: Result<Option<T>, IterError>)
      requires grid.Valid()
      modifies this
      ensures byRow == old(byRow) && wrapping == old(wrapping)
      ensures old(!Position().HasUp() && !wrapping) ==> Position() == old(Position()) && r == Failure(NoSuchElement)
      ensures old(Position().HasUp()) ==> Position() == old(Position()).(y := old(y) - 1).Bumped() && r == Read(Position())
      ensures old(!Position().HasUp() && wrapping) ==> Position() == old(Position()).(y := grid.height).Bumped()
    {
      r := Go(Up);
    }

    method MoveRight() returns (r: Result<Option<T>, IterError>)
      requires grid.Valid()
      modifies this
      ensures byRow == old(byRow) && wrapping == old(wrapping)
      ensures old(Position().IsRowEnd(grid.width) && !wrapping) ==> Position() == old(Position()) && r == Failure(NoSuchElement)
      ensures old(Position().HasRight(grid.width)) ==> Position() == old(Position()).(x := old(x) + 1).Bumped() && r == Read(Position())
      ensures old(Position().IsRowEnd(grid.width) && wrapping) ==> Position() == old(Position()).(x := 0).Bumped() && r == Read(Position())
    {
      r := Go(Right);
    }

    method MoveDown() returns (r: Result<Option<T>, IterError>)
      requires grid.Valid()
      modifies this
      ensures byRow == old(byRow) && wrapping == old(wrapping)
      ensures old(Position().IsColumnEnd(grid.height) && !wrapping) ==> Position() == old(Position()) && r == Failure(NoSuchElement)
      ensures old(Position().HasDown(grid.height)) ==> Position() == old(Position()).(y := old(y) + 1).Bumped() && r == Read(Position())
      ensures old(Position().IsColumnEnd(grid.height) && wrapping) ==> Position() == old(Position()).(y := 0).Bumped() && r == Read(Position())
    {
      r := Go(Down);
    }

    method MoveLeft() returns (r: Result<Option<T>, IterError>)
      requires grid.Valid()
      modifies this
      ensures byRow == old(byRow) && wrapping == old(wrapping)
      ensures old(!Position().HasLeft() && !wrapping) ==> Position() == old(Position()) && r == Failure(NoSuchElement)
      ensures old(Position().HasLeft()) ==> Position() == old(Position()).(x := old(x) - 1).Bumped() && r == Read(Position())
      ensures old(!Position().HasLeft() && wrapping) ==> Position() == old(Position()).(x := grid.width).Bumped()
    {
      r := Go(Left);
    }

    method MoveNextRow() returns (r: Result<Option<T>, IterError>)
      requires grid.Valid()
      modifies this
      ensures byRow == old(byRow) && wrapping == old(wrapping)
      ensures old(Position().IsColumnEnd(grid.height)) ==> Position() == old(Position()) && r == Failure(NoSuchElement)
      ensures old(Position().HasDown(grid.height)) ==> Position() == Cursor(0, old(y) + 1).Bumped() && r == Read(Position())
    {
      r := Go(NextRow);
    }

    method MovePreviousRow() returns (r: Result<Option<T>, IterError>)
      requires grid.Valid()
      modifies this
      ensures byRow == old(byRow) && wrapping == old(wrapping)
      ensures old(!Position().HasUp()) ==> Position() == old(Position()) && r == Failure(NoSuchElement)
      ensures old(Position().HasUp()) ==> Position() == Cursor(0, old(y) - 1) && r == Read(Position())
    {
      r := Go(PreviousRow);
    }

    /** previousRowEnd(): moves to x = width, one past the last cell of the row above. */
    method MovePreviousRowEnd() returns (r: Result<Option<T>, IterError>)
      requires grid.Valid()
      modifies this
      ensures byRow == old(byRow) && wrapping == old(wrapping)
      ensures old(!Position().HasUp()) ==> Position() == old(Position()) && r == Failure(NoSuchElement)
      ensures old(Position().HasUp()) ==> Position() == Cursor(grid.width, old(y) - 1).Bumped() && r == Read(Position())
    {
      r := Go(PreviousRowEnd);
    }

    method MoveNextColumn() returns (r: Result<Option<T>, IterError>)
      requires grid.Valid()
      modifies this
      ensures byRow == old(byRow) && wrapping == old(wrapping)
      ensures old(Position().IsRowEnd(grid.width)) ==> Position() == old(Position()) && r == Failure(NoSuchElement)
      ensures old(Position().HasRight(grid.width)) ==> Position() == Cursor(old(x) + 1, 0).Bumped() && r == Read(Position())
    {
      r := Go(NextColumn);
    }

    method MovePreviousColumn() returns (r: Result<Option<T>, IterError>)
      requires grid.Valid()
      modifies this
      ensures byRow == old(byRow) && wrapping == old(wrapping)
      ensures old(!Position().HasLeft()) ==> Position() == old(Position()) && r == Failure(NoSuchElement)
      ensures old(Position().HasLeft()) ==> Position() == Cursor(old(x) - 1, 0) && r == Read(Position())
    {
      r := Go(PreviousColumn);
    }

    /** previousColumnEnd(): moves to y = height, one past the last cell of the column to the left. */
    method MovePreviousColumnEnd() returns (r: Result<Option<T>, IterError>)
      requires grid.Valid()
      modifies this
      ensures byRow == old(byRow) && wrapping == old(wrapping)
      ensures old(!Position().HasLeft()) ==> Position() == old(Position()) && r == Failure(NoSuchElement)
      ensures old(Position().HasLeft()) ==> Position() == Cursor(old(x) - 1, grid.height).Bumped() && r == Read(Position())
    {
      r := Go(PreviousColumnEnd);
    }

    /** rowEnd(): x = width, one past the last cell of the row. */
    method MoveRowEnd() returns (r: Result<Option<T>, IterError>)
      requires grid.Valid()
      modifies this
      ensures byRow == old(byRow) && wrapping == old(wrapping)
      ensures Position() == old(Position()).(x := grid.width).Bumped() && r == Read(Position())
    {
      r := Go(RowEnd);
    }

    method MoveRowStart() returns (r: Result<Option<T>, IterError>)
      requires grid.Valid()
      modifies this
      ensures byRow == old(byRow) && wrapping == old(wrapping)
      ensures Position() == old(Position()).(x := 0).Bumped() && r == Read(Position())
    {
      r := Go(RowStart);
    }

    /** columnEnd(): y = height, one past the last cell of the column. */
    method MoveColumnEnd() returns (r: Result<Option<T>, IterError>)
      requires grid.Valid()
      modifies this
      ensures byRow == old(byRow) && wrapping == old(wrapping)
      ensures Position() == old(Position()).(y := grid.height).Bumped() && r == Read(Position())
    {
      r := Go(ColumnEnd);
    }

    method MoveColumnStart() returns (r: Result<Option<T>, IterError>)
      requires grid.Valid()
      modifies this
      ensures byRow == old(byRow) && wrapping == old(wrapping)
      ensures Position() == old(Position()).(y := 0).Bumped() && r == Read(Position())
    {
      r := Go(ColumnStart);
    }

    /** jump(x, y): IndexOutOfBoundsException off the grid (cursor unchanged), else moves there. */
    method Jump(x: int, y: int) returns (r: Result<Option<T>, IterError>)
      requires grid.Valid()
      modifies this
      ensures byRow == old(byRow) && wrapping == old(wrapping)
      ensures !grid.InRange(x, y) ==> Position() == old(Position()) && r == Failure(IndexOutOfRange)
      ensures grid.InRange(x, y) ==> Position() == Cursor(x, y) && r == Success(grid.At(x, y))
    {
      if x < 0 || x >= grid.width || y < 0 || y >= grid.height {
        return Failure(IndexOutOfRange);
      }
      this.x, this.y := x, y;
      r := Get();
    }

    /** jumpRow(y): jump(x, y) keeping the column. */
    method JumpRow(y: int) returns (r: Result<Option<T>, IterError>)
      requires grid.Valid()
      modifies this
      ensures byRow == old(byRow) && wrapping == old(wrapping)
      ensures !grid.InRange(old(x), y) ==> Position() == old(Position()) && r == Failure(IndexOutOfRange)
      ensures grid.InRange(old(x), y) ==> Position() == Cursor(old(x), y) && r == Success(grid.At(old(x), y))
    {
      r := Jump(x, y);
    }

    /** jumpColumn(x): jump(x, y) keeping the row. */
    method JumpColumn(x: int) returns (r: Result<Option<T>, IterError>)
      requires grid.Valid()
      modifies this
      ensures byRow == old(byRow) && wrapping == old(wrapping)
      ensures !grid.InRange(x, old(y)) ==> Position() == old(Position()) && r == Failure(IndexOutOfRange)
      ensures grid.InRange(x, old(y)) ==> Position() == Cursor(x, old(y)) && r == Success(grid.At(x, old(y)))
    {
      r := Jump(x, y);
    }

    /** next(): the position after it is the one Advanced describes; it throws exactly when
        hasNext() is false. */
    method Next() returns (r: Result<Option<T>, IterError>)
      requires grid.Valid()
      modifies this
      ensures byRow == old(byRow) && wrapping == old(wrapping)
      ensures old(!HasNext()) ==> Position() == old(Position()) && r == Failure(NoSuchElement)
      ensures old(HasNext()) ==>
        Some(Position()) == Advanced(old(Position()), grid.width, grid.height, byRow) && r == Read(Position())
    {
      NextIgnoresWrapping(Position(), grid.width, grid.height, byRow);
      r := Go(NextMove(Position(), grid.width, grid.height, byRow));
    }

    /** previous(): left (or up), else to one past the end of the previous row (or column). */
    method Previous() returns (r: Result<Option<T>, IterError>)
      requires grid.Valid()
      modifies this
      ensures byRow == old(byRow) && wrapping == old(wrapping)
      ensures old(!HasPrevious()) ==> Position() == old(Position()) && r == Failure(NoSuchElement)
      ensures old(HasPrevious()) ==>
        Position() == Moved(PreviousMove(old(Position()), grid.width, grid.height, byRow), old(Position()), grid.width, grid.height, wrapping).value.Bumped()
        && r == Read(Position())
    {
      r := Go(PreviousMove(Position(), grid.width, grid.height, byRow));
    }

    method SetByRow(b: bool)
      modifies this
      ensures byRow == b && Position() == old(Position()) && wrapping == old(wrapping)
    {
      byRow := b;
    }

    method SetWrapping(b: bool)
      modifies this
      ensures wrapping == b && Position() == old(Position()) && byRow == old(byRow)
    {
      wrapping := b;
    }
  }
}
