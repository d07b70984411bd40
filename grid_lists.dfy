/**
 * The list views of a grid (GridList.java, RowList.java, ColumnList.java): lists whose reads and
 * writes go straight through to the grid's cells.
 */
module GridLists {
  import opened Wrappers
  import opened Grids

  /** What a loop "for i < bound: if get(i) != null return false; return true" gives over a list
      whose indices run below |s| (a get at or past |s| throws). */
  function ScanEmpty<U>(s: seq<Option<U>>, bound: nat, i: nat): Result<bool, GridError>
    decreases bound - i
  {
    if i >= bound then Success(true)
    else if i >= |s| then Failure(IndexOutOfBounds)
    else if s[i] != None then Success(false)
    else ScanEmpty(s, bound, i + 1)
  }

  /** The scan answers false at the first non-null element below both bounds, otherwise throws when
      the bound passes the end, and otherwise answers true. */
  lemma {:induction false} ScanEmptyMeaning<U>(s: seq<Option<U>>, bound: nat, i: nat)
    ensures ScanEmpty(s, bound, i) ==
      if exists j :: i <= j < bound && j < |s| && s[j] != None then Success(false)
      else if bound > |s| && i < bound then Failure(IndexOutOfBounds)
      else Success(true)
    decreases bound - i
  {
    if i < bound && i < |s| && s[i] == None {
      ScanEmptyMeaning(s, bound, i + 1);
      assert (exists j :: i <= j < bound && j < |s| && s[j] != None) <==>
             (exists j :: i + 1 <= j < bound && j < |s| && s[j] != None) by {
        forall j | i <= j < bound && j < |s| && s[j] != None
          ensures i + 1 <= j
        {
        }
      }
    } else if i < bound && i < |s| {
      assert s[i] != None;
    }
  }

  /** When the bound is the length, the scan is "every element is null". */
  lemma ScanEmptyOverAll<U>(s: seq<Option<U>>)
    ensures ScanEmpty(s, |s|, 0) == Success(forall j :: 0 <= j < |s| ==> s[j] == None)
  {
    ScanEmptyMeaning(s, |s|, 0);
  }

  /** What a loop "for i < bound: set(i, null)" leaves in a list of length |s|: the elements below
      the bound are null, the rest untouched (the set at |s| throws and ends the loop). */
  function Cleared<U>(s: seq<Option<U>>, bound: nat): (c: seq<Option<U>>)
    ensures |c| == |s|
  {
    seq(|s|, j requires 0 <= j < |s| => if j < bound then None else s[j])
  }

  /** The bound that isEmpty/clear loop to in ColumnList is the grid width rather than the column
      length, and on a grid 1 wide and 2 high it reports a non-empty column as empty and leaves
      the column's second cell uncleared. */
  lemma ColumnLoopBoundMisses()
    ensures ScanEmpty([None, Some(7)], 1, 0) == Success(true)
    ensures Cleared([Some(7), Some(7)], 1) == [None, Some(7)]
    ensures ScanEmpty<int>([None, None], 3, 0) == Failure(IndexOutOfBounds)
  {
    assert Cleared([Some(7), Some(7)], 1)[1] == Some(7);
  }

  /** With the column length as the bound, clear empties the whole column. */
  lemma ClearedOverAll<U>(s: seq<Option<U>>)
    ensures forall j :: 0 <= j < |s| ==> Cleared(s, |s|)[j] == None
  {
  }

  /** GridList: the grid as a list in row-major order. */
  class GridList<T> {
    const grid: Grid<T>

    constructor (grid: Grid<T>)
      ensures this.grid == grid
    {
      this.grid := grid;
    }

    /** get(index): the row-major element, or IndexOutOfBoundsException. */
    function Get(index: int): (r: Result<Option<T>, GridError>)
      requires grid.Valid()
      reads grid.matrix.cells, grid.matrix.CellSet
      ensures r.Success? <==> 0 <= index < |grid.Elements()|
      ensures r.Success? ==> r.value == grid.Elements()[index]
      ensures r.Failure? ==> r.error == IndexOutOfBounds
    {
      grid.GetLinear(index)
    }

    /** size(): the grid's length. */
    function Size(): (n: nat)
      requires grid.Valid()
      reads grid.matrix.cells, grid.matrix.CellSet
      ensures n == |grid.Elements()| == grid.width * grid.height
    {
      grid.Length()
    }

    /** set(index, data): stores data at the index and returns what was there. */
    method Set(index: int, data: Option<T>) returns (r: Result<Option<T>, GridError>)
      requires grid.Valid()
      modifies grid.Repr()
      ensures r.Success? <==> 0 <= index < grid.Length()
      ensures r.Success? ==> r.value == old(grid.Elements())[index] && grid.Elements() == old(grid.Elements())[index := data]
      ensures r.Failure? ==> grid.Elements() == old(grid.Elements())
    {
      r := Get(index);
      if r.Success? {
        var _ := grid.SetLinear(index, data);
      }
    }

    /** clear(): every cell of the grid becomes null, after which isEmpty() holds. */
    method Clear()
      requires grid.Valid()
      modifies grid.Repr()
      ensures forall k :: 0 <= k < grid.Length() ==> grid.Elements()[k] == None
    {
      grid.Clear();
      grid.AllNone();
    }

    /** isEmpty(): whether every element is null. */
    method IsEmpty() returns (b: bool)
      requires grid.Valid()
      ensures b <==> forall k :: 0 <= k < grid.Length() ==> grid.Elements()[k] == None
    {
      b := grid.IsEmpty();
      grid.AllNone();
    }
  }

  /** RowList: row y of the grid. */
  class RowList<T> {
    const grid: Grid<T>
    const y: int

    /** Grid.row(y) checks the row before it builds the list. */
    constructor (grid: Grid<T>, y: int)
      requires 0 <= y < grid.height
      ensures this.grid == grid && this.y == y
    {
      this.grid := grid;
      this.y := y;
    }

    /** The cells of the row, left to right. */
    ghost function Contents(): (s: seq<Option<T>>)
      requires grid.Valid() && 0 <= y < grid.height
      reads grid.matrix.cells, grid.matrix.CellSet
      ensures |s| == grid.width
    {
      seq(grid.width, i requires 0 <= i < grid.width && grid.Valid() && 0 <= y < grid.height
                        reads grid.matrix.cells, grid.matrix.CellSet => grid.At(i, y))
    }

    /** get(x) = grid.get(x, y). */
    function Get(x: int): (r: Result<Option<T>, GridError>)
      requires grid.Valid() && 0 <= y < grid.height
      reads grid.matrix.cells, grid.matrix.CellSet
      ensures r.Success? <==> 0 <= x < |Contents()|
      ensures r.Success? ==> r.value == Contents()[x]
    {
      grid.Get(x, y)
    }

    /** size() as written: the grid's height, which is the row's length only on a square grid. */
    function SizeAsWritten(): (n: nat)
      requires grid.Valid() && 0 <= y < grid.height
      reads grid.matrix.cells, grid.matrix.CellSet
      ensures n == grid.height
      ensures n == |Contents()| <==> grid.width == grid.height
    {
      grid.height
    }

    /** size() as intended: the number of cells in the row. */
    function Size(): (n: nat)
      requires grid.Valid() && 0 <= y < grid.height
      reads grid.matrix.cells, grid.matrix.CellSet
      ensures n == |Contents()|
    {
      grid.width
    }

    /** set(x, data): returns the old value and writes only (x, y). */
    method Set(x: int, data: Option<T>) returns (r: Result<Option<T>, GridError>)
      requires grid.Valid() && 0 <= y < grid.height
      modifies grid.Repr()
      ensures r.Success? <==> 0 <= x < grid.width
      ensures r.Success? ==> r.value == old(Contents())[x]
      ensures forall i, j :: grid.InRange(i, j) ==>
        grid.At(i, j) == if r.Success? && i == x && j == y then data else old(grid.At(i, j))
    {
      r := Get(x);
      if r.Success? {
        var _ := grid.Set(x, y, data);
      }
    }

    /** clear(): every cell of the row becomes null; the rest of the grid is unchanged. */
    method Clear()
      requires grid.Valid() && 0 <= y < grid.height
      modifies grid.Repr()
      ensures Contents() == Cleared(old(Contents()), grid.width)
      ensures forall i :: 0 <= i < grid.width ==> Contents()[i] == None
      ensures forall i, j :: grid.InRange(i, j) && j != y ==> grid.At(i, j) == old(grid.At(i, j))
    {
      for i := 0 to grid.width
        invariant forall k :: 0 <= k < grid.width ==> grid.At(k, y) == if k < i then None else old(grid.At(k, y))
        invariant forall a, b :: grid.InRange(a, b) && b != y ==> grid.At(a, b) == old(grid.At(a, b))
      {
        var _ := Set(i, None);
      }
    }

    /** isEmpty(): every cell of the row is null. */
    method IsEmpty() returns (b: bool)
      requires grid.Valid() && 0 <= y < grid.height
      ensures b <==> forall i :: 0 <= i < grid.width ==> Contents()[i] == None
    {
      for i := 0 to grid.width
        invariant forall k :: 0 <= k < i ==> Contents()[k] == None
      {
        if Get(i).value != None {
          return false;
        }
      }
      return true;
    }
  }

  /** ColumnList: column x of the grid. */
  class ColumnList<T> {
    const grid: Grid<T>
    const x: int

    /** Grid.column(x) checks the column before it builds the list. */
    constructor (grid: Grid<T>, x: int)
      requires 0 <= x < grid.width
      ensures this.grid == grid && this.x == x
    {
      this.grid := grid;
      this.x := x;
    }

    /** The cells of the column, top to bottom. */
    ghost function Contents(): (s: seq<Option<T>>)
      requires grid.Valid() && 0 <= x < grid.width
      reads grid.matrix.cells, grid.matrix.CellSet
      ensures |s| == grid.height
    {
      seq(grid.height, j requires 0 <= j < grid.height && grid.Valid() && 0 <= x < grid.width
                         reads grid.matrix.cells, grid.matrix.CellSet => grid.At(x, j))
    }

    /** get(y) = grid.get(x, y). */
    function Get(y: int): (r: Result<Option<T>, GridError>)
      requires grid.Valid() && 0 <= x < grid.width
      reads grid.matrix.cells, grid.matrix.CellSet
      ensures r.Success? <==> 0 <= y < |Contents()|
      ensures r.Success? ==> r.value == Contents()[y]
    {
      grid.Get(x, y)
    }

    /** size(): the grid's height, the column's length. */
    function Size(): (n: nat)
      requires grid.Valid() && 0 <= x < grid.width
      reads grid.matrix.cells, grid.matrix.CellSet
      ensures n == |Contents()|
    {
      grid.height
    }

    /** set(y, data): returns the old value and writes only (x, y). */
    method Set(y: int, data: Option<T>) returns (r: Result<Option<T>, GridError>)
      requires grid.Valid() && 0 <= x < grid.width
      modifies grid.Repr()
      ensures r.Success? <==> 0 <= y < grid.height
      ensures r.Success? ==> r.value == old(Contents())[y]
      ensures forall i, j :: grid.InRange(i, j) ==>
        grid.At(i, j) == if r.Success? && i == x && j == y then data else old(grid.At(i, j))
    {
      r := Get(y);
      if r.Success? {
        var _ := grid.Set(x, y, data);
      }
    }

    /** clear() as written: sets null at indices below the grid WIDTH. On a grid higher than wide
        the lower cells stay; on a grid wider than high the set past the column's end throws, after
        the whole column has been cleared. */
    method ClearAsWritten() returns (r: Outcome<GridError>)
      requires grid.Valid() && 0 <= x < grid.width
      modifies grid.Repr()
      ensures r.Fail? <==> grid.width > grid.height
      ensures Contents() == Cleared(old(Contents()), grid.width)
      ensures forall i, j :: grid.InRange(i, j) && i != x ==> grid.At(i, j) == old(grid.At(i, j))
    {
      for i := 0 to grid.width
        invariant i <= grid.height
        invariant forall k :: 0 <= k < grid.height ==> grid.At(x, k) == if k < i then None else old(grid.At(x, k))
        invariant forall a, b :: grid.InRange(a, b) && a != x ==> grid.At(a, b) == old(grid.At(a, b))
      {
        var s := Set(i, None);
        if s.Failure? {
          return Fail(s.error);
        }
      }
      r := Pass;
    }

    /** clear() as intended: sets null at every index of the column. */
    method Clear()
      requires grid.Valid() && 0 <= x < grid.width
      modifies grid.Repr()
      ensures forall j :: 0 <= j < grid.height ==> Contents()[j] == None
      ensures forall i, j :: grid.InRange(i, j) && i != x ==> grid.At(i, j) == old(grid.At(i, j))
    {
      for i := 0 to grid.height
        invariant forall k :: 0 <= k < grid.height ==> grid.At(x, k) == if k < i then None else old(grid.At(x, k))
        invariant forall a, b :: grid.InRange(a, b) && a != x ==> grid.At(a, b) == old(grid.At(a, b))
      {
        var _ := Set(i, None);
      }
    }

    /** isEmpty() as written: scans indices below the grid WIDTH (see ScanEmptyMeaning). */
    method IsEmptyAsWritten() returns (r: Result<bool, GridError>)
      requires grid.Valid() && 0 <= x < grid.width
      ensures r == ScanEmpty(Contents(), grid.width, 0)
    {
      for i := 0 to grid.width
        invariant ScanEmpty(Contents(), grid.width, 0) == ScanEmpty(Contents(), grid.width, i)
      {
        var g := Get(i);
        if g.Failure? {
          return Failure(g.error);
        }
        if g.value != None {
          return Success(false);
        }
      }
      r := Success(true);
    }

    /** isEmpty() as intended: every cell of the column is null. */
    method IsEmpty() returns (b: bool)
      requires grid.Valid() && 0 <= x < grid.width
      ensures b <==> forall j :: 0 <= j < grid.height ==> Contents()[j] == None
    {
      for i := 0 to grid.height
        invariant forall k :: 0 <= k < i ==> Contents()[k] == None
      {
        if Get(i).value != None {
          return false;
        }
      }
      return true;
    }
  }
}
