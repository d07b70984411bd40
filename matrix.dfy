/** Matrix.java: the shared storage behind a grid and all of its views, one Cell per position. */
module Matrices {
  import opened Wrappers
  import opened Cells

  class Matrix<T> {
    const width: nat
    const height: nat
    /** cells[x, y], as Java's Cell<T>[width][height]. */
    const cells: array2<Cell?<T>>
    /** Every cell the matrix owns. */
    ghost const CellSet: set<Cell<T>>

    /** The array has the constructor's dimensions and cell [x, y] is an owned cell created for (x, y). */
    ghost predicate Valid()
      reads cells
    {
      && cells.Length0 == width
      && cells.Length1 == height
      && forall i, j :: 0 <= i < width && 0 <= j < height ==>
           cells[i, j] != null && cells[i, j] in CellSet && cells[i, j].x == i && cells[i, j].y == j
    }

    predicate InRange(x: int, y: int)
    {
      0 <= x < width && 0 <= y < height
    }

    /** The datum stored at (x, y). */
    ghost function At(x: int, y: int): Option<T>
      requires Valid() && InRange(x, y)
      reads cells, CellSet
    {
      cells[x, y].data
    }

    /** new Matrix(width, height): width * height fresh cells, cell [x, y] made for (x, y), all holding null. */
    constructor (width: nat, height: nat)
      ensures Valid() && fresh(cells) && fresh(CellSet)
      ensures this.width == width && this.height == height
      ensures forall x, y :: InRange(x, y) ==> At(x, y) == None
    {
      var a := new Cell?<T>[width, height];
      ghost var owned: set<Cell<T>> := {};
      for i := 0 to width
        invariant fresh(owned)
        invariant forall i', j :: 0 <= i' < i && 0 <= j < height ==>
          a[i', j] != null && a[i', j] in owned && a[i', j].x == i' && a[i', j].y == j && a[i', j].data == None
      {
        for j := 0 to height
          invariant fresh(owned)
          invariant forall i', j' :: 0 <= i' < i && 0 <= j' < height ==>
            a[i', j'] != null && a[i', j'] in owned && a[i', j'].x == i' && a[i', j'].y == j' && a[i', j'].data == None
          invariant forall j' :: 0 <= j' < j ==>
            a[i, j'] != null && a[i, j'] in owned && a[i, j'].x == i && a[i, j'].y == j' && a[i, j'].data == None
        {
          var c := new Cell<T>(i, j);
          a[i, j] := c;
          owned := owned + {c};
        }
      }
      this.width, this.height := width, height;
      cells, CellSet := a, owned;
    }

    /** cellAt(x, y): null outside the matrix, otherwise the cell created for (x, y). */
    function CellAt(x: int, y: int): (c: Cell?<T>)
      requires Valid()
      reads cells
      ensures c == null <==> !InRange(x, y)
      ensures c != null ==> c in CellSet && c.x == x && c.y == y
    {
      if x < 0 || x >= width || y < 0 || y >= height then null else cells[x, y]
    }

    /** hasCellAt(x, y) holds exactly inside the matrix. */
    function HasCellAt(x: int, y: int): (b: bool)
      requires Valid()
      reads cells
      ensures b <==> InRange(x, y)
    {
      CellAt(x, y) != null
    }

    /** Distinct positions hold distinct cells, so a write to one cell is invisible at every other position. */
    lemma CellsDistinct(x: int, y: int, x': int, y': int)
      requires Valid() && InRange(x, y) && InRange(x', y') && (x, y) != (x', y')
      ensures cells[x, y] != cells[x', y']
    {
    }
  }
}
