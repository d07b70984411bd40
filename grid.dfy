/** Grid.java: a rectangular window onto a shared Matrix. A grid made with new Grid(w, h) owns a fresh
    matrix; view and getSurroundingCells return grids over the same matrix at an offset, so a write
    through a view is a write to its parent. */
module Grids {
  import opened Wrappers
  import opened Cells
  import opened Matrices
  import opened GridStrings

  /** The exceptions the grid library throws. */
  datatype GridError = IndexOutOfBounds | IllegalArgument

  /** toX: the column of row-major index i. */
  function XOf(i: int, w: nat): int
    requires w > 0
  {
    i % w
  }

  /** toY: the row of row-major index i. */
  function YOf(i: int, w: nat): int
    requires w > 0
  {
    i / w
  }

  /** toLinear: the row-major index of (x, y). */
  function LinearOf(x: int, y: int, w: nat): int
  {
    y * w + x
  }

  /** Every index below w * h names a cell, and toLinear(toX(i), toY(i)) == i. */
  lemma LinearToXY(i: int, w: nat, h: nat)
    requires 0 <= i < w * h
    ensures w > 0 && 0 <= XOf(i, w) < w && 0 <= YOf(i, w) < h
    ensures LinearOf(XOf(i, w), YOf(i, w), w) == i
  {
    var q, r := i / w, i % w;
    assert i == q * w + r;
    if q >= h {
      assert q * w >= h * w by { MulMono(h, q, w); }
    }
  }

  /** Every cell has an index below w * h, and toX/toY recover its coordinates. */
  lemma XYToLinear(x: int, y: int, w: nat, h: nat)
    requires 0 <= x < w && 0 <= y < h
    ensures 0 <= LinearOf(x, y, w) < w * h
    ensures XOf(LinearOf(x, y, w), w) == x && YOf(LinearOf(x, y, w), w) == y
  {
    var i := LinearOf(x, y, w);
    assert y * w <= (h - 1) * w by { MulMono(y, h - 1, w); }
    DivModUnique(i, w, y, x);
  }

  lemma MulMono(a: int, b: int, c: nat)
    requires a <= b
    ensures a * c <= b * c
  {
  }

  lemma DivModUnique(n: int, w: nat, q: int, r: int)
    requires w > 0 && 0 <= r < w && n == q * w + r
    ensures n / w == q && n % w == r
  {
    var q', r' := n / w, n % w;
    assert n == q' * w + r';
    if q' < q {
      assert (q - q') * w == r' - r;
      MulMono(1, q - q', w);
    } else if q' > q {
      assert (q' - q) * w == r - r';
      MulMono(1, q' - q, w);
    }
  }

  /** A rectangle: origin, width and height. */
  datatype Rect = Rect(x: int, y: int, width: int, height: int)

  /** The checks of view(x, y, width, height) on a grid of size w * h, all of which must pass. */
  predicate ViewFits(r: Rect, w: nat, h: nat)
  {
    r.x >= 0 && r.y >= 0 && r.width >= 1 && r.height >= 1 && r.x + r.width <= w && r.y + r.height <= h
  }

  predicate InRect(r: Rect, i: int, j: int)
  {
    r.x <= i < r.x + r.width && r.y <= j < r.y + r.height
  }

  /** The window getSurroundingCells(x, y) asks view for: one step up and left unless at 0,
      three wide and high, then shrunk until it no longer passes the right and bottom edges. */
  function SurroundingRect(x: int, y: int, w: nat, h: nat): Rect
  {
    var x0 := if x > 0 then x - 1 else x;
    var w0 := if x > 0 then 3 else 2;
    var y0 := if y > 0 then y - 1 else y;
    var h0 := if y > 0 then 3 else 2;
    Rect(x0, y0, if x0 + w0 > w then w - x0 else w0, if y0 + h0 > h then h - y0 else h0)
  }

  /** For a cell of the grid the window is exactly the in-bounds part of its 3x3 neighbourhood:
      it contains the cell itself and has between 1 and 9 cells. */
  lemma SurroundingIsNeighbourhood(x: int, y: int, w: nat, h: nat)
    requires 0 <= x < w && 0 <= y < h
    ensures ViewFits(SurroundingRect(x, y, w, h), w, h)
    ensures forall i, j :: InRect(SurroundingRect(x, y, w, h), i, j) <==>
      0 <= i < w && 0 <= j < h && x - 1 <= i <= x + 1 && y - 1 <= j <= y + 1
    ensures InRect(SurroundingRect(x, y, w, h), x, y)
    ensures var r := SurroundingRect(x, y, w, h); 1 <= r.width <= 3 && 1 <= r.height <= 3
  {
  }

  /** The window passes view's checks exactly for 0 <= x <= w and 0 <= y <= h on a non-empty grid:
      one column (row) past the edge is still accepted, and yields a window beside the point. */
  lemma SurroundingAccepted(x: int, y: int, w: nat, h: nat)
    ensures ViewFits(SurroundingRect(x, y, w, h), w, h) <==> 0 <= x <= w && 0 <= y <= h && w >= 1 && h >= 1
    ensures w >= 1 && h >= 1 && 0 <= y < h ==> !InRect(SurroundingRect(w, y, w, h), w, y)
  {
  }

  /** The number of elements of s that satisfy p. */
  function CountWhere<U>(s: seq<U>, p: U -> bool): (n: nat)
    ensures n <= |s|
  {
    if s == [] then 0 else CountWhere(s[..|s| - 1], p) + (if p(s[|s| - 1]) then 1 else 0)
  }

  /** The checks copyTo(other, xOffset, yOffset) makes, as written: a negative offset, or a target
      with other.width() + xOffset < width() (likewise for heights), is refused. */
  predicate CopyGuardAsWritten(w: nat, h: nat, ow: nat, oh: nat, xo: int, yo: int)
  {
    xo >= 0 && yo >= 0 && !(ow + xo < w) && !(oh + yo < h)
  }

  /** What the copy needs: every target (x + xOffset, y + yOffset) lies inside the target grid. */
  predicate CopyFits(w: nat, h: nat, ow: nat, oh: nat, xo: int, yo: int)
  {
    xo >= 0 && yo >= 0 && w + xo <= ow && h + yo <= oh
  }

  /** The written guard lets through a copy whose last column lands outside the target: copying a
      2 x 1 grid into a 2 x 1 grid at x offset 1 passes it, and the write to column 2 then throws
      after column 1 has already been overwritten. */
  lemma CopyGuardAdmitsOverflow()
    ensures CopyGuardAsWritten(2, 1, 2, 1, 1, 0) && !CopyFits(2, 1, 2, 1, 1, 0)
    ensures exists w: nat, h: nat, ow: nat, oh: nat, xo: int, yo: int ::
      CopyGuardAsWritten(w, h, ow, oh, xo, yo) && w >= 1 && w - 1 + xo >= ow
  {
    assert CopyGuardAsWritten(2, 1, 2, 1, 1, 0) && 2 - 1 + 1 >= 2;
  }

  /** Every copy that fits passes the written guard, and with zero offsets (the only way the
      library itself calls copyTo) the two agree. */
  lemma CopyGuardsAgreeAtOrigin(w: nat, h: nat, ow: nat, oh: nat, xo: int, yo: int)
    ensures CopyFits(w, h, ow, oh, xo, yo) ==> CopyGuardAsWritten(w, h, ow, oh, xo, yo)
    ensures CopyGuardAsWritten(w, h, ow, oh, 0, 0) <==> CopyFits(w, h, ow, oh, 0, 0)
  {
  }

  class Grid<T> {
    /** The shared storage and this grid's window onto it. */
    const matrix: Matrix<T>
    const ox: nat
    const oy: nat
    const width: nat
    const height: nat

    ghost predicate Valid()
      reads matrix.cells
    {
      matrix.Valid() && ox + width <= matrix.width && oy + height <= matrix.height
    }

    /** The storage this grid reads and writes. */
    ghost function Repr(): set<object>
    {
      matrix.CellSet
    }

    /** Whether this grid spans its whole matrix, as every grid made by new Grid(w, h) does. */
    predicate Whole()
    {
      ox == 0 && oy == 0 && matrix.width == width && matrix.height == height
    }

    function Length(): nat
    {
      width * height
    }

    predicate InRange(x: int, y: int)
    {
      0 <= x < width && 0 <= y < height
    }

    /** The datum at (x, y) of this grid, which is (ox + x, oy + y) of the matrix. */
    ghost function At(x: int, y: int): Option<T>
      requires Valid() && InRange(x, y)
      reads matrix.cells, matrix.CellSet
    {
      matrix.At(ox + x, oy + y)
    }

    /** The datum at row-major index i. */
    ghost function ElementAt(i: int): Option<T>
      requires Valid() && 0 <= i < Length()
      reads matrix.cells, matrix.CellSet
    {
      LinearToXY(i, width, height);
      At(XOf(i, width), YOf(i, width))
    }

    /** The contents in row-major order, the order of iterator(). */
    ghost function Elements(): (s: seq<Option<T>>)
      requires Valid()
      reads matrix.cells, matrix.CellSet
      ensures |s| == Length()
    {
      seq(Length(), i requires 0 <= i < Length() && Valid() reads matrix.cells, matrix.CellSet => ElementAt(i))
    }

    /** new Grid(width, height): a fresh matrix of null cells. */
    constructor (width: nat, height: nat)
      ensures Valid() && fresh(matrix) && fresh(matrix.cells) && fresh(Repr())
      ensures this.width == width && this.height == height && ox == 0 && oy == 0
      ensures matrix.width == width && matrix.height == height
      ensures forall x, y :: InRange(x, y) ==> At(x, y) == None
    {
      matrix := new Matrix<T>(width, height);
      ox, oy := 0, 0;
      this.width, this.height := width, height;
    }

    /** The protected constructor behind view: a window onto an existing matrix. */
    constructor ViewOf(matrix: Matrix<T>, x: nat, y: nat, width: nat, height: nat)
      requires matrix.Valid() && x + width <= matrix.width && y + height <= matrix.height
      ensures Valid() && this.matrix == matrix && ox == x && oy == y
      ensures this.width == width && this.height == height
    {
      this.matrix := matrix;
      ox, oy := x, y;
      this.width, this.height := width, height;
    }

    /** checkRange(x, y): IndexOutOfBoundsException outside 0..width-1 x 0..height-1. */
    function CheckRange(x: int, y: int): (r: Outcome<GridError>)
      ensures r.Pass? <==> InRange(x, y)
      ensures r.Fail? ==> r.error == IndexOutOfBounds
    {
      if x < 0 || x >= width || y < 0 || y >= height then Fail(IndexOutOfBounds) else Pass
    }

    /** checkRange(linear): IndexOutOfBoundsException outside 0..length-1. */
    function CheckLinear(i: int): (r: Outcome<GridError>)
      ensures r.Pass? <==> 0 <= i < Length()
      ensures r.Fail? ==> r.error == IndexOutOfBounds
    {
      if i < 0 || i >= Length() then Fail(IndexOutOfBounds) else Pass
    }

    /** toX(linear). */
    function ToX(i: int): (r: Result<int, GridError>)
      ensures r.Success? <==> 0 <= i < Length()
      ensures r.Success? ==> 0 <= r.value < width && r.value == XOf(i, width)
    {
      if CheckLinear(i).Fail? then Failure(IndexOutOfBounds)
      else LinearToXY(i, width, height); Success(XOf(i, width))
    }

    /** toY(linear). */
    function ToY(i: int): (r: Result<int, GridError>)
      ensures r.Success? <==> 0 <= i < Length()
      ensures r.Success? ==> 0 <= r.value < height && r.value == YOf(i, width)
    {
      if CheckLinear(i).Fail? then Failure(IndexOutOfBounds)
      else LinearToXY(i, width, height); Success(YOf(i, width))
    }

    /** toLinear(x, y) == y * width + x. */
    function ToLinear(x: int, y: int): (r: Result<int, GridError>)
      ensures r.Success? <==> InRange(x, y)
      ensures r.Success? ==> r.value == y * width + x && 0 <= r.value < Length()
    {
      if CheckRange(x, y).Fail? then Failure(IndexOutOfBounds)
      else XYToLinear(x, y, width, height); Success(LinearOf(x, y, width))
    }

    /** toLinear and toX/toY are inverse bijections between the cells and 0..length-1. */
    lemma LinearRoundTrip(i: int, x: int, y: int)
      ensures 0 <= i < Length() ==> ToLinear(ToX(i).value, ToY(i).value) == Success(i)
      ensures InRange(x, y) ==> ToX(ToLinear(x, y).value) == Success(x) && ToY(ToLinear(x, y).value) == Success(y)
    {
      if 0 <= i < Length() {
        LinearToXY(i, width, height);
      }
      if InRange(x, y) {
        XYToLinear(x, y, width, height);
      }
    }

    /** get(x, y): the datum, or IndexOutOfBoundsException outside the grid. */
    function Get(x: int, y: int): (r: Result<Option<T>, GridError>)
      requires Valid()
      reads matrix.cells, matrix.CellSet
      ensures r.Success? <==> InRange(x, y)
      ensures r.Success? ==> r.value == At(x, y)
      ensures r.Failure? ==> r.error == IndexOutOfBounds
    {
      if CheckRange(x, y).Fail? then Failure(IndexOutOfBounds)
      else Success(matrix.cells[ox + x, oy + y].data)
    }

    /** get(linear): the row-major element i. */
    function GetLinear(i: int): (r: Result<Option<T>, GridError>)
      requires Valid()
      reads matrix.cells, matrix.CellSet
      ensures r.Success? <==> 0 <= i < Length()
      ensures r.Success? ==> r.value == Elements()[i]
    {
      if CheckLinear(i).Fail? then Failure(IndexOutOfBounds)
      else LinearToXY(i, width, height); Get(XOf(i, width), YOf(i, width))
    }

    /** set(x, y, data): writes the one matrix cell behind (x, y), so every grid sharing the matrix sees it;
        outside the grid it throws and writes nothing. */
    method Set(x: int, y: int, data: Option<T>) returns (r: Outcome<GridError>)
      requires Valid()
      modifies Repr()
      ensures r.Pass? <==> InRange(x, y)
      ensures forall i, j :: matrix.InRange(i, j) ==>
        matrix.At(i, j) == if r.Pass? && i == ox + x && j == oy + y then data else old(matrix.At(i, j))
      ensures forall i, j :: InRange(i, j) ==> At(i, j) == if r.Pass? && i == x && j == y then data else old(At(i, j))
    {
      r := CheckRange(x, y);
      if r.Pass? {
        matrix.cells[ox + x, oy + y].SetData(data);
      }
    }

    /** set(linear, data). */
    method SetLinear(i: int, data: Option<T>) returns (r: Outcome<GridError>)
      requires Valid()
      modifies Repr()
      ensures r.Pass? <==> 0 <= i < Length()
      ensures forall x, y :: matrix.InRange(x, y) ==>
        matrix.At(x, y) == if r.Pass? && x == ox + XOf(i, width) && y == oy + YOf(i, width) then data
                           else old(matrix.At(x, y))
      ensures Elements() == if r.Pass? then old(Elements())[i := data] else old(Elements())
    {
      r := CheckLinear(i);
      if r.Pass? {
        LinearToXY(i, width, height);
        r := Set(XOf(i, width), YOf(i, width), data);
        forall k | 0 <= k < Length()
          ensures Elements()[k] == old(Elements())[i := data][k]
        {
          LinearToXY(k, width, height);
        }
      }
    }

    /** The grid holds only nulls, said cell by cell or index by index. */
    lemma AllNone()
      requires Valid()
      ensures (forall x, y :: InRange(x, y) ==> At(x, y) == None) <==> (forall k :: 0 <= k < Length() ==> Elements()[k] == None)
    {
      if forall k :: 0 <= k < Length() ==> Elements()[k] == None {
        forall x, y | InRange(x, y)
          ensures At(x, y) == None
        {
          XYToLinear(x, y, width, height);
          assert Elements()[LinearOf(x, y, width)] == None;
        }
      }
      if forall x, y :: InRange(x, y) ==> At(x, y) == None {
        forall k | 0 <= k < Length()
          ensures Elements()[k] == None
        {
          LinearToXY(k, width, height);
        }
      }
    }

    /** view(x, y, width, height): after the argument checks, a grid over the same matrix whose
        (i, j) is this grid's (i + x, j + y). */
    method View(x: int, y: int, w: int, h: int) returns (r: Result<Grid<T>, GridError>)
      requires Valid()
      ensures r.Success? <==> ViewFits(Rect(x, y, w, h), width, height)
      ensures r.Failure? ==> r.error == IllegalArgument
      ensures r.Success? ==> var v := r.value;
        && fresh(v) && v.Valid() && v.matrix == matrix && v.Repr() == Repr()
        && v.ox == ox + x && v.oy == oy + y && v.width == w && v.height == h
        && forall i, j :: v.InRange(i, j) ==> InRange(i + x, j + y) && v.At(i, j) == At(i + x, j + y)
    {
      if x < 0 || y < 0 || w < 1 || h < 1 || x + w > width || y + h > height {
        return Failure(IllegalArgument);
      }
      var v := new Grid<T>.ViewOf(matrix, ox + x, oy + y, w, h);
      r := Success(v);
    }

    /** getSurroundingCells(x, y): the view over the clipped 3x3 window around (x, y). */
    method SurroundingCells(x: int, y: int) returns (r: Result<Grid<T>, GridError>)
      requires Valid()
      ensures var rect := SurroundingRect(x, y, width, height);
        && (r.Success? <==> ViewFits(rect, width, height))
        && (r.Success? ==> var v := r.value;
             && fresh(v) && v.Valid() && v.matrix == matrix && v.Repr() == Repr()
             && v.ox == ox + rect.x && v.oy == oy + rect.y && v.width == rect.width && v.height == rect.height
             && forall i, j :: v.InRange(i, j) ==> InRange(i + rect.x, j + rect.y) && v.At(i, j) == At(i + rect.x, j + rect.y))
    {
      var x0, y0, w0, h0 := x, y, 3, 3;
      if x0 > 0 {
        x0 := x0 - 1;
      } else {
        w0 := w0 - 1;
      }
      if y0 > 0 {
        y0 := y0 - 1;
      } else {
        h0 := h0 - 1;
      }
      ghost var wStart, hStart := w0, h0;
      while x0 + w0 > width
        invariant w0 <= wStart && (w0 < wStart ==> x0 + w0 >= width)
        decreases x0 + w0
      {
        w0 := w0 - 1;
      }
      while y0 + h0 > height
        invariant h0 <= hStart && (h0 < hStart ==> y0 + h0 >= height)
        decreases y0 + h0
      {
        h0 := h0 - 1;
      }
      r := View(x0, y0, w0, h0);
    }
    /** count(p): the number of elements satisfying p, visiting them in row-major order. */
    method Count(p: Option<T> -> bool) returns (n: nat)
      requires Valid()
      ensures n == CountWhere(Elements(), p)
      ensures n <= Length()
    {
      n := 0;
      var k := 0;
      while k < Length()
        invariant 0 <= k <= Length()
        invariant n == CountWhere(Elements()[..k], p)
      {
        var d := GetLinear(k).value;
        if p(d) {
          n := n + 1;
        }
        assert Elements()[..k + 1][..k] == Elements()[..k];
        k := k + 1;
      }
      assert Elements()[..k] == Elements();
    }

    /** Whether (i, j) of the matrix lies inside this grid's window. */
    predicate Covers(i: int, j: int)
    {
      ox <= i < ox + width && oy <= j < oy + height
    }

    /** fill(filler): every cell (x, y) of the grid becomes filler(x, y, old value); the rest of
        the shared matrix is untouched. */
    method Fill(filler: (int, int, Option<T>) -> Option<T>)
      requires Valid()
      modifies Repr()
      ensures forall x, y :: InRange(x, y) ==> At(x, y) == filler(x, y, old(At(x, y)))
      ensures forall i, j :: matrix.InRange(i, j) && !Covers(i, j) ==> matrix.At(i, j) == old(matrix.At(i, j))
    {
      for y := 0 to height
        invariant forall i, j :: matrix.InRange(i, j) ==>
          matrix.At(i, j) == if Covers(i, j) && j - oy < y then filler(i - ox, j - oy, old(matrix.At(i, j)))
                             else old(matrix.At(i, j))
      {
        for x := 0 to width
          invariant forall i, j :: matrix.InRange(i, j) ==>
            matrix.At(i, j) == if Covers(i, j) && (j - oy < y || (j - oy == y && i - ox < x))
                               then filler(i - ox, j - oy, old(matrix.At(i, j)))
                               else old(matrix.At(i, j))
        {
          var d := Get(x, y).value;
          var _ := Set(x, y, filler(x, y, d));
        }
      }
    }

    /** clear(): fill(null). */
    method Clear()
      requires Valid()
      modifies Repr()
      ensures forall x, y :: InRange(x, y) ==> At(x, y) == None
      ensures forall i, j :: matrix.InRange(i, j) && !Covers(i, j) ==> matrix.At(i, j) == old(matrix.At(i, j))
    {
      Fill((x, y, d) => None);
    }

    /** isEmpty(): whether every element is null. */
    method IsEmpty() returns (b: bool)
      requires Valid()
      ensures b <==> forall x, y :: InRange(x, y) ==> At(x, y) == None
    {
      var k := 0;
      while k < Length()
        invariant 0 <= k <= Length()
        invariant forall i :: 0 <= i < k ==> ElementAt(i) == None
      {
        if GetLinear(k).value != None {
          LinearToXY(k, width, height);
          return false;
        }
        k := k + 1;
      }
      forall x, y | InRange(x, y)
        ensures At(x, y) == None
      {
        XYToLinear(x, y, width, height);
        assert ElementAt(LinearOf(x, y, width)) == None;
      }
      return true;
    }

    /** branch(copier): a grid of the same size over a fresh matrix whose (x, y) is copier(this(x, y)). */
    method Branch(copier: Option<T> -> Option<T>) returns (copy: Grid<T>)
      requires Valid()
      ensures fresh(copy) && fresh(copy.matrix) && fresh(copy.Repr()) && copy.Valid()
      ensures copy.width == width && copy.height == height && copy.Whole()
      ensures forall x, y :: InRange(x, y) ==> copy.At(x, y) == copier(At(x, y))
    {
      copy := new Grid<T>(width, height);
      for y := 0 to height
        invariant fresh(copy.Repr()) && copy.Valid() && copy.Whole()
        invariant forall i, j :: InRange(i, j) && j < y ==> copy.At(i, j) == copier(At(i, j))
      {
        for x := 0 to width
          invariant fresh(copy.Repr()) && copy.Valid() && copy.Whole()
          invariant forall i, j :: InRange(i, j) && (j < y || (j == y && i < x)) ==> copy.At(i, j) == copier(At(i, j))
        {
          var d := Get(x, y).value;
          var _ := copy.Set(x, y, copier(d));
        }
      }
    }

    /** copyTo(other, xOffset, yOffset): writes this(x, y) to other(x + xOffset, y + yOffset).
        The size checks here are the ones the copy needs (CopyFits), so a refused copy writes nothing;
        the source's own checks are CopyGuardAsWritten. Storage shared between the two grids is not
        modelled: the grids must not overlap. */
    method CopyTo(other: Grid<T>, xo: int, yo: int) returns (r: Outcome<GridError>)
      requires Valid() && other.Valid() && other.Repr() !! Repr()
      modifies other.Repr()
      ensures r.Pass? <==> CopyFits(width, height, other.width, other.height, xo, yo)
      ensures r.Fail? ==> r.error == if xo < 0 || yo < 0 then IllegalArgument else IndexOutOfBounds
      ensures forall i, j :: other.matrix.InRange(i, j) ==>
        other.matrix.At(i, j) ==
          if r.Pass? && InRange(i - other.ox - xo, j - other.oy - yo) then At(i - other.ox - xo, j - other.oy - yo)
          else old(other.matrix.At(i, j))
    {
      if xo < 0 || yo < 0 {
        return Fail(IllegalArgument);
      }
      if other.width < width + xo || other.height < height + yo {
        return Fail(IndexOutOfBounds);
      }
      r := Pass;
      for y := 0 to height
        invariant forall i, j :: other.matrix.InRange(i, j) ==>
          other.matrix.At(i, j) ==
            if InRange(i - other.ox - xo, j - other.oy - yo) && j - other.oy - yo < y
            then At(i - other.ox - xo, j - other.oy - yo) else old(other.matrix.At(i, j))
      {
        for x := 0 to width
          invariant forall i, j :: other.matrix.InRange(i, j) ==>
            other.matrix.At(i, j) ==
              if InRange(i - other.ox - xo, j - other.oy - yo)
                 && (j - other.oy - yo < y || (j - other.oy - yo == y && i - other.ox - xo < x))
              then At(i - other.ox - xo, j - other.oy - yo) else old(other.matrix.At(i, j))
        {
          var d := Get(x, y).value;
          var _ := other.Set(x + xo, y + yo, d);
        }
      }
    }
  

    /** toGridString(gen, delim): the generated cell texts in row-major order, the delimiter between
        two cells of a row and a newline between rows, nothing after the last cell. The source walks
        a row-major iterator; the loop here walks the same order by linear index. */
    method ToGridString(gen: Option<T> -> string, delim: string) returns (s: string)
      requires Valid()
      ensures s == Printed(Texts(Elements(), gen), width, height, delim, Length())
      ensures width >= 1 ==> s == GridText(Texts(Elements(), gen), width, height, delim)
      ensures Length() == 0 ==> s == ""
    {
      ghost var cells := Texts(Elements(), gen);
      s := "";
      var k := 0;
      while k < Length()
        invariant 0 <= k <= Length()
        invariant s == Printed(cells, width, height, delim, k)
      {
        var d := GetLinear(k).value;
        PrintedStep(cells, width, height, delim, k);
        s := s + gen(d) + Separator(k, width, height, delim);
        k := k + 1;
      }
      if width >= 1 {
        PrintedIsGridText(cells, width, height, delim);
      }
    }
  }
}
