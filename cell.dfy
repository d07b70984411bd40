/** Cell.java: the storage slot of a matrix, a mutable datum at fixed coordinates. */
module Cells {
  import opened Wrappers

  class Cell<T> {
    /** The coordinates are fixed at construction. */
    const x: int
    const y: int
    /** The datum; None stands for Java's null. */
    var data: Option<T>

    /** new Cell(x, y): holds null data. */
    constructor (x: int, y: int)
      ensures this.x == x && this.y == y && data == None
    {
      this.x, this.y := x, y;
      data := None;
    }

    /** getData(): the value of the latest setData, or null. */
    method GetData() returns (r: Option<T>)
      ensures r == data
    {
      r := data;
    }

    /** setData(d): replaces the datum; x and y are constants and cannot change. */
    method SetData(d: Option<T>)
      modifies this
      ensures data == d
    {
      data := d;
    }

    /** getX(): the column the cell was made at. */
    function GetX(): (r: int)
      ensures r == x
    {
      x
    }

    /** getY(): the row the cell was made at. */
    function GetY(): (r: int)
      ensures r == y
    {
      y
    }
  }
}
