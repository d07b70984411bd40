/**
 * The cells of a mosaic as a value: the clues in row-major order, with the window arithmetic
 * getSurroundingCells implies and the counts the solver takes over a window (Mosaic.java,
 * RecursionSolver.java).
 */
module Boards {
  import opened Fills
  import opened Clues
  import opened Grids

  /** Row-major cells of a w x h mosaic. */
  predicate WellFormed(cells: seq<Clue>, w: nat, h: nat)
  {
    |cells| == w * h
  }

  /** The linear index of element k of a view over rectangle r, in the grid of width w. */
  function WindowIndex(r: Rect, w: nat, k: nat): int
    requires r.width >= 1
  {
    LinearOf(r.x + XOf(k, r.width), r.y + YOf(k, r.width), w)
  }

  /** The linear indices of getSurroundingCells(x, y), in the row-major order its iterator and
      count visit them. */
  function Window(w: nat, h: nat, x: int, y: int): (win: seq<nat>)
    requires 0 <= x < w && 0 <= y < h
    ensures 1 <= |win| <= 9
    ensures forall k :: 0 <= k < |win| ==> win[k] < w * h
  {
    var r := SurroundingRect(x, y, w, h);
    SurroundingIsNeighbourhood(x, y, w, h);
    WindowBounds(r, w, h);
    seq(r.width * r.height, k requires 0 <= k < r.width * r.height => WindowIndex(r, w, k) as nat)
  }

  lemma WindowBounds(r: Rect, w: nat, h: nat)
    requires ViewFits(r, w, h) && r.width <= 3 && r.height <= 3
    ensures 1 <= r.width * r.height <= 9
    ensures forall k :: 0 <= k < r.width * r.height ==> 0 <= WindowIndex(r, w, k) < w * h
  {
    forall k | 0 <= k < r.width * r.height
      ensures 0 <= WindowIndex(r, w, k) < w * h
    {
      WindowCell(r, w, h, k);
    }
  }

  /** Element k of the view over r is the grid cell (r.x + k % r.width, r.y + k / r.width). */
  lemma WindowCell(r: Rect, w: nat, h: nat, k: nat)
    requires ViewFits(r, w, h) && k < r.width * r.height
    ensures InRect(r, r.x + XOf(k, r.width), r.y + YOf(k, r.width))
    ensures 0 <= WindowIndex(r, w, k) < w * h
  {
    LinearToXY(k, r.width, r.height);
    XYToLinear(r.x + XOf(k, r.width), r.y + YOf(k, r.width), w, h);
  }

  /** A cell of the grid is in the window of (x, y) exactly when it is one of its neighbours
      (or the cell itself). */
  lemma WindowMembers(w: nat, h: nat, x: int, y: int, i: int, j: int)
    requires 0 <= x < w && 0 <= y < h && 0 <= i < w && 0 <= j < h
    ensures LinearOf(i, j, w) in Window(w, h, x, y) <==> x - 1 <= i <= x + 1 && y - 1 <= j <= y + 1
  {
    if x - 1 <= i <= x + 1 && y - 1 <= j <= y + 1 {
      NeighbourInWindow(w, h, x, y, i, j);
    }
    if LinearOf(i, j, w) in Window(w, h, x, y) {
      WindowHoldsNeighbours(w, h, x, y, i, j);
    }
  }

  lemma NeighbourInWindow(w: nat, h: nat, x: int, y: int, i: int, j: int)
    requires 0 <= x < w && 0 <= y < h && 0 <= i < w && 0 <= j < h
    requires x - 1 <= i <= x + 1 && y - 1 <= j <= y + 1
    ensures LinearOf(i, j, w) in Window(w, h, x, y)
  {
    var r := SurroundingRect(x, y, w, h);
    SurroundingIsNeighbourhood(x, y, w, h);
    assert InRect(r, i, j);
    var k := LinearOf(i - r.x, j - r.y, r.width);
    XYToLinear(i - r.x, j - r.y, r.width, r.height);
    assert WindowIndex(r, w, k) == LinearOf(i, j, w);
    assert Window(w, h, x, y)[k] == LinearOf(i, j, w);
  }

  lemma WindowHoldsNeighbours(w: nat, h: nat, x: int, y: int, i: int, j: int)
    requires 0 <= x < w && 0 <= y < h && 0 <= i < w && 0 <= j < h
    requires LinearOf(i, j, w) in Window(w, h, x, y)
    ensures x - 1 <= i <= x + 1 && y - 1 <= j <= y + 1
  {
    var r := SurroundingRect(x, y, w, h);
    var win := Window(w, h, x, y);
    SurroundingIsNeighbourhood(x, y, w, h);
    var k :| 0 <= k < |win| && win[k] == LinearOf(i, j, w);
    WindowCell(r, w, h, k);
    var i', j' := r.x + XOf(k, r.width), r.y + YOf(k, r.width);
    XYToLinear(i', j', w, h);
    XYToLinear(i, j, w, h);
    assert i == i' && j == j';
  }

  /** No cell occurs twice in a window. */
  lemma WindowDistinct(w: nat, h: nat, x: int, y: int)
    requires 0 <= x < w && 0 <= y < h
    ensures var win := Window(w, h, x, y);
      forall k1, k2 :: 0 <= k1 < |win| && 0 <= k2 < |win| && win[k1] == win[k2] ==> k1 == k2
  {
    var r := SurroundingRect(x, y, w, h);
    var win := Window(w, h, x, y);
    SurroundingIsNeighbourhood(x, y, w, h);
    forall k1, k2 | 0 <= k1 < |win| && 0 <= k2 < |win| && win[k1] == win[k2]
      ensures k1 == k2
    {
      WindowIndexInjective(r, w, h, k1, k2);
    }
  }

  lemma WindowIndexInjective(r: Rect, w: nat, h: nat, k1: nat, k2: nat)
    requires ViewFits(r, w, h) && k1 < r.width * r.height && k2 < r.width * r.height
    requires WindowIndex(r, w, k1) == WindowIndex(r, w, k2)
    ensures k1 == k2
  {
    WindowCell(r, w, h, k1);
    WindowCell(r, w, h, k2);
    var i1, j1 := r.x + XOf(k1, r.width), r.y + YOf(k1, r.width);
    var i2, j2 := r.x + XOf(k2, r.width), r.y + YOf(k2, r.width);
    XYToLinear(i1, j1, w, h);
    XYToLinear(i2, j2, w, h);
    assert i1 == i2 && j1 == j2;
    LinearToXY(k1, r.width, r.height);
    LinearToXY(k2, r.width, r.height);
  }

  /** The window always holds the cell it is centred on. */
  lemma WindowHoldsCentre(w: nat, h: nat, x: int, y: int)
    requires 0 <= x < w && 0 <= y < h
    ensures LinearOf(x, y, w) in Window(w, h, x, y)
  {
    WindowMembers(w, h, x, y, x, y);
  }

  /** The clues of a window, in window order. */
  function Gather(cells: seq<Clue>, win: seq<nat>): (s: seq<Clue>)
    requires forall k :: 0 <= k < |win| ==> win[k] < |cells|
    ensures |s| == |win| && forall k :: 0 <= k < |win| ==> s[k] == cells[win[k]]
  {
    seq(|win|, k requires 0 <= k < |win| => cells[win[k]])
  }

  function HasFill(f: Fill): Clue -> bool
  {
    (c: Clue) => c.fill == f
  }

  function HasClue(): Clue -> bool
  {
    (c: Clue) => c.clue >= 0
  }

  function HasPixel(): Clue -> bool
  {
    (c: Clue) => c.isPixel
  }

  /** Every clue has one of the three fills, so the three fill counts add up to the length. */
  lemma {:induction false} FillCountsPartition(s: seq<Clue>)
    ensures CountWhere(s, HasFill(Filled)) + CountWhere(s, HasFill(X)) + CountWhere(s, HasFill(Empty)) == |s|
  {
    if s != [] {
      FillCountsPartition(s[..|s| - 1]);
    }
  }

  /** No element satisfies p exactly when the count is zero. */
  lemma {:induction false} CountZero<U>(s: seq<U>, p: U -> bool)
    ensures CountWhere(s, p) == 0 <==> forall k :: 0 <= k < |s| ==> !p(s[k])
  {
    if s != [] {
      CountZero(s[..|s| - 1], p);
      assert forall k :: 0 <= k < |s| - 1 ==> s[..|s| - 1][k] == s[k];
    }
  }

  /** Counting the same verdicts over two sequences gives the same number. */
  lemma {:induction false} CountAgree<U, V>(s: seq<U>, p: U -> bool, t: seq<V>, q: V -> bool)
    requires |s| == |t| && forall k :: 0 <= k < |s| ==> p(s[k]) == q(t[k])
    ensures CountWhere(s, p) == CountWhere(t, q)
  {
    if s != [] {
      CountAgree(s[..|s| - 1], p, t[..|t| - 1], q);
    }
  }

  /** A cell painted by the solver: an EMPTY cell takes fill f, any other keeps its fill. */
  function PaintOne(c: Clue, f: Fill): Clue
  {
    if c.fill == Empty then c.(fill := f) else c
  }

  /** The board with every EMPTY cell of the window painted f, and every other cell as it was. */
  function Painted(cells: seq<Clue>, win: seq<nat>, f: Fill): (p: seq<Clue>)
    ensures |p| == |cells|
  {
    seq(|cells|, i requires 0 <= i < |cells| => if i in win then PaintOne(cells[i], f) else cells[i])
  }

  /** Painting the window f (not EMPTY) leaves no EMPTY cell there, adds the EMPTY cells to the count
      of f and keeps the count of the third fill. */
  lemma PaintedCounts(cells: seq<Clue>, win: seq<nat>, f: Fill, g: Fill)
    requires forall k :: 0 <= k < |win| ==> win[k] < |cells|
    requires f != Empty && g != Empty && g != f
    ensures var after := Gather(Painted(cells, win, f), win);
      var before := Gather(cells, win);
      && CountWhere(after, HasFill(Empty)) == 0
      && CountWhere(after, HasFill(f)) == CountWhere(before, HasFill(f)) + CountWhere(before, HasFill(Empty))
      && CountWhere(after, HasFill(g)) == CountWhere(before, HasFill(g))
  {
    var before := Gather(cells, win);
    var after := Gather(Painted(cells, win, f), win);
    assert forall k :: 0 <= k < |win| ==> after[k] == PaintOne(before[k], f);
    PaintOneCounts(before, after, f, g);
  }

  lemma {:induction false} PaintOneCounts(before: seq<Clue>, after: seq<Clue>, f: Fill, g: Fill)
    requires |before| == |after| && forall k :: 0 <= k < |before| ==> after[k] == PaintOne(before[k], f)
    requires f != Empty && g != Empty && g != f
    ensures CountWhere(after, HasFill(Empty)) == 0
    ensures CountWhere(after, HasFill(f)) == CountWhere(before, HasFill(f)) + CountWhere(before, HasFill(Empty))
    ensures CountWhere(after, HasFill(g)) == CountWhere(before, HasFill(g))
  {
    if before != [] {
      PaintOneCounts(before[..|before| - 1], after[..|after| - 1], f, g);
    }
  }
}
