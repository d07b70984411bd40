/**
 * Mosaic.java: a Fill-a-Pix puzzle held in a grid of clues. It derives clue numbers from the
 * picture's pixels (putClue, fillClues), removes clues, copies itself deeply, and reads and writes
 * the two text formats: one character per cell ("clues"), and comma-separated tokens ("CSV").
 */
module Mosaics {
  import opened Wrappers
  import opened Fills
  import opened Clues
  import opened Grids
  import opened GridStrings
  import opened GridParsing
  import opened Boards

  /** The number of pixels in the clipped 3x3 window of (x, y): the clue putClue writes there. */
  function PixelsAround(cells: seq<Clue>, w: nat, h: nat, x: int, y: int): (n: nat)
    requires |cells| == w * h && 0 <= x < w && 0 <= y < h
    ensures n <= 9
  {
    CountWhere(Gather(cells, Window(w, h, x, y)), HasPixel())
  }

  /** Clue (x, y) of row-major cells. */
  function ClueIn(cells: seq<Clue>, w: nat, h: nat, x: int, y: int): Clue
    requires |cells| == w * h && 0 <= x < w && 0 <= y < h
  {
    XYToLinear(x, y, w, h);
    cells[LinearOf(x, y, w)]
  }

  /** Clue (x, y) with the clue number putClue gives it and its fill and pixel flag unchanged. */
  function Relabelled(cells: seq<Clue>, w: nat, h: nat, x: int, y: int): Clue
    requires |cells| == w * h && 0 <= x < w && 0 <= y < h
  {
    ClueIn(cells, w, h, x, y).(clue := PixelsAround(cells, w, h, x, y))
  }

  /** Whether row-major index k is (x, y) or one of its eight neighbours. */
  predicate Near(w: nat, x: int, y: int, k: int)
    requires w > 0
  {
    x - 1 <= XOf(k, w) <= x + 1 && y - 1 <= YOf(k, w) <= y + 1
  }

  /** The window of (x, y) holds exactly the cells near it. */
  lemma WindowIsNear(w: nat, h: nat, x: int, y: int, k: int)
    requires 0 <= x < w && 0 <= y < h && 0 <= k < w * h
    ensures k in Window(w, h, x, y) <==> Near(w, x, y, k)
  {
    LinearToXY(k, w, h);
    WindowMembers(w, h, x, y, XOf(k, w), YOf(k, w));
  }

  /** No pixel is counted exactly when no cell near (x, y) is a pixel. */
  lemma PixelsAroundZero(cells: seq<Clue>, w: nat, h: nat, x: int, y: int)
    requires |cells| == w * h && 0 <= x < w && 0 <= y < h
    ensures PixelsAround(cells, w, h, x, y) == 0 <==>
      forall k :: 0 <= k < |cells| && Near(w, x, y, k) ==> !cells[k].isPixel
  {
    var win := Window(w, h, x, y);
    var g := Gather(cells, win);
    CountZero(g, HasPixel());
    if PixelsAround(cells, w, h, x, y) == 0 {
      forall k | 0 <= k < |cells| && Near(w, x, y, k)
        ensures !cells[k].isPixel
      {
        WindowIsNear(w, h, x, y, k);
        var i :| 0 <= i < |win| && win[i] == k;
        assert g[i] == cells[k];
      }
    } else {
      var i :| 0 <= i < |g| && g[i].isPixel;
      WindowIsNear(w, h, x, y, win[i]);
    }
  }

  /** Every cell near (x, y) is a pixel exactly when the count is the size of the window. */
  lemma PixelsAroundFull(cells: seq<Clue>, w: nat, h: nat, x: int, y: int)
    requires |cells| == w * h && 0 <= x < w && 0 <= y < h
    ensures PixelsAround(cells, w, h, x, y) == |Window(w, h, x, y)| <==>
      forall k :: 0 <= k < |cells| && Near(w, x, y, k) ==> cells[k].isPixel
  {
    var win := Window(w, h, x, y);
    var g := Gather(cells, win);
    CountAll(g, HasPixel());
    if PixelsAround(cells, w, h, x, y) == |win| {
      forall k | 0 <= k < |cells| && Near(w, x, y, k)
        ensures cells[k].isPixel
      {
        WindowIsNear(w, h, x, y, k);
        var i :| 0 <= i < |win| && win[i] == k;
        assert g[i] == cells[k];
      }
    } else {
      var i :| 0 <= i < |g| && !g[i].isPixel;
      WindowIsNear(w, h, x, y, win[i]);
    }
  }

  /** Every element satisfies p exactly when the count is the length. */
  lemma {:induction false} CountAll<U>(s: seq<U>, p: U -> bool)
    ensures CountWhere(s, p) == |s| <==> forall k :: 0 <= k < |s| ==> p(s[k])
  {
    if s != [] {
      CountAll(s[..|s| - 1], p);
      assert forall k :: 0 <= k < |s| - 1 ==> s[..|s| - 1][k] == s[k];
    }
  }

  /** The count depends on the pixel flags alone: clue numbers and fills do not matter. */
  lemma PixelsAroundOnlyPixels(cells: seq<Clue>, other: seq<Clue>, w: nat, h: nat, x: int, y: int)
    requires |cells| == w * h && |other| == w * h && 0 <= x < w && 0 <= y < h
    requires forall k :: 0 <= k < |cells| ==> cells[k].isPixel == other[k].isPixel
    ensures PixelsAround(cells, w, h, x, y) == PixelsAround(other, w, h, x, y)
  {
    var win := Window(w, h, x, y);
    CountAgree(Gather(cells, win), HasPixel(), Gather(other, win), HasPixel());
  }

  /** Whether a grid element is a pixel; putClue's c -> c.isPixel(), which never meets a null
      in a valid mosaic. */
  function PixelCell(): Option<Clue> -> bool
  {
    (d: Option<Clue>) => d.Some? && d.value.isPixel
  }

  /** The text toClues writes for one clue: its number, or a space for "no clue". */
  function ClueSymbol(c: Clue): (s: string)
    ensures c.clue >= 0 ==> s == DecimalString(c.clue)
    ensures c.clue < 0 ==> s == " "
  {
    if c.clue >= 0 then DecimalString(c.clue) else " "
  }

  /** toClues' generator on a grid element (a null element, which a valid mosaic has none of,
      is given the text for "no clue"). */
  function ClueText(d: Option<Clue>): string
  {
    if d.Some? then ClueSymbol(d.value) else " "
  }

  class Mosaic {
    const grid: Grid<Clue>

    /** Every cell holds a clue (no null) and the grid spans its whole matrix. */
    ghost predicate Valid()
      reads grid.matrix.cells, grid.matrix.CellSet
    {
      grid.Valid() && grid.Whole() && forall x, y :: grid.InRange(x, y) ==> grid.At(x, y).Some?
    }

    ghost function Repr(): set<object>
    {
      grid.Repr()
    }

    /** get(x, y). */
    ghost function ClueAt(x: int, y: int): Clue
      requires Valid() && grid.InRange(x, y)
      reads grid.matrix.cells, grid.matrix.CellSet
    {
      grid.At(x, y).value
    }

    /** The clues in row-major order. */
    ghost function Cells(): (cells: seq<Clue>)
      requires Valid()
      reads grid.matrix.cells, grid.matrix.CellSet
      ensures |cells| == grid.width * grid.height
    {
      seq(grid.Length(), k requires 0 <= k < grid.Length() && Valid() reads grid.matrix.cells, grid.matrix.CellSet =>
        grid.ElementAt(k).value)
    }

    /** The clues read through the grid's iterator, in row-major order. */
    method Board() returns (cells: seq<Clue>)
      requires Valid()
      ensures cells == Cells()
    {
      cells := [];
      for k := 0 to grid.Length()
        invariant cells == Cells()[..k]
      {
        var d := grid.GetLinear(k);
        cells := cells + [d.value.value];
      }
    }

    /** Clue (x, y) is element y * width + x of Cells(). */
    lemma CellsAt(x: int, y: int)
      requires Valid() && grid.InRange(x, y)
      ensures 0 <= LinearOf(x, y, grid.width) < |Cells()|
      ensures Cells()[LinearOf(x, y, grid.width)] == ClueAt(x, y)
    {
      XYToLinear(x, y, grid.width, grid.height);
    }

    /** Cells() is the sequence that agrees with the grid at every (x, y). */
    lemma CellsFromGrid(c: seq<Clue>)
      requires Valid() && |c| == grid.width * grid.height
      requires forall x, y :: grid.InRange(x, y) ==> 0 <= LinearOf(x, y, grid.width) < |c| && ClueAt(x, y) == c[LinearOf(x, y, grid.width)]
      ensures Cells() == c
    {
      forall k | 0 <= k < |c|
        ensures Cells()[k] == c[k]
      {
        LinearToXY(k, grid.width, grid.height);
      }
    }

    /** new Mosaic(width, height): width * height default clues (EMPTY, no clue, not a pixel). */
    constructor (width: nat, height: nat)
      ensures Valid() && fresh(Repr()) && grid.width == width && grid.height == height
      ensures forall x, y :: grid.InRange(x, y) ==> ClueAt(x, y) == Default
    {
      grid := new Grid<Clue>(width, height);
      new;
      grid.Fill((x, y, d) => Some(Default));
    }

    /** new Mosaic(other): a deep copy. It has the other's size and clues, and storage of its own,
        so no later write to one of the two is seen by the other. */
    constructor Copy(other: Mosaic)
      requires other.Valid()
      ensures Valid() && fresh(Repr()) && Repr() !! other.Repr()
      ensures grid.width == other.grid.width && grid.height == other.grid.height
      ensures forall x, y :: grid.InRange(x, y) ==> ClueAt(x, y) == other.ClueAt(x, y)
    {
      var copy := other.grid.Branch(d => d);
      grid := copy;
    }

    /** new Mosaic(grid): a mosaic over the given grid itself, not a copy of it. */
    constructor OfGrid(grid: Grid<Clue>)
      ensures this.grid == grid
    {
      this.grid := grid;
    }

    /** putClue(x, y): the clue at (x, y) becomes the number of pixels in its window; nothing else
        changes. getSurroundingCells is asked first, so a point more than one step outside the grid
        (or any point of an empty grid) is refused as an illegal argument, while a point on the
        row or column just past the edge gets its window and is then refused by get. */
    method PutClue(x: int, y: int) returns (r: Outcome<GridError>)
      requires Valid()
      modifies Repr()
      ensures Valid()
      ensures r.Pass? <==> grid.InRange(x, y)
      ensures r.Fail? ==> r.error == (if 0 <= x <= grid.width && 0 <= y <= grid.height && grid.width >= 1 && grid.height >= 1
                                      then IndexOutOfBounds else IllegalArgument)
      ensures forall i, j :: grid.InRange(i, j) ==>
        ClueAt(i, j) == if r.Pass? && i == x && j == y
                        then old(ClueAt(i, j)).(clue := PixelsAround(old(Cells()), grid.width, grid.height, i, j))
                        else old(ClueAt(i, j))
    {
      ghost var cells := Cells();
      SurroundingAccepted(x, y, grid.width, grid.height);
      var sub := grid.SurroundingCells(x, y);
      if sub.Failure? {
        return Fail(IllegalArgument);
      }
      var got := grid.Get(x, y);
      if got.Failure? {
        return Fail(IndexOutOfBounds);
      }
      var count := sub.value.Count(PixelCell());
      assert Valid() && Cells() == cells;
      CountInWindow(sub.value, x, y, PixelCell(), HasPixel());
      assert count == PixelsAround(cells, grid.width, grid.height, x, y);
      assert got.value.value == old(ClueAt(x, y));
      Put(x, y, got.value.value.(clue := count));
      r := Pass;
    }

    /** grid().set(x, y, clue) at a point of the grid: that one clue replaced, the mosaic still
        valid. */
    method Put(x: int, y: int, c: Clue)
      requires Valid() && grid.InRange(x, y)
      modifies Repr()
      ensures Valid()
      ensures forall i, j :: grid.InRange(i, j) ==> ClueAt(i, j) == if i == x && j == y then c else old(ClueAt(i, j))
    {
      var _ := grid.Set(x, y, Some(c));
    }

    /** What count(p) sees on the surrounding view of (x, y): the window's clues that satisfy q,
        where p is q on a non-null element. */
    lemma CountInWindow(v: Grid<Clue>, x: int, y: int, p: Option<Clue> -> bool, q: Clue -> bool)
      requires Valid() && grid.InRange(x, y) && v.Valid() && v.matrix == grid.matrix
      requires var rect := SurroundingRect(x, y, grid.width, grid.height);
        v.ox == rect.x && v.oy == rect.y && v.width == rect.width && v.height == rect.height
      requires forall c :: p(Some(c)) == q(c)
      ensures CountWhere(v.Elements(), p) == CountWhere(Gather(Cells(), Window(grid.width, grid.height, x, y)), q)
    {
      var w, h := grid.width, grid.height;
      var rect := SurroundingRect(x, y, w, h);
      SurroundingIsNeighbourhood(x, y, w, h);
      var win := Window(w, h, x, y);
      var g := Gather(Cells(), win);
      forall k | 0 <= k < |win|
        ensures v.Elements()[k] == Some(g[k])
      {
        ViewElement(v, rect, k);
      }
      CountAgree(v.Elements(), p, g, q);
    }

    /** Element k of a view onto the window rect is the clue at window index k. */
    lemma ViewElement(v: Grid<Clue>, rect: Rect, k: nat)
      requires Valid() && v.Valid() && v.matrix == grid.matrix && ViewFits(rect, grid.width, grid.height)
      requires v.ox == rect.x && v.oy == rect.y && v.width == rect.width && v.height == rect.height
      requires k < rect.width * rect.height
      ensures 0 <= WindowIndex(rect, grid.width, k) < |Cells()|
      ensures v.Elements()[k] == Some(Cells()[WindowIndex(rect, grid.width, k)])
    {
      var w, h := grid.width, grid.height;
      WindowCell(rect, w, h, k);
      var i, j := rect.x + XOf(k, rect.width), rect.y + YOf(k, rect.width);
      LinearToXY(k, rect.width, rect.height);
      CellsAt(i, j);
    }

    /** fillClues(): putClue at every cell, row by row. Pixels are never changed, so every cell ends
        up with the pixel count of its window in the mosaic as it was. */
    method FillClues()
      requires Valid()
      modifies Repr()
      ensures Valid()
      ensures forall i, j :: grid.InRange(i, j) ==> ClueAt(i, j) == Relabelled(old(Cells()), grid.width, grid.height, i, j)
    {
      ghost var before := Cells();
      forall i, j | grid.InRange(i, j)
        ensures ClueAt(i, j) == ClueIn(before, grid.width, grid.height, i, j)
      {
        CellsAt(i, j);
      }
      for y := 0 to grid.height
        invariant Valid()
        invariant forall i, j :: grid.InRange(i, j) ==>
          ClueAt(i, j) == if j < y then Relabelled(before, grid.width, grid.height, i, j)
                          else ClueIn(before, grid.width, grid.height, i, j)
      {
        FillRow(y, before);
      }
    }

    /** One row of fillClues. */
    method FillRow(y: int, ghost before: seq<Clue>)
      requires Valid() && 0 <= y < grid.height && |before| == grid.width * grid.height
      requires forall i, j :: grid.InRange(i, j) ==>
        ClueAt(i, j) == if j < y then Relabelled(before, grid.width, grid.height, i, j)
                        else ClueIn(before, grid.width, grid.height, i, j)
      modifies Repr()
      ensures Valid()
      ensures forall i, j :: grid.InRange(i, j) ==>
        ClueAt(i, j) == if j < y + 1 then Relabelled(before, grid.width, grid.height, i, j)
                        else ClueIn(before, grid.width, grid.height, i, j)
    {
      for x := 0 to grid.width
        invariant Valid()
        invariant forall i, j :: grid.InRange(i, j) ==>
          ClueAt(i, j) == if j < y || (j == y && i < x) then Relabelled(before, grid.width, grid.height, i, j)
                          else ClueIn(before, grid.width, grid.height, i, j)
      {
        SamePixels(before);
        PixelsAroundOnlyPixels(Cells(), before, grid.width, grid.height, x, y);
        CellsAt(x, y);
        var _ := PutClue(x, y);
      }
    }

    /** The pixel flags agree with before's when they agree at every (x, y). */
    lemma SamePixels(before: seq<Clue>)
      requires Valid() && |before| == grid.width * grid.height
      requires forall i, j :: grid.InRange(i, j) ==> ClueAt(i, j).isPixel == ClueIn(before, grid.width, grid.height, i, j).isPixel
      ensures forall k :: 0 <= k < |before| ==> Cells()[k].isPixel == before[k].isPixel
    {
      forall k | 0 <= k < |before|
        ensures Cells()[k].isPixel == before[k].isPixel
      {
        LinearToXY(k, grid.width, grid.height);
        CellsAt(XOf(k, grid.width), YOf(k, grid.width));
      }
    }

    /** removeClue(x, y): the clue at (x, y) becomes -1 ("no clue"); nothing else changes. */
    method RemoveClue(x: int, y: int) returns (r: Outcome<GridError>)
      requires Valid()
      modifies Repr()
      ensures Valid()
      ensures r.Pass? <==> grid.InRange(x, y)
      ensures r.Fail? ==> r.error == IndexOutOfBounds
      ensures forall i, j :: grid.InRange(i, j) ==>
        ClueAt(i, j) == if r.Pass? && i == x && j == y then old(ClueAt(i, j)).(clue := -1) else old(ClueAt(i, j))
    {
      var got := grid.Get(x, y);
      if got.Failure? {
        return Fail(IndexOutOfBounds);
      }
      Put(x, y, got.value.value.(clue := -1));
      r := Pass;
    }

    /** toClues(): each clue as its number, "no clue" as a space, nothing between the cells of a
        row and a newline between rows. */
    method ToClues() returns (s: string)
      requires Valid()
      ensures grid.width >= 1 ==> s == GridText(Texts(Cells(), ClueSymbol), grid.width, grid.height, "")
      ensures grid.width * grid.height == 0 ==> s == ""
    {
      s := grid.ToGridString(ClueText, "");
      assert Texts(grid.Elements(), ClueText) == Texts(Cells(), ClueSymbol) by {
        forall k | 0 <= k < grid.Length()
          ensures grid.Elements()[k] == Some(Cells()[k])
        {
          LinearToXY(k, grid.width, grid.height);
        }
      }
    }
  }

  // ---------------------------------------------------------------------------------------------
  // Reading the text formats

  /** The mapper both readers give Grid.fromString: Clue.fromString of the token. */
  function ClueOf(x: int, y: int, token: string): Option<Clue>
  {
    Some(Clues.FromString(token))
  }

  /** fromClues' tokenizer, line.split(""): one token per character. */
  function CharTokens(line: string): (t: Option<seq<string>>)
    ensures t.Some? && |t.value| >= 1
  {
    Some(SplitChars(line))
  }

  /** The CSV tokenizer as fromCSV should use it: a blank line is a row without tokens (where
      parseLineAsCSV returns null), every other line is parsed as before. */
  function CsvTokens(line: string): (t: Option<seq<string>>)
    ensures t.Some?
    ensures ParseCsv(line).Some? ==> t == ParseCsv(line)
    ensures ParseCsv(line).None? ==> t == Some([])
  {
    Some(if ParseCsv(line).Some? then ParseCsv(line).value else [])
  }

  /** Cell (x, y) of a mosaic read from token lists: the parsed token, or a default clue where the
      line is shorter than the longest one (the null that fill then replaces). */
  function CellClue(toks: seq<seq<string>>, x: int, y: int): Clue
    requires 0 <= y < |toks|
  {
    if 0 <= x < |toks[y]| then Clues.FromString(toks[y][x]) else Default
  }

  /** m is the mosaic that the lines read with tokenize describe: one row per line, as many columns
      as the longest token list, and the clue of each token in its place. */
  ghost predicate ReadFrom(m: Mosaic, lines: seq<string>, tokenize: string -> Option<seq<string>>)
    requires AllTokenized(lines, tokenize)
    reads m.grid.matrix.cells, m.grid.matrix.CellSet
  {
    var toks := TokenLists(lines, tokenize);
    && m.Valid() && m.grid.width == MaxWidth(toks) && m.grid.height == |lines|
    && forall x, y :: m.grid.InRange(x, y) ==> m.ClueAt(x, y) == CellClue(toks, x, y)
  }

  /** The shared tail of fromClues and fromCSV: wrap the parsed grid in a mosaic and replace every
      null cell by a default clue. */
  method Patch(g: Grid<Clue>, ghost lines: seq<string>, ghost tokenize: string -> Option<seq<string>>) returns (m: Mosaic)
    requires AllTokenized(lines, tokenize)
    requires g.Valid() && g.Whole() && g.width == MaxWidth(TokenLists(lines, tokenize)) && g.height == |lines|
    requires forall x, y :: g.InRange(x, y) ==> g.At(x, y) == CellOf(TokenLists(lines, tokenize), ClueOf, x, y)
    modifies g.Repr()
    ensures m.grid == g && ReadFrom(m, lines, tokenize)
  {
    m := new Mosaic.OfGrid(g);
    g.Fill((x: int, y: int, d: Option<Clue>) => if d.None? then Some(Default) else d);
  }

  /** A line list whose every token list is non-empty has a non-empty longest list. */
  lemma SomeToken(toks: seq<seq<string>>)
    requires |toks| >= 1 && forall y :: 0 <= y < |toks| ==> |toks[y]| >= 1
    ensures MaxWidth(toks) >= 1
  {
    assert |toks[0]| <= MaxWidth(toks);
  }

  /** fromClues(str): one row per line and one cell per character; an empty line is a row with a
      single default clue. The text never fails to read. */
  method FromClues(str: string) returns (m: Mosaic)
    ensures fresh(m.Repr()) && ReadFrom(m, SplitLines(str), CharTokens)
  {
    var lines := SplitLines(str);
    var parsed := GridParsing.FromString(str, CharTokens, ClueOf);
    SomeToken(TokenLists(lines, CharTokens));
    if parsed.Failure? || parsed.value == null {
      assert false;
    }
    var g: Grid<Clue> := parsed.value;
    m := Patch(g, lines, CharTokens);
  }

  /** fromCSV(str) as written: the lines are tokenized by parseLineAsCSV, which returns null for a
      blank line, and the null token list is then dereferenced. */
  method FromCsvAsWritten(str: string) returns (r: Result<Mosaic, ParseError>)
    ensures r.Failure? <==> !AllTokenized(SplitLines(str), ParseCsv)
    ensures r.Success? ==> fresh(r.value.Repr()) && ReadFrom(r.value, SplitLines(str), ParseCsv)
  {
    var lines := SplitLines(str);
    var parsed := GridParsing.FromString(str, ParseCsv, ClueOf);
    if parsed.Failure? {
      return Failure(NullPointer);
    }
    CsvFieldsNonEmpty(lines);
    SomeToken(TokenLists(lines, ParseCsv));
    if parsed.value == null {
      assert false;
    }
    var g: Grid<Clue> := parsed.value;
    var m := Patch(g, lines, ParseCsv);
    r := Success(m);
  }

  /** Every line parseLineAsCSV accepts has at least one field. */
  lemma CsvFieldsNonEmpty(lines: seq<string>)
    requires AllTokenized(lines, ParseCsv)
    ensures forall y :: 0 <= y < |lines| ==> |TokenLists(lines, ParseCsv)[y]| >= 1
  {
  }

  /** A text that ends in a line break has an empty last line, which parseLineAsCSV turns into
      null: fromCSV("1,2\n") throws where the same text without the final line break reads as a
      1 x 2 mosaic. With blank lines read as rows without tokens, it is a 2 x 2 mosaic whose second
      row holds default clues. */
  lemma CsvTrailingLineBreak()
    ensures SplitLines("1,2\n") == ["1,2", ""]
    ensures ParseCsv("") == None && !AllTokenized(SplitLines("1,2\n"), ParseCsv)
    ensures AllTokenized(SplitLines("1,2"), ParseCsv) && TokenLists(SplitLines("1,2"), ParseCsv) == [["1", "2"]]
    ensures TokenLists(SplitLines("1,2\n"), CsvTokens) == [["1", "2"], []]
    ensures MaxWidth(TokenLists(SplitLines("1,2\n"), CsvTokens)) == 2
  {
    ExampleLines();
    ExampleFields();
    assert SplitLines("1,2\n")[1] == "" && ParseCsv("") == None;
  }

  lemma ExampleLines()
    ensures SplitLines("1,2\n") == ["1,2", ""] && SplitLines("1,2") == ["1,2"]
  {
    ExamplePiecesNewline();
    ExamplePieces();
    var a, b := SplitLines("1,2\n"), SplitLines("1,2");
    assert |a| == 2 && a[0] == "1,2" && a[1] == "";
    assert |b| == 1 && b[0] == "1,2";
  }

  lemma ExamplePiecesNewline()
    ensures SplitAt("1,2\n", '\n') == ["1,2", ""]
  {
    assert "1,2\n" == ['1'] + ",2\n" && ",2\n" == [','] + "2\n" && "2\n" == ['2'] + "\n" && "\n" == ['\n'] + "";
    SplitAtCons('\n', "", '\n');
    assert SplitAt("\n", '\n') == ["", ""];
    SplitAtCons('2', "\n", '\n');
    assert ['2'] + "" == "2";
    assert SplitAt("2\n", '\n') == ["2", ""];
    SplitAtCons(',', "2\n", '\n');
    assert [','] + "2" == ",2";
    assert SplitAt(",2\n", '\n') == [",2", ""];
    SplitAtCons('1', ",2\n", '\n');
    assert ['1'] + ",2" == "1,2";
  }

  lemma ExamplePieces()
    ensures SplitAt("1,2", '\n') == ["1,2"]
  {
    assert "1,2" == ['1'] + ",2" && ",2" == [','] + "2" && "2" == ['2'] + "";
    SplitAtCons('2', "", '\n');
    SplitAtCons(',', "2", '\n');
    SplitAtCons('1', ",2", '\n');
  }

  lemma ExampleFields()
    ensures ParseCsv("1,2") == Some(["1", "2"])
  {
    assert "1,2" == ['1'] + ",2" && ",2" == [','] + "2" && "2" == ['2'] + "";
    SplitAtCons('2', "", ',');
    SplitAtCons(',', "2", ',');
    assert SplitAt("2", ',') == ["2"];
    assert SplitAt(",2", ',') == ["", "2"];
    SplitAtCons('1', ",2", ',');
    assert ['1'] + "" == "1";
    assert SplitAt("1,2", ',') == ["1", "2"];
    assert WithoutReturns("1,2") == "1,2" by {
      assert "1,2"[1..] == ",2" && ",2"[1..] == "2" && "2"[1..] == "";
    }
    CsvPlainLine("1,2");
  }

  /** SplitAt on a string given by its first character. */
  lemma SplitAtCons(c: char, t: string, sep: char)
    ensures SplitAt([c] + t, sep) == if c == sep then [""] + SplitAt(t, sep) else [[c] + SplitAt(t, sep)[0]] + SplitAt(t, sep)[1..]
  {
    assert ([c] + t)[0] == c && ([c] + t)[1..] == t;
  }

  /** Where the written reader succeeds, reading blank lines as empty rows changes nothing. */
  lemma CsvTokensAgree(lines: seq<string>)
    requires AllTokenized(lines, ParseCsv)
    ensures AllTokenized(lines, CsvTokens) && TokenLists(lines, CsvTokens) == TokenLists(lines, ParseCsv)
  {
  }

  /** A line yields no CSV token exactly when it is blank (nothing but carriage returns). */
  lemma CsvTokensBlank(line: string)
    ensures |CsvTokens(line).value| == 0 <==> forall i :: 0 <= i < |line| ==> line[i] == '\r'
  {
    CsvFieldCount(line);
  }

  /** fromCSV(str) with blank lines read as rows without tokens: it fails (the null grid of a text
      without any token) exactly when every line is blank, and otherwise reads every line. */
  method FromCsv(str: string) returns (r: Result<Mosaic, ParseError>)
    ensures AllTokenized(SplitLines(str), CsvTokens)
    ensures r.Failure? <==> forall y :: 0 <= y < |SplitLines(str)| ==> |TokenLists(SplitLines(str), CsvTokens)[y]| == 0
    ensures r.Success? ==> fresh(r.value.Repr()) && ReadFrom(r.value, SplitLines(str), CsvTokens)
  {
    var lines := SplitLines(str);
    var parsed := GridParsing.FromString(str, CsvTokens, ClueOf);
    if parsed.Failure? {
      assert false;
    }
    var toks := TokenLists(lines, CsvTokens);
    if parsed.value == null {
      return Failure(NullPointer);
    }
    var g: Grid<Clue> := parsed.value;
    var m := Patch(g, lines, CsvTokens);
    r := Success(m);
  }

  /** The reader fromString picks: CSV when the text holds a comma or a tab, else one character per cell. */
  function Tokenizer(str: string): string -> Option<seq<string>>
  {
    if ',' in str || '\t' in str then CsvTokens else CharTokens
  }

  /** fromString(str): fromCSV for a text with a comma or a tab (whose tabs the CSV tokenizer does
      not split at), fromClues for any other. Only a CSV text without any token fails. */
  method FromString(str: string) returns (r: Result<Mosaic, ParseError>)
    ensures AllTokenized(SplitLines(str), Tokenizer(str))
    ensures r.Failure? ==> ',' in str || '\t' in str
    ensures r.Success? ==> fresh(r.value.Repr()) && ReadFrom(r.value, SplitLines(str), Tokenizer(str))
  {
    if ',' in str || '\t' in str {
      r := FromCsv(str);
    } else {
      var m := FromClues(str);
      r := Success(m);
    }
  }

  /** fromString(str) as written: fromCSV as written for a text with a comma or a tab, so such a
      text fails exactly when one of its lines is blank; fromClues for any other text. */
  method FromStringAsWritten(str: string) returns (r: Result<Mosaic, ParseError>)
    ensures r.Failure? <==> (',' in str || '\t' in str) && !AllTokenized(SplitLines(str), ParseCsv)
    ensures r.Success? ==> fresh(r.value.Repr())
    ensures r.Success? ==> ReadFrom(r.value, SplitLines(str), if ',' in str || '\t' in str then ParseCsv else CharTokens)
  {
    if ',' in str || '\t' in str {
      r := FromCsvAsWritten(str);
    } else {
      var m := FromClues(str);
      r := Success(m);
    }
  }
}
