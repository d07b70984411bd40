/**
 * Grid.fromString: a grid read from text, one line per row and one token per cell. The line
 * tokenizer is a parameter: line.split("") (one token per character) for the clue format, and
 * parseLineAsCSV for the CSV format. A tokenizer result of None is the Java null.
 */
module GridParsing {
  import opened Wrappers
  import opened Grids
  import opened GridStrings

  /** The exception fromString can end in: dereferencing a null token list. */
  datatype ParseError = NullPointer

  /** The longest token list, 0 when there is none. */
  function MaxWidth(toks: seq<seq<string>>): (m: nat)
    ensures forall y :: 0 <= y < |toks| ==> |toks[y]| <= m
    ensures m == 0 || exists y :: 0 <= y < |toks| && |toks[y]| == m
  {
    if |toks| == 0 then 0
    else
      var m' := MaxWidth(toks[..|toks| - 1]);
      assert forall y :: 0 <= y < |toks| - 1 ==> toks[..|toks| - 1][y] == toks[y];
      if |toks[|toks| - 1]| > m' then |toks[|toks| - 1]| else m'
  }

  /** Every line has a token list (no tokenizer call returns null). */
  predicate AllTokenized(lines: seq<string>, tokenize: string -> Option<seq<string>>)
  {
    forall y :: 0 <= y < |lines| ==> tokenize(lines[y]).Some?
  }

  /** The token lists of all lines. */
  function TokenLists(lines: seq<string>, tokenize: string -> Option<seq<string>>): (toks: seq<seq<string>>)
    requires AllTokenized(lines, tokenize)
    ensures |toks| == |lines| && forall y :: 0 <= y < |lines| ==> Some(toks[y]) == tokenize(lines[y])
  {
    seq(|lines|, y requires 0 <= y < |lines| => tokenize(lines[y]).value)
  }

  /** Cell (x, y) of the parsed grid: the mapped token x of line y, or null past the line's end. */
  function CellOf<T>(toks: seq<seq<string>>, mapper: (int, int, string) -> Option<T>, x: int, y: int): Option<T>
    requires 0 <= y < |toks|
  {
    if 0 <= x < |toks[y]| then mapper(x, y, toks[y][x]) else None
  }

  /** Whether grid g holds the first y lines of toks, and line y up to token x, and null elsewhere. */
  ghost predicate HoldsPrefix<T>(g: Grid<T>, toks: seq<seq<string>>, line: seq<string>,
                                 mapper: (int, int, string) -> Option<T>, y: nat, x: nat)
    requires g.Valid() && |toks| == y && x <= |line|
    reads g.matrix.cells, g.matrix.CellSet
  {
    forall i, j :: g.InRange(i, j) ==>
      g.At(i, j) == if j < y then CellOf(toks, mapper, i, j)
                    else if j == y && i < x then mapper(i, j, line[i])
                    else None
  }

  /** The grid of fromString for the given lines: it has as many rows as lines and as many columns
      as the longest token list, holds mapper(x, y, token x of line y) and is null past the end of a
      line. It is null when no line has a token, and fromString ends in a NullPointerException as soon
      as the tokenizer returns null for a line. Every grid it builds is new. */
  method FromLines<T>(lines: seq<string>, tokenize: string -> Option<seq<string>>,
                      mapper: (int, int, string) -> Option<T>) returns (r: Result<Grid?<T>, ParseError>)
    ensures r.Failure? <==> !AllTokenized(lines, tokenize)
    ensures r.Success? ==> (r.value == null <==> MaxWidth(TokenLists(lines, tokenize)) == 0)
    ensures r.Success? && r.value != null ==>
      var g := r.value;
      var toks := TokenLists(lines, tokenize);
      g.Valid() && g.Whole() && fresh(g.Repr()) && g.width == MaxWidth(toks) && g.height == |lines|
      && forall x, y :: g.InRange(x, y) ==> g.At(x, y) == CellOf(toks, mapper, x, y)
  {
    var g, ok, toks := ReadLines(lines, tokenize, mapper);
    if !ok {
      return Failure(NullPointer);
    }
    assert toks == TokenLists(lines, tokenize);
    if g != null {
      HoldsAll(g, toks, mapper);
    }
    r := Success(g);
  }

  /** The loop of fromString over the lines: it stops at the first line the tokenizer returns null
      for, and otherwise has written every line. */
  method ReadLines<T>(lines: seq<string>, tokenize: string -> Option<seq<string>>,
                      mapper: (int, int, string) -> Option<T>) returns (g: Grid?<T>, ok: bool, ghost toks: seq<seq<string>>)
    ensures ok <==> AllTokenized(lines, tokenize)
    ensures ok ==> |toks| == |lines| && forall i :: 0 <= i < |lines| ==> tokenize(lines[i]) == Some(toks[i])
    ensures ok ==> Reading(g, toks, mapper, |lines|) && (g != null ==> fresh(g.Repr()))
  {
    g, ok, toks := null, true, [];
    var y := 0;
    while y < |lines|
      invariant 0 <= y <= |lines|
      invariant |toks| == y && forall i :: 0 <= i < y ==> tokenize(lines[i]) == Some(toks[i])
      invariant Reading(g, toks, mapper, |lines|) && (g != null ==> fresh(g.Repr()))
    {
      var t := tokenize(lines[y]);
      if t.None? {
        return g, false, toks;
      }
      g := PutLine(g, toks, t.value, y, |lines|, mapper);
      toks := toks + [t.value];
      assert forall i :: 0 <= i <= y ==> tokenize(lines[i]) == Some(toks[i]);
      y := y + 1;
    }
  }

  /** A grid holding every line holds CellOf everywhere. */
  lemma HoldsAll<T>(g: Grid<T>, toks: seq<seq<string>>, mapper: (int, int, string) -> Option<T>)
    requires g.Valid() && g.height == |toks| && HoldsPrefix(g, toks, [], mapper, |toks|, 0)
    ensures forall x, y :: g.InRange(x, y) ==> g.At(x, y) == CellOf(toks, mapper, x, y)
  {
  }

  /** Grid g (null before the first token) holds the token lists read so far: as many columns as
      the longest of them, the rows of the lines, and null elsewhere. */
  ghost predicate Reading<T>(g: Grid?<T>, toks: seq<seq<string>>, mapper: (int, int, string) -> Option<T>, height: nat)
    reads if g == null then {} else {g.matrix.cells}, if g == null then {} else g.matrix.CellSet
  {
    && (g == null <==> MaxWidth(toks) == 0)
    && (g != null ==>
          && g.Valid() && g.Whole() && g.width == MaxWidth(toks) && g.height == height
          && HoldsPrefix(g, toks, [], mapper, |toks|, 0))
  }

  /** One pass of fromString's inner loop: the tokens of line y written to the grid, which is made
      on the first token and replaced by a wider copy whenever the line is longer than the grid. */
  method PutLine<T>(g: Grid?<T>, ghost toks: seq<seq<string>>, tokens: seq<string>, y: nat, height: nat,
                    mapper: (int, int, string) -> Option<T>) returns (g': Grid?<T>)
    requires y < height && |toks| == y && Reading(g, toks, mapper, height)
    modifies if g == null then {} else g.Repr()
    ensures Reading(g', toks + [tokens], mapper, height)
    ensures g' != null ==> (g != null && g'.Repr() == g.Repr()) || fresh(g'.Repr())
  {
    g' := g;
    for x := 0 to |tokens|
      invariant g' == null <==> MaxWidth(toks) == 0 && x == 0
      invariant g' != null ==> g'.Valid() && g'.Whole() && g'.height == height
      invariant g' != null ==> (g != null && g'.Repr() == g.Repr()) || fresh(g'.Repr())
      invariant g' != null ==> g'.width == if x > 0 && |tokens| > MaxWidth(toks) then |tokens| else MaxWidth(toks)
      invariant g' != null ==> HoldsPrefix(g', toks, tokens, mapper, y, x)
    {
      ghost var before := g';
      g' := Reserve(g', |tokens|, height);
      Reserved(before, g', toks, tokens, mapper, y, x);
      var _ := g'.Set(x, y, mapper(x, y, tokens[x]));
      assert HoldsPrefix(g', toks, tokens, mapper, y, x + 1);
    }
    Widened(toks, tokens);
    if g' != null {
      NextLine(g', toks, tokens, mapper, y);
    }
  }

  /** The grid a token of a line of the given width is written to: a new grid when there is none
      yet, a wider copy when the line is longer than the grid, else the grid itself. */
  method Reserve<T>(g: Grid?<T>, width: nat, height: nat) returns (g': Grid<T>)
    requires g != null ==> g.Valid() && g.Whole() && g.height == height
    ensures g'.Valid() && g'.Whole() && g'.height == height
    ensures g'.width == if g == null || width > g.width then width else g.width
    ensures (g != null && g' == g) || fresh(g'.Repr())
    ensures forall i, j :: g'.InRange(i, j) ==> g'.At(i, j) == if g != null && g.InRange(i, j) then g.At(i, j) else None
  {
    if g == null {
      g' := new Grid<T>(width, height);
    } else if width > g.width {
      g' := Widen(g, width);
    } else {
      g' := g;
    }
  }

  /** The grid Reserve returns holds what the grid before it held. */
  lemma Reserved<T>(before: Grid?<T>, g: Grid<T>, toks: seq<seq<string>>, line: seq<string>,
                    mapper: (int, int, string) -> Option<T>, y: nat, x: nat)
    requires g.Valid() && |toks| == y && x <= |line| && g.height > y
    requires before == null ==> MaxWidth(toks) == 0 && x == 0
    requires before != null ==> before.Valid() && before.height == g.height && HoldsPrefix(before, toks, line, mapper, y, x)
    requires before != null ==> MaxWidth(toks) <= before.width && (x > 0 ==> x <= before.width)
    requires forall i, j :: g.InRange(i, j) ==> g.At(i, j) == if before != null && before.InRange(i, j) then before.At(i, j) else None
    ensures HoldsPrefix(g, toks, line, mapper, y, x)
  {
    forall i, j | g.InRange(i, j)
      ensures g.At(i, j) == if j < y then CellOf(toks, mapper, i, j) else if j == y && i < x then mapper(i, j, line[i]) else None
    {
      if j < y {
        assert |toks[j]| <= MaxWidth(toks);
      }
    }
  }

  /** A full line written is the first y + 1 lines written. */
  lemma NextLine<T>(g: Grid<T>, toks: seq<seq<string>>, line: seq<string>, mapper: (int, int, string) -> Option<T>, y: nat)
    requires g.Valid() && |toks| == y && HoldsPrefix(g, toks, line, mapper, y, |line|)
    ensures HoldsPrefix(g, toks + [line], [], mapper, y + 1, 0)
  {
    var toks' := toks + [line];
    forall i, j | g.InRange(i, j)
      ensures g.At(i, j) == if j < y + 1 then CellOf(toks', mapper, i, j) else None
    {
      if j < y {
        assert toks'[j] == toks[j];
      }
    }
  }

  /** The copy of grid g into a new, wider grid that fromString makes (new Grid, then copyTo). */
  method Widen<T>(g: Grid<T>, width: nat) returns (wider: Grid<T>)
    requires g.Valid() && g.width < width
    ensures wider.Valid() && wider.Whole() && fresh(wider.Repr()) && wider.width == width && wider.height == g.height
    ensures forall i, j :: wider.InRange(i, j) ==> wider.At(i, j) == if g.InRange(i, j) then g.At(i, j) else None
  {
    wider := new Grid<T>(width, g.height);
    CopyGuardsAgreeAtOrigin(g.width, g.height, wider.width, wider.height, 0, 0);
    var r := g.CopyTo(wider, 0, 0);
    forall i, j | wider.InRange(i, j)
      ensures wider.At(i, j) == if g.InRange(i, j) then g.At(i, j) else None
    {
      assert wider.matrix.InRange(i, j);
    }
  }

  /** The longest token list after one more line. */
  lemma Widened(toks: seq<seq<string>>, line: seq<string>)
    ensures MaxWidth(toks + [line]) == if |line| > MaxWidth(toks) then |line| else MaxWidth(toks)
  {
    assert (toks + [line])[..|toks|] == toks;
  }

  /** fromString(str, tokenizer, mapper): the text cut into lines as split("\\r?\\n", -1) does. */
  method FromString<T>(str: string, tokenize: string -> Option<seq<string>>,
                       mapper: (int, int, string) -> Option<T>) returns (r: Result<Grid?<T>, ParseError>)
    ensures r.Failure? <==> !AllTokenized(SplitLines(str), tokenize)
    ensures r.Success? ==> (r.value == null <==> MaxWidth(TokenLists(SplitLines(str), tokenize)) == 0)
    ensures r.Success? && r.value != null ==>
      var g := r.value;
      var toks := TokenLists(SplitLines(str), tokenize);
      g.Valid() && g.Whole() && fresh(g.Repr()) && g.width == MaxWidth(toks) && g.height == |SplitLines(str)|
      && forall x, y :: g.InRange(x, y) ==> g.At(x, y) == CellOf(toks, mapper, x, y)
  {
    r := FromLines(SplitLines(str), tokenize, mapper);
  }
}
