/**
 * The text side of the grid library (Grid.java): the grid printer toGridString, the CSV line
 * parser parseLineAsCSV, and the line and character splitting fromString relies on.
 */
module GridStrings {
  import opened Wrappers

  // ---------------------------------------------------------------------------------------------
  // Printing

  /** The parts with sep between each two neighbours (String.join). */
  function Join(parts: seq<string>, sep: string): string
  {
    if |parts| == 0 then ""
    else if |parts| == 1 then parts[0]
    else Join(parts[..|parts| - 1], sep) + sep + parts[|parts| - 1]
  }

  /** The generated text of every cell, in order. */
  function Texts<U>(s: seq<U>, gen: U -> string): (t: seq<string>)
    ensures |t| == |s| && forall i :: 0 <= i < |s| ==> t[i] == gen(s[i])
  {
    seq(|s|, i requires 0 <= i < |s| => gen(s[i]))
  }

  /** What toGridString(gen, delim) appends after the k-th cell of a w x h grid: the delimiter
      unless the cell ends its row, else a newline unless it is also the last row. */
  function Separator(k: nat, w: nat, h: nat, delim: string): string
    requires w > 0
  {
    if k % w != w - 1 then delim else if k / w != h - 1 then "\n" else ""
  }

  /** The text toGridString has built after the first n of the generated cell texts. */
  function Printed(cells: seq<string>, w: nat, h: nat, delim: string, n: nat): string
    requires n <= |cells| == w * h
  {
    if n == 0 then "" else Printed(cells, w, h, delim, n - 1) + cells[n - 1] + Separator(n - 1, w, h, delim)
  }

  /** Row y of the printed grid: its cells joined by the delimiter. */
  function RowText(cells: seq<string>, w: nat, h: nat, delim: string, y: nat): string
    requires |cells| == w * h && y < h
  {
    assert y * w + w <= h * w by { MulLe(y + 1, h, w); }
    Join(cells[y * w .. y * w + w], delim)
  }

  /** The grid as text: the rows, each joined by the delimiter, joined by newlines. */
  function GridText(cells: seq<string>, w: nat, h: nat, delim: string): string
    requires |cells| == w * h
  {
    Join(Rows(cells, w, h, delim, h), "\n")
  }

  /** The texts of the first y rows. */
  function Rows(cells: seq<string>, w: nat, h: nat, delim: string, y: nat): (rows: seq<string>)
    requires |cells| == w * h && y <= h
    ensures |rows| == y && forall j :: 0 <= j < y ==> rows[j] == RowText(cells, w, h, delim, j)
  {
    if y == 0 then [] else Rows(cells, w, h, delim, y - 1) + [RowText(cells, w, h, delim, y - 1)]
  }

  lemma MulLe(a: nat, b: nat, c: nat)
    requires a <= b
    ensures a * c <= b * c
  {
  }

  lemma DivMod(n: int, w: nat, q: int, r: int)
    requires w > 0 && 0 <= r < w && n == q * w + r
    ensures n / w == q && n % w == r
  {
    var q', r' := n / w, n % w;
    if q' < q {
      assert (q - q') * w == r' - r;
      MulLe(1, q - q', w);
    } else if q' > q {
      assert (q' - q) * w == r - r';
      MulLe(1, q' - q, w);
    }
  }

  /** The separator after cell i of row y, whose first cell is at base. */
  lemma SeparatorInRow(w: nat, h: nat, delim: string, y: nat, base: nat, i: nat)
    requires i < w && y < h && base == y * w
    ensures Separator(base + i, w, h, delim) == if i < w - 1 then delim else if y < h - 1 then "\n" else ""
  {
    DivMod(base + i, w, y, i);
  }

  /** Joining one more part. */
  lemma JoinSnoc(parts: seq<string>, sep: string)
    requires |parts| >= 2
    ensures Join(parts, sep) == Join(parts[..|parts| - 1], sep) + sep + parts[|parts| - 1]
  {
  }

  /** Row y fits inside the cell texts. */
  lemma RowFits(w: nat, h: nat, y: nat)
    requires y < h
    ensures y * w + w <= w * h
  {
    MulLe(y + 1, h, w);
    assert (y + 1) * w == y * w + w;
    assert h * w == w * h;
  }

  /** One more cell printed. */
  lemma PrintedStep(cells: seq<string>, w: nat, h: nat, delim: string, k: nat)
    requires k < |cells| == w * h
    ensures w > 0
    ensures Printed(cells, w, h, delim, k + 1) == Printed(cells, w, h, delim, k) + cells[k] + Separator(k, w, h, delim)
  {
  }

  /** Inside row y (first cell at base), after i of its cells: the row's first i texts joined,
      followed by whatever comes after cell i - 1. */
  lemma {:induction false} PrintedWithinRow(cells: seq<string>, w: nat, h: nat, delim: string, y: nat, base: nat, i: nat)
    requires |cells| == w * h && y < h && base == y * w && base + w <= |cells| && 1 <= i <= w
    ensures Printed(cells, w, h, delim, base + i) ==
      Printed(cells, w, h, delim, base) + Join(cells[base .. base + i], delim)
      + (if i < w then delim else if y < h - 1 then "\n" else "")
  {
    var k := base + i - 1;
    var sep := Separator(k, w, h, delim);
    SeparatorInRow(w, h, delim, y, base, i - 1);
    assert sep == if i < w then delim else if y < h - 1 then "\n" else "";
    PrintedStep(cells, w, h, delim, k);
    var a := Printed(cells, w, h, delim, base);
    if i > 1 {
      PrintedWithinRow(cells, w, h, delim, y, base, i - 1);
      JoinSlice(cells, base, i, delim);
      var b := Join(cells[base .. base + i - 1], delim);
      assert Printed(cells, w, h, delim, k) == a + b + delim;
      ConcatAssoc(a, b, delim, cells[k], sep);
    } else {
      assert cells[base .. base + i] == [cells[k]];
      assert Join(cells[base .. base + i], delim) == cells[k];
    }
    assert Printed(cells, w, h, delim, base + i) == a + Join(cells[base .. base + i], delim) + sep;
  }

  /** Joining a slice one part longer. */
  lemma JoinSlice(cells: seq<string>, base: nat, i: nat, delim: string)
    requires 2 <= i && base + i <= |cells|
    ensures Join(cells[base .. base + i], delim) == Join(cells[base .. base + i - 1], delim) + delim + cells[base + i - 1]
  {
    var row := cells[base .. base + i];
    assert row[..i - 1] == cells[base .. base + i - 1];
    JoinSnoc(row, delim);
  }

  lemma ConcatAssoc(a: string, b: string, c: string, d: string, e: string)
    ensures a + b + c + d + e == a + (b + c + d) + e
  {
  }

  /** After y whole rows: the first y rows joined by newlines, and a newline if more rows follow. */
  lemma {:induction false} PrintedRows(cells: seq<string>, w: nat, h: nat, delim: string, y: nat, base: nat)
    requires |cells| == w * h && 1 <= w && y <= h && base == y * w && base <= |cells|
    ensures Printed(cells, w, h, delim, base) == Join(Rows(cells, w, h, delim, y), "\n") + (if 0 < y < h then "\n" else "")
  {
    if y > 0 {
      var prevBase := base - w;
      assert prevBase == (y - 1) * w;
      RowFits(w, h, y - 1);
      PrintedRows(cells, w, h, delim, y - 1, prevBase);
      PrintedWithinRow(cells, w, h, delim, y - 1, prevBase, w);
      PrintedRowsStep(cells, w, h, delim, y, prevBase);
    }
  }

  /** The step of PrintedRows: row y - 1, first cell at prevBase, printed after the rows above it. */
  lemma PrintedRowsStep(cells: seq<string>, w: nat, h: nat, delim: string, y: nat, prevBase: nat)
    requires |cells| == w * h && 1 <= w && 1 <= y <= h && prevBase == (y - 1) * w && prevBase + w <= |cells|
    requires Printed(cells, w, h, delim, prevBase) == Join(Rows(cells, w, h, delim, y - 1), "\n") + (if 1 < y then "\n" else "")
    requires Printed(cells, w, h, delim, prevBase + w) == Printed(cells, w, h, delim, prevBase)
      + Join(cells[prevBase .. prevBase + w], delim) + (if w < w then delim else if y - 1 < h - 1 then "\n" else "")
    ensures Printed(cells, w, h, delim, prevBase + w) == Join(Rows(cells, w, h, delim, y), "\n") + (if y < h then "\n" else "")
  {
    var rows, prev := Rows(cells, w, h, delim, y), Rows(cells, w, h, delim, y - 1);
    var row := RowText(cells, w, h, delim, y - 1);
    RowTextAt(cells, w, h, delim, y - 1, prevBase);
    assert rows == prev + [row];
    if y > 1 {
      JoinSnoc(rows, "\n");
      assert rows[..y - 1] == prev;
    } else {
      assert rows == [row];
    }
  }

  lemma RowTextAt(cells: seq<string>, w: nat, h: nat, delim: string, y: nat, base: nat)
    requires |cells| == w * h && y < h && base == y * w
    ensures base + w <= |cells| && RowText(cells, w, h, delim, y) == Join(cells[base .. base + w], delim)
  {
    RowFits(w, h, y);
  }

  /** toGridString(gen, delim) prints the rows joined by newlines, each row's cells joined by the
      delimiter, with no newline after the last row. */
  lemma PrintedIsGridText(cells: seq<string>, w: nat, h: nat, delim: string)
    requires |cells| == w * h && w >= 1
    ensures Printed(cells, w, h, delim, |cells|) == GridText(cells, w, h, delim)
  {
    assert h * w == w * h;
    PrintedRows(cells, w, h, delim, h, h * w);
  }

  // ---------------------------------------------------------------------------------------------
  // CSV lines

  /** The parser's variables between two characters: the finished fields, the field being read,
      whether it is inside quotes, whether the field has had a quoted section, and whether a
      newline has ended the line. */
  datatype CsvState = CsvState(store: seq<string>, cur: string, inquotes: bool, started: bool, done: bool)

  const CsvStart := CsvState([], "", false, false, false)

  /** The parser's reaction to one character. */
  function CsvStep(st: CsvState, ch: char): CsvState
  {
    if st.inquotes then
      if ch == '"' then st.(started := true, inquotes := false) else st.(started := true, cur := st.cur + [ch])
    else if ch == '"' then st.(inquotes := true, cur := if st.started then st.cur + ['"'] else st.cur)
    else if ch == ',' then st.(store := st.store + [st.cur], cur := "", started := false)
    else if ch == '\r' then st
    else if ch == '\n' then st.(done := true)
    else st.(cur := st.cur + [ch])
  }

  /** The state after reading s, stopping at a newline outside quotes. */
  function CsvRun(st: CsvState, s: string): CsvState
    decreases |s|
  {
    if s == [] || st.done then st else CsvRun(CsvStep(st, s[0]), s[1..])
  }

  /** The number of leading carriage returns, which parseLineAsCSV skips before anything else. */
  function LeadingReturns(s: string): (k: nat)
    ensures k <= |s| && forall i :: 0 <= i < k ==> s[i] == '\r'
    ensures k < |s| ==> s[k] != '\r'
  {
    if s == [] || s[0] != '\r' then 0 else 1 + LeadingReturns(s[1..])
  }

  /** parseLineAsCSV(str): null for a line of nothing but carriage returns, else the fields. */
  function ParseCsv(s: string): Option<seq<string>>
  {
    var k := LeadingReturns(s);
    if k == |s| then None
    else var st := CsvRun(CsvStart, s[k..]); Some(st.store + [st.cur])
  }

  /** The parser itself, reading one character at a time as the source's Reader loop does. */
  method ParseLineAsCsv(s: string) returns (r: Option<seq<string>>)
    ensures r == ParseCsv(s)
  {
    var i := 0;
    while i < |s| && s[i] == '\r'
      invariant i <= |s| && forall j :: 0 <= j < i ==> s[j] == '\r'
    {
      i := i + 1;
    }
    assert i == LeadingReturns(s) by {
      LeadingReturnsIs(s, i);
    }
    if i == |s| {
      return None;
    }
    var store: seq<string> := [];
    var cur: string := "";
    var inquotes, started := false, false;
    ghost var k := i;
    while i < |s|
      invariant k <= i <= |s|
      invariant CsvRun(CsvStart, s[k..]) == CsvRun(CsvState(store, cur, inquotes, started, false), s[i..])
    {
      var ch := s[i];
      assert s[i..][0] == ch && s[i..][1..] == s[i + 1..];
      if inquotes {
        started := true;
        if ch == '"' {
          inquotes := false;
        } else {
          cur := cur + [ch];
        }
      } else {
        if ch == '"' {
          inquotes := true;
          if started {
            cur := cur + ['"'];
          }
        } else if ch == ',' {
          store := store + [cur];
          cur := "";
          started := false;
        } else if ch == '\r' {
        } else if ch == '\n' {
          break;
        } else {
          cur := cur + [ch];
        }
      }
      i := i + 1;
    }
    r := Some(store + [cur]);
  }

  lemma LeadingReturnsIs(s: string, i: nat)
    requires i <= |s| && (forall j :: 0 <= j < i ==> s[j] == '\r') && (i < |s| ==> s[i] != '\r')
    ensures LeadingReturns(s) == i
  {
    if i > 0 {
      LeadingReturnsIs(s[1..], i - 1);
    }
  }

  /** Reading a + b is reading a, then b. */
  lemma {:induction false} CsvRunAppend(st: CsvState, a: string, b: string)
    ensures CsvRun(st, a + b) == CsvRun(CsvRun(st, a), b)
    decreases |a|
  {
    if a != [] && !st.done {
      assert (a + b)[0] == a[0] && (a + b)[1..] == a[1..] + b;
      CsvRunAppend(CsvStep(st, a[0]), a[1..], b);
    } else if a == [] {
      assert a + b == b;
    } else {
      if b != [] {
        assert CsvRun(st, a + b) == st;
      }
    }
  }

  // Reference definitions for the properties of the parser.

  /** s with every carriage return removed. */
  function WithoutReturns(s: string): (t: string)
    ensures |t| <= |s|
  {
    if s == [] then "" else (if s[0] == '\r' then "" else [s[0]]) + WithoutReturns(s[1..])
  }

  /** s cut at every occurrence of sep: one more piece than there are separators. */
  function SplitAt(s: string, sep: char): (parts: seq<string>)
    ensures |parts| >= 1
  {
    if s == [] then [""]
    else var rest := SplitAt(s[1..], sep);
      if s[0] == sep then [""] + rest else [[s[0]] + rest[0]] + rest[1..]
  }

  /** The number of times c occurs in s. */
  function Occurrences(s: string, c: char): nat
  {
    if s == [] then 0 else (if s[0] == c then 1 else 0) + Occurrences(s[1..], c)
  }

  lemma {:induction false} SplitAtCount(s: string, sep: char)
    ensures |SplitAt(s, sep)| == Occurrences(s, sep) + 1
  {
    if s != [] {
      SplitAtCount(s[1..], sep);
    }
  }

  /** The commas the parser treats as field separators: those outside quotes (an even number of
      quotes before them) and before the first newline outside quotes. */
  function UnquotedCommas(s: string, inquotes: bool): nat
  {
    if s == [] then 0
    else if s[0] == '"' then UnquotedCommas(s[1..], !inquotes)
    else if !inquotes && s[0] == '\n' then 0
    else (if !inquotes && s[0] == ',' then 1 else 0) + UnquotedCommas(s[1..], inquotes)
  }

  /** Reading adds one stored field per separating comma. */
  lemma {:induction false} CsvRunCountsFields(st: CsvState, s: string)
    requires !st.done
    ensures |CsvRun(st, s).store| == |st.store| + UnquotedCommas(s, st.inquotes)
    decreases |s|
  {
    if s != [] {
      var next := CsvStep(st, s[0]);
      if next.done {
        assert CsvRun(st, s) == CsvRun(next, s[1..]) == next;
      } else {
        CsvRunCountsFields(next, s[1..]);
      }
    }
  }

  lemma {:induction false} UnquotedCommasSkipsReturns(s: string, k: nat)
    requires k <= |s| && forall i :: 0 <= i < k ==> s[i] == '\r'
    ensures UnquotedCommas(s, false) == UnquotedCommas(s[k..], false)
  {
    if k > 0 {
      UnquotedCommasSkipsReturns(s[1..], k - 1);
      assert s[1..][k - 1..] == s[k..];
    }
  }

  /** parseLineAsCSV returns null exactly for the empty line and lines of carriage returns only,
      and otherwise one more field than there are commas outside quotes. */
  lemma CsvFieldCount(s: string)
    ensures ParseCsv(s).None? <==> forall i :: 0 <= i < |s| ==> s[i] == '\r'
    ensures ParseCsv(s).Some? ==> |ParseCsv(s).value| == UnquotedCommas(s, false) + 1
  {
    var k := LeadingReturns(s);
    if k < |s| {
      CsvRunCountsFields(CsvStart, s[k..]);
      UnquotedCommasSkipsReturns(s, k);
    }
  }

  /** What the parser sees of a field whose reading has begun with text c: the first piece
      continues c. */
  function Continue(c: string, parts: seq<string>): seq<string>
    requires |parts| >= 1
  {
    [c + parts[0]] + parts[1..]
  }

  /** How one more character in front changes the split pieces a field continues into. */
  lemma ContinueStep(cur: string, c: char, t: string)
    ensures c == ',' ==> [cur] + Continue("", SplitAt(t, ',')) == Continue(cur, SplitAt([c] + t, ','))
    ensures c != ',' ==> Continue(cur + [c], SplitAt(t, ',')) == Continue(cur, SplitAt([c] + t, ','))
  {
    var rest := SplitAt(t, ',');
    assert ([c] + t)[0] == c && ([c] + t)[1..] == t;
    if c == ',' {
      assert "" + rest[0] == rest[0];
      assert cur + "" == cur;
      assert [rest[0]] + rest[1..] == rest;
    } else {
      assert cur + [c] + rest[0] == cur + ([c] + rest[0]);
    }
  }

  /** Dropping carriage returns from a non-empty string, one character at a time. */
  lemma WithoutReturnsCons(s: string)
    requires s != []
    ensures WithoutReturns(s) == if s[0] == '\r' then WithoutReturns(s[1..]) else [s[0]] + WithoutReturns(s[1..])
  {
  }

  /** Outside quotes, with no quote or newline ahead, reading splits the rest at the commas and
      drops carriage returns. */
  lemma {:induction false} CsvRunPlain(st: CsvState, s: string)
    requires !st.done && !st.inquotes
    requires forall i :: 0 <= i < |s| ==> s[i] != '"' && s[i] != '\n'
    ensures var f := CsvRun(st, s);
      !f.done && !f.inquotes && f.store + [f.cur] == st.store + Continue(st.cur, SplitAt(WithoutReturns(s), ','))
    decreases |s|
  {
    if s == [] {
      assert st.cur + "" == st.cur;
    } else {
      CsvRunPlain(CsvStep(st, s[0]), s[1..]);
      CsvPlainStep(st, s);
    }
  }

  /** The step of CsvRunPlain: one plain character read in front of the rest. */
  lemma CsvPlainStep(st: CsvState, s: string)
    requires !st.done && !st.inquotes && s != [] && s[0] != '"' && s[0] != '\n'
    requires var next := CsvStep(st, s[0]); var f := CsvRun(next, s[1..]);
      !f.done && !f.inquotes && f.store + [f.cur] == next.store + Continue(next.cur, SplitAt(WithoutReturns(s[1..]), ','))
    ensures var f := CsvRun(st, s);
      !f.done && !f.inquotes && f.store + [f.cur] == st.store + Continue(st.cur, SplitAt(WithoutReturns(s), ','))
  {
    var next := CsvStep(st, s[0]);
    WithoutReturnsCons(s);
    assert CsvRun(st, s) == CsvRun(next, s[1..]);
    var t := WithoutReturns(s[1..]);
    if s[0] == '\r' {
      assert next == st && WithoutReturns(s) == t;
    } else {
      assert WithoutReturns(s) == [s[0]] + t;
      ContinueStep(st.cur, s[0], t);
      if s[0] == ',' {
        CommaJoins(st.store, st.cur, Continue("", SplitAt(t, ',')));
      }
    }
  }

  lemma CommaJoins(store: seq<string>, cur: string, parts: seq<string>)
    ensures (store + [cur]) + parts == store + ([cur] + parts)
  {
  }

  /** ParseCsv, once the leading carriage returns are counted. */
  lemma ParseCsvIs(s: string, k: nat)
    requires k == LeadingReturns(s)
    ensures k == |s| ==> ParseCsv(s) == None
    ensures k < |s| ==> ParseCsv(s) == Some(CsvRun(CsvStart, s[k..]).store + [CsvRun(CsvStart, s[k..]).cur])
  {
  }

  /** A field that starts empty continues into the pieces unchanged. */
  lemma ContinueEmpty(parts: seq<string>)
    requires |parts| >= 1
    ensures Continue("", parts) == parts
  {
    assert "" + parts[0] == parts[0];
  }

  /** A quote-free line without a newline: its fields are the pieces between the commas, carriage
      returns dropped, and null when nothing but carriage returns is left. */
  lemma CsvPlainLine(s: string)
    requires forall i :: 0 <= i < |s| ==> s[i] != '"' && s[i] != '\n'
    ensures ParseCsv(s) == if WithoutReturns(s) == "" then None else Some(SplitAt(WithoutReturns(s), ','))
  {
    var k := LeadingReturns(s);
    ParseCsvIs(s, k);
    WithoutReturnsSkips(s, k);
    var t := s[k..];
    if k == |s| {
      assert t == [];
    } else {
      WithoutReturnsKeeps(t);
      assert forall i :: 0 <= i < |t| ==> t[i] == s[k + i];
      CsvRunPlain(CsvStart, t);
      var parts := SplitAt(WithoutReturns(t), ',');
      ContinueEmpty(parts);
      var f := CsvRun(CsvStart, t);
      assert f.store + [f.cur] == [] + parts;
      assert [] + parts == parts;
      assert ParseCsv(s) == Some(f.store + [f.cur]);
      assert WithoutReturns(s) != "";
    }
  }

  /** A newline outside quotes ends the line: whatever follows it is ignored. */
  lemma CsvNewlineEnds(s: string, rest: string)
    requires forall i :: 0 <= i < |s| ==> s[i] != '"' && s[i] != '\n'
    ensures ParseCsv(s + "\n" + rest) == Some(SplitAt(WithoutReturns(s), ','))
  {
    var k := LeadingReturns(s);
    LeadingReturnsBeforeNewline(s, rest);
    SliceBeforeNewline(s, rest, k);
    ParseCsvIs(s + "\n" + rest, k);
    CsvPlainThenNewline(s[k..], rest);
    WithoutReturnsSkips(s, k);
  }

  lemma LeadingReturnsBeforeNewline(s: string, rest: string)
    ensures LeadingReturns(s + "\n" + rest) == LeadingReturns(s)
  {
    var line := s + "\n" + rest;
    assert forall j :: 0 <= j < |s| ==> line[j] == s[j];
    assert line[|s|] == '\n';
    LeadingReturnsIs(line, LeadingReturns(s));
  }

  lemma SliceBeforeNewline(s: string, rest: string, k: nat)
    requires k <= |s|
    ensures (s + "\n" + rest)[k..] == s[k..] + "\n" + rest
  {
  }

  /** Reading a quote-free line and then a newline from the start leaves the comma-separated
      pieces of the line, carriage returns dropped. */
  lemma CsvPlainThenNewline(t: string, rest: string)
    requires forall i :: 0 <= i < |t| ==> t[i] != '"' && t[i] != '\n'
    ensures var f := CsvRun(CsvStart, t + "\n" + rest);
      f.store + [f.cur] == SplitAt(WithoutReturns(t), ',')
  {
    CsvRunAppend(CsvStart, t, "\n" + rest);
    assert t + "\n" + rest == t + ("\n" + rest);
    CsvRunPlain(CsvStart, t);
    var f := CsvRun(CsvStart, t);
    CsvRunNewline(f, rest);
    var parts := SplitAt(WithoutReturns(t), ',');
    ContinueEmpty(parts);
    assert f.store + [f.cur] == [] + parts == parts;
  }

  /** A newline read outside quotes ends the line. */
  lemma CsvRunNewline(st: CsvState, rest: string)
    requires !st.done && !st.inquotes
    ensures CsvRun(st, "\n" + rest) == st.(done := true)
  {
    assert ("\n" + rest)[0] == '\n' && ("\n" + rest)[1..] == rest;
  }

  lemma {:induction false} WithoutReturnsSkips(s: string, k: nat)
    requires k <= |s| && forall i :: 0 <= i < k ==> s[i] == '\r'
    ensures WithoutReturns(s) == WithoutReturns(s[k..])
  {
    if k > 0 {
      WithoutReturnsSkips(s[1..], k - 1);
      assert s[1..][k - 1..] == s[k..];
    }
  }

  lemma WithoutReturnsKeeps(s: string)
    requires s != [] && s[0] != '\r'
    ensures WithoutReturns(s) != ""
  {
    assert WithoutReturns(s)[0] == s[0];
  }

  /** Inside quotes, with no quote ahead, every character (commas, newlines, carriage returns
      included) is kept verbatim. */
  lemma {:induction false} CsvRunQuoted(st: CsvState, s: string)
    requires !st.done && st.inquotes
    requires forall i :: 0 <= i < |s| ==> s[i] != '"'
    ensures CsvRun(st, s) == st.(cur := st.cur + s, started := st.started || s != [])
    decreases |s|
  {
    if s != [] {
      CsvRunQuoted(CsvStep(st, s[0]), s[1..]);
      assert st.cur + [s[0]] + s[1..] == st.cur + s;
    } else {
      assert st.cur + s == st.cur;
    }
  }

  /** Reading a quote, then quote-free text, then a quote, from outside quotes. */
  lemma CsvRunQuotedSection(st: CsvState, a: string, rest: string)
    requires !st.done && !st.inquotes
    requires forall i :: 0 <= i < |a| ==> a[i] != '"'
    ensures CsvRun(st, "\"" + a + "\"" + rest)
         == CsvRun(st.(cur := (if st.started then st.cur + "\"" else st.cur) + a, started := true), rest)
  {
    var open := CsvStep(st, '"');
    var s := "\"" + a + "\"" + rest;
    assert s[0] == '"' && s[1..] == a + ("\"" + rest);
    CsvRunAppend(open, a, "\"" + rest);
    CsvRunQuoted(open, a);
    var inside := open.(cur := open.cur + a, started := open.started || a != []);
    assert ("\"" + rest)[0] == '"' && ("\"" + rest)[1..] == rest;
    assert CsvRun(inside, "\"" + rest) == CsvRun(CsvStep(inside, '"'), rest);
  }

  /** A quoted field keeps its commas and line breaks, and a doubled quote inside it reads as one
      literal quote. */
  lemma CsvQuotedField(a: string, b: string)
    requires forall i :: 0 <= i < |a| ==> a[i] != '"'
    requires forall i :: 0 <= i < |b| ==> b[i] != '"'
    ensures ParseCsv("\"" + a + "\"") == Some([a])
    ensures ParseCsv("\"" + a + "\"\"" + b + "\"") == Some([a + "\"" + b])
  {
    var s1 := "\"" + a + "\"";
    assert LeadingReturns(s1) == 0;
    ParseCsvIs(s1, 0);
    assert s1[0..] == s1 == "\"" + a + "\"" + "";
    CsvRunQuotedSection(CsvStart, a, "");
    var f1 := CsvStart.(cur := "" + a, started := true);
    assert CsvRun(CsvStart, s1) == CsvRun(f1, "") == f1;
    assert "" + a == a;
    assert f1.store + [f1.cur] == [a];

    var s2 := "\"" + a + "\"\"" + b + "\"";
    assert LeadingReturns(s2) == 0;
    ParseCsvIs(s2, 0);
    var tail := "\"" + b + "\"" + "";
    assert s2[0..] == s2 == "\"" + a + "\"" + tail;
    CsvRunQuotedSection(CsvStart, a, tail);
    var mid := CsvStart.(cur := "" + a, started := true);
    assert CsvRun(CsvStart, s2) == CsvRun(mid, tail);
    CsvRunQuotedSection(mid, b, "");
    var f2 := mid.(cur := mid.cur + "\"" + b, started := true);
    assert CsvRun(mid, tail) == CsvRun(f2, "") == f2;
    assert f2.store + [f2.cur] == [a + "\"" + b];
  }

  // ---------------------------------------------------------------------------------------------
  // Lines and characters

  /** str.split("\\r?\\n", -1): the text cut at every line feed, a carriage return just before a
      line feed going with it; trailing empty lines are kept. */
  function SplitLines(s: string): (lines: seq<string>)
    ensures |lines| == Occurrences(s, '\n') + 1
  {
    var pieces := SplitAt(s, '\n');
    SplitAtCount(s, '\n');
    seq(|pieces|, i requires 0 <= i < |pieces| =>
      if i < |pieces| - 1 && |pieces[i]| > 0 && pieces[i][|pieces[i]| - 1] == '\r'
      then pieces[i][..|pieces[i]| - 1] else pieces[i])
  }

  /** line.split(""): one token per character, and the single token "" for an empty line. */
  function SplitChars(line: string): (tokens: seq<string>)
    ensures |tokens| == if line == "" then 1 else |line|
    ensures line != "" ==> forall i :: 0 <= i < |line| ==> tokens[i] == [line[i]]
  {
    if line == "" then [""] else seq(|line|, i requires 0 <= i < |line| => [line[i]])
  }
}
