/** Clue.java: one cell of a mosaic (its fill, its clue number, and whether it is a pixel of the picture). */
module Clues {
  import opened Fills

  /** The three fields of a Clue; a clue value below zero means "no clue". */
  datatype Clue = Clue(fill: Fill, clue: int, isPixel: bool)

  /** new Clue(): an EMPTY cell with no clue that is not a pixel. */
  const Default: Clue := Clue(Empty, -1, false)

  predicate IsDigit(ch: char)
  {
    '0' <= ch <= '9'
  }

  /** The decimal digits StringBuilder.append(int) writes for a non-negative number. */
  function DecimalString(n: nat): (s: string)
    ensures 1 <= |s|
    ensures forall i :: 0 <= i < |s| ==> IsDigit(s[i])
    ensures |s| == 1 <==> n < 10
    ensures n < 10 ==> s[0] as int - '0' as int == n
  {
    if n < 10 then [('0' as int + n) as char]
    else DecimalString(n / 10) + [('0' as int + n % 10) as char]
  }

  /** Clue.toString(fill, clue, pixel): the clue digits, then the fill symbol, then "*" for a pixel. */
  function ToString(c: Clue, fill: bool, clue: bool, pixel: bool): (s: string)
    ensures (|s| > 0 && IsDigit(s[0])) <==> clue && c.clue >= 0
    ensures '#' in s <==> fill && c.fill == Filled
    ensures 'X' in s <==> fill && c.fill == X
    ensures '*' in s <==> pixel && c.isPixel
  {
    (if clue && c.clue >= 0 then DecimalString(c.clue) else "")
    + (if fill then Symbol(c.fill) else "")
    + (if pixel && c.isPixel then "*" else "")
  }

  /** Clue.toString(): all three parts. */
  function Text(c: Clue): (s: string)
    ensures (|s| > 0 && IsDigit(s[0])) <==> c.clue >= 0
    ensures '#' in s <==> c.fill == Filled
    ensures 'X' in s <==> c.fill == X
    ensures '*' in s <==> c.isPixel
  {
    ToString(c, true, true, true)
  }

  /** Clue.fromString: "*" anywhere makes a pixel, "#" (else "X") anywhere sets the fill,
      and a leading ASCII digit is the clue. */
  function FromString(s: string): (c: Clue)
    ensures c.isPixel <==> '*' in s
    ensures c.fill == Filled <==> '#' in s
    ensures c.fill == X <==> '#' !in s && 'X' in s
    ensures c.clue == -1 || 0 <= c.clue <= 9
    ensures c.clue >= 0 <==> |s| > 0 && IsDigit(s[0])
    ensures c.clue >= 0 ==> c.clue == s[0] as int - '0' as int
  {
    Clue(
      if '#' in s then Filled else if 'X' in s then X else Empty,
      if |s| > 0 && IsDigit(s[0]) then s[0] as int - '0' as int else -1,
      '*' in s)
  }

  /** Parsing what toString(fill, clue, pixel) printed restores every field that was printed,
      for clue values -1..9; a field left out reads back as its default. */
  lemma ToStringRoundTrip(c: Clue, fill: bool, clue: bool, pixel: bool)
    requires -1 <= c.clue <= 9
    ensures FromString(ToString(c, fill, clue, pixel))
         == Clue(if fill then c.fill else Empty, if clue then c.clue else -1, pixel && c.isPixel)
  {
    var d := if clue && c.clue >= 0 then DecimalString(c.clue) else "";
    var f := if fill then Symbol(c.fill) else "";
    var p := if pixel && c.isPixel then "*" else "";
    var s := d + f + p;
    assert s == ToString(c, fill, clue, pixel);
    assert forall ch :: ch in d ==> IsDigit(ch);
    assert '#' in s <==> '#' in f;
    assert 'X' in s <==> 'X' in f;
    assert '*' in s <==> '*' in p;
    if clue && c.clue >= 0 {
      assert s[0] == d[0];
    } else if fill {
      assert s[0] == f[0];
    } else if p != "" {
      assert s[0] == '*';
    }
  }

  /** fromString(toString()) is the identity for clue values -1..9. */
  lemma TextRoundTrip(c: Clue)
    requires -1 <= c.clue <= 9
    ensures FromString(Text(c)) == c
  {
    ToStringRoundTrip(c, true, true, true);
  }

  /** The mutable Clue object: the setters, copy and merge change its three fields in place. */
  class ClueRecord {
    var fill: Fill
    var clue: int
    var isPixel: bool

    /** The fields as a value. */
    function Value(): Clue
      reads this
    {
      Clue(fill, clue, isPixel)
    }

    /** new Clue(): the field initialisers. */
    constructor ()
      ensures Value() == Default
    {
      fill, clue, isPixel := Empty, -1, false;
    }

    /** new Clue(fill, clue, isPixel). */
    constructor Of(fill: Fill, clue: int, isPixel: bool)
      ensures Value() == Clue(fill, clue, isPixel)
    {
      this.fill, this.clue, this.isPixel := fill, clue, isPixel;
    }

    /** new Clue(isPixel). */
    constructor OfPixel(isPixel: bool)
      ensures Value() == Default.(isPixel := isPixel)
    {
      this.fill, this.clue, this.isPixel := Empty, -1, isPixel;
    }

    /** new Clue(other): a field-by-field copy, or the defaults when other is null. */
    constructor CopyOf(other: ClueRecord?)
      ensures other == null ==> Value() == Default
      ensures other != null ==> Value() == other.Value()
    {
      if other == null {
        fill, clue, isPixel := Empty, -1, false;
      } else {
        fill, clue, isPixel := other.fill, other.clue, other.isPixel;
      }
    }

    /** copy(): an independent object with equal fields. */
    method Copy() returns (r: ClueRecord)
      ensures fresh(r) && r.Value() == Value()
    {
      r := new ClueRecord.CopyOf(this);
    }

    /** merge(other): takes over all three fields of other. */
    method Merge(other: ClueRecord)
      modifies this
      ensures Value() == old(other.Value())
    {
      SetClue(other.clue);
      SetFill(other.fill);
      SetIsPixel(other.isPixel);
    }

    method SetFill(f: Fill)
      modifies this
      ensures Value() == old(Value()).(fill := f)
    {
      fill := f;
    }

    method SetClue(c: int)
      modifies this
      ensures Value() == old(Value()).(clue := c)
    {
      clue := c;
    }

    method SetIsPixel(b: bool)
      modifies this
      ensures Value() == old(Value()).(isPixel := b)
    {
      isPixel := b;
    }
  }
}
