/** Fill.java: the three states a mosaic cell can be painted in. */
module Fills {

  /** FILLED, EMPTY and X (crossed out), in declaration order. */
  datatype Fill = Filled | Empty | X

  /** Fill.toString: the symbol each value is constructed with. */
  function Symbol(f: Fill): (s: string)
    ensures |s| == 1
  {
    match f
    case Filled => "#"
    case Empty => " "
    case X => "X"
  }

  /** There are exactly three fill values. */
  lemma ExactlyThreeFills(f: Fill)
    ensures f == Filled || f == Empty || f == X
    ensures |{Filled, Empty, X}| == 3
  {
  }

  /** The symbols are single characters and no two fills share one, so a symbol identifies its fill. */
  lemma SymbolsDistinct(f: Fill, g: Fill)
    ensures |Symbol(f)| == 1
    ensures Symbol(f) == Symbol(g) <==> f == g
    ensures Symbol(f) == "#" <==> f == Filled
    ensures Symbol(f) == " " <==> f == Empty
    ensures Symbol(f) == "X" <==> f == X
  {
  }
}
