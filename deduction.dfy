/**
 * The deduction rule RecursionSolver.takeStepImpl applies at one clue, and the children
 * endIteration branches into when the rule no longer makes progress, both on board values.
 */
module Deduction {
  import opened Fills
  import opened Clues
  import opened Grids
  import opened Boards

  predicate WindowOf(cells: seq<Clue>, win: seq<nat>)
  {
    forall k :: 0 <= k < |win| ==> win[k] < |cells|
  }

  function Filleds(cells: seq<Clue>, win: seq<nat>): nat
    requires WindowOf(cells, win)
  {
    CountWhere(Gather(cells, win), HasFill(Filled))
  }

  function Crosses(cells: seq<Clue>, win: seq<nat>): nat
    requires WindowOf(cells, win)
  {
    CountWhere(Gather(cells, win), HasFill(X))
  }

  function Empties(cells: seq<Clue>, win: seq<nat>): nat
    requires WindowOf(cells, win)
  {
    CountWhere(Gather(cells, win), HasFill(Empty))
  }

  // ---------------------------------------------------------------------------------------------
  // One deduction step

  /** The result of the rule at a clue: a contradiction, or the painted board, whether a cell was
      painted, and whether the clue is now solved. */
  datatype StepOutcome = Contradiction | Deduced(cells: seq<Clue>, changed: bool, solved: bool)

  /** takeStepImpl at a clue of value k whose window is win: with F filled, X crossed and E empty
      cells there, more than k filled cells or fewer than k cells that are not crossed is a
      contradiction; E + F == k fills every EMPTY cell, then F == k crosses every EMPTY cell out;
      the clue is solved when no EMPTY cell is left in its window. */
  function Rule(cells: seq<Clue>, win: seq<nat>, k: int): StepOutcome
    requires WindowOf(cells, win)
  {
    var F, Xs, E := Filleds(cells, win), Crosses(cells, win), Empties(cells, win);
    if F > k then Contradiction
    else if |win| - Xs < k then Contradiction
    else
      var c1 := if E + F == k then Painted(cells, win, Filled) else cells;
      var c2 := if F == k then Painted(c1, win, X) else c1;
      Deduced(c2, E > 0 && (E + F == k || F == k), Empties(c2, win) == 0)
  }

  /** The rule reports a contradiction exactly when k cannot be reached: it is below the filled count,
      or above the filled count plus the EMPTY cells still open. */
  lemma RuleContradiction(cells: seq<Clue>, win: seq<nat>, k: int)
    requires WindowOf(cells, win)
    ensures Rule(cells, win, k).Contradiction? <==>
      !(Filleds(cells, win) <= k <= Filleds(cells, win) + Empties(cells, win))
  {
    FillCountsPartition(Gather(cells, win));
  }

  /** When the EMPTY cells are exactly the ones missing, they all become FILLED; every other cell,
      in the window or not, is unchanged. */
  lemma RuleFills(cells: seq<Clue>, win: seq<nat>, k: int)
    requires WindowOf(cells, win)
    requires Empties(cells, win) > 0 && Filleds(cells, win) + Empties(cells, win) == k
    ensures var o := Rule(cells, win, k);
      && o.Deduced? && o.changed && o.solved
      && forall i :: 0 <= i < |cells| ==>
           o.cells[i] == if i in win && cells[i].fill == Empty then cells[i].(fill := Filled) else cells[i]
  {
    RuleContradiction(cells, win, k);
    PaintedCounts(cells, win, Filled, X);
  }

  /** When the clue already has all its filled cells, every EMPTY cell of the window is crossed out;
      every other cell is unchanged. */
  lemma RuleCrosses(cells: seq<Clue>, win: seq<nat>, k: int)
    requires WindowOf(cells, win)
    requires Empties(cells, win) > 0 && Filleds(cells, win) == k
    ensures var o := Rule(cells, win, k);
      && o.Deduced? && o.changed && o.solved
      && forall i :: 0 <= i < |cells| ==>
           o.cells[i] == if i in win && cells[i].fill == Empty then cells[i].(fill := X) else cells[i]
  {
    RuleContradiction(cells, win, k);
    PaintedCounts(cells, win, X, Filled);
  }

  /** Otherwise nothing is painted, and the clue is solved only if its window had no EMPTY cell. */
  lemma RuleStalls(cells: seq<Clue>, win: seq<nat>, k: int)
    requires WindowOf(cells, win)
    requires Filleds(cells, win) < k < Filleds(cells, win) + Empties(cells, win)
    ensures var o := Rule(cells, win, k);
      o.Deduced? && o.cells == cells && !o.changed && !o.solved
  {
    RuleContradiction(cells, win, k);
  }

  /** A step that is not a contradiction marks the clue solved exactly when its window had no
      EMPTY cell or the rule could decide all of them. */
  lemma RuleSolved(cells: seq<Clue>, win: seq<nat>, k: int)
    requires WindowOf(cells, win)
    ensures var F, E := Filleds(cells, win), Empties(cells, win);
      var o := Rule(cells, win, k);
      o.Deduced? ==> (o.solved <==> E == 0 || F + E == k || F == k)
    ensures var o := Rule(cells, win, k);
      o.Deduced? ==> (o.changed <==> o.cells != cells)
  {
    var F, E := Filleds(cells, win), Empties(cells, win);
    var o := Rule(cells, win, k);
    if o.Deduced? {
      RuleContradiction(cells, win, k);
      if E > 0 && F + E == k {
        RuleFills(cells, win, k);
        assert o.cells == Painted(cells, win, Filled);
        SomeEmptyPainted(cells, win, Filled);
      } else if E > 0 && F == k {
        RuleCrosses(cells, win, k);
        assert o.cells == Painted(cells, win, X);
        SomeEmptyPainted(cells, win, X);
      } else if E == 0 {
        PaintedNoEmpty(cells, win, Filled);
        PaintedNoEmpty(cells, win, X);
      }
    }
  }

  /** Painting a window without EMPTY cells changes nothing. */
  lemma PaintedNoEmpty(cells: seq<Clue>, win: seq<nat>, f: Fill)
    requires WindowOf(cells, win) && Empties(cells, win) == 0
    ensures Painted(cells, win, f) == cells
  {
    var s := Gather(cells, win);
    CountZero(s, HasFill(Empty));
    forall i | 0 <= i < |cells| && i in win
      ensures cells[i].fill != Empty
    {
      var k :| 0 <= k < |win| && win[k] == i;
      assert s[k] == cells[i];
    }
  }

  /** Painting a window that has an EMPTY cell changes the board. */
  lemma SomeEmptyPainted(cells: seq<Clue>, win: seq<nat>, f: Fill)
    requires WindowOf(cells, win) && Empties(cells, win) > 0 && f != Empty
    ensures Painted(cells, win, f) != cells
  {
    var s := Gather(cells, win);
    CountZero(s, HasFill(Empty));
    var k :| 0 <= k < |s| && s[k].fill == Empty;
    assert win[k] in win;
    assert Painted(cells, win, f)[win[k]].fill == f;
  }

  /** The rule is sound: every way of completing the window that gives the clue exactly k filled
      cells, and keeps every painted cell, agrees with what the rule painted. */
  lemma RuleSound(cells: seq<Clue>, win: seq<nat>, k: int, sol: seq<Clue>)
    requires WindowOf(cells, win) && |sol| == |cells|
    requires forall i :: 0 <= i < |cells| && cells[i].fill != Empty ==> sol[i] == cells[i]
    requires forall j :: 0 <= j < |win| ==> sol[win[j]].fill != Empty
    requires Filleds(sol, win) == k
    requires forall j1, j2 :: 0 <= j1 < |win| && 0 <= j2 < |win| && win[j1] == win[j2] ==> j1 == j2
    ensures var o := Rule(cells, win, k);
      o.Deduced? && forall i :: 0 <= i < |cells| && o.cells[i].fill != Empty ==> sol[i].fill == o.cells[i].fill
  {
    var s, t := Gather(cells, win), Gather(sol, win);
    var F, E := Filleds(cells, win), Empties(cells, win);
    var N := CountWhere(t, HasFill(Filled));
    CompletionCounts(s, t);
    RuleContradiction(cells, win, k);
    var o := Rule(cells, win, k);
    forall i | 0 <= i < |cells| && o.cells[i].fill != Empty
      ensures sol[i].fill == o.cells[i].fill
    {
      if cells[i].fill == Empty {
        assert i in win;
        var j :| 0 <= j < |win| && win[j] == i;
        if E + F == k {
          CompletionAllFilled(s, t, j);
        } else {
          CompletionAllCrossed(s, t, j);
        }
      }
    }
  }

  /** A completion t of s (every EMPTY cell decided, the others kept) has between F and F + E
      filled cells. */
  lemma {:induction false} CompletionCounts(s: seq<Clue>, t: seq<Clue>)
    requires |s| == |t|
    requires forall j :: 0 <= j < |s| ==> t[j].fill != Empty && (s[j].fill != Empty ==> t[j].fill == s[j].fill)
    ensures CountWhere(s, HasFill(Filled)) <= CountWhere(t, HasFill(Filled))
    ensures CountWhere(t, HasFill(Filled)) <= CountWhere(s, HasFill(Filled)) + CountWhere(s, HasFill(Empty))
  {
    if s != [] {
      CompletionCounts(s[..|s| - 1], t[..|t| - 1]);
    }
  }

  /** If a completion reaches F + E filled cells, every EMPTY cell was filled. */
  lemma {:induction false} CompletionAllFilled(s: seq<Clue>, t: seq<Clue>, j: nat)
    requires |s| == |t| && j < |s| && s[j].fill == Empty
    requires forall i :: 0 <= i < |s| ==> t[i].fill != Empty && (s[i].fill != Empty ==> t[i].fill == s[i].fill)
    requires CountWhere(t, HasFill(Filled)) == CountWhere(s, HasFill(Filled)) + CountWhere(s, HasFill(Empty))
    ensures t[j].fill == Filled
  {
    var n := |s| - 1;
    CompletionCounts(s[..n], t[..n]);
    if j < n {
      CompletionAllFilled(s[..n], t[..n], j);
    }
  }

  /** If a completion keeps F filled cells, every EMPTY cell was crossed out. */
  lemma {:induction false} CompletionAllCrossed(s: seq<Clue>, t: seq<Clue>, j: nat)
    requires |s| == |t| && j < |s| && s[j].fill == Empty
    requires forall i :: 0 <= i < |s| ==> t[i].fill != Empty && (s[i].fill != Empty ==> t[i].fill == s[i].fill)
    requires CountWhere(t, HasFill(Filled)) == CountWhere(s, HasFill(Filled))
    ensures t[j].fill == X
  {
    var n := |s| - 1;
    CompletionCounts(s[..n], t[..n]);
    if j < n {
      CompletionAllCrossed(s[..n], t[..n], j);
    }
  }

  /** The loop of takeStepImpl that paints the view: for each cell of the window, in order, an EMPTY
      cell becomes f. */
  method PaintWindow(cells: seq<Clue>, win: seq<nat>, f: Fill) returns (painted: seq<Clue>)
    requires WindowOf(cells, win) && f != Empty
    ensures painted == Painted(cells, win, f)
  {
    painted := cells;
    for k := 0 to |win|
      invariant |painted| == |cells|
      invariant forall i :: 0 <= i < |cells| ==>
        painted[i] == if i in win[..k] then PaintOne(cells[i], f) else cells[i]
    {
      if painted[win[k]].fill == Empty {
        painted := painted[win[k] := painted[win[k]].(fill := f)];
      }
      assert forall i :: i in win[..k + 1] <==> i in win[..k] || i == win[k];
    }
    assert win[..|win|] == win;
  }

  // ---------------------------------------------------------------------------------------------
  // Branching

  /** The positions, within the window, of its EMPTY cells, in window order (the list empties). */
  function EmptyPositions(s: seq<Clue>): (e: seq<nat>)
    ensures forall j :: 0 <= j < |e| ==> e[j] < |s| && s[e[j]].fill == Empty
    ensures forall j1, j2 :: 0 <= j1 < j2 < |e| ==> e[j1] < e[j2]
    ensures forall p :: 0 <= p < |s| && s[p].fill == Empty ==> p in e
    ensures |e| == CountWhere(s, HasFill(Empty))
  {
    if s == [] then []
    else
      var e := EmptyPositions(s[..|s| - 1]);
      assert forall p :: 0 <= p < |s| - 1 ==> s[..|s| - 1][p] == s[p];
      if s[|s| - 1].fill == Empty then e + [|s| - 1] else e
  }

  /** The loop of endIteration that lists the EMPTY cells of the recursion point's view. */
  method ListEmpties(s: seq<Clue>) returns (e: seq<nat>)
    ensures e == EmptyPositions(s)
  {
    e := [];
    for i := 0 to |s|
      invariant e == EmptyPositions(s[..i])
    {
      assert s[..i + 1][..i] == s[..i];
      if s[i].fill == Empty {
        e := e + [i];
      }
    }
    assert s[..|s|] == s;
  }

  /** for (i = 0; i <= m - (k - F); i++): how many children endIteration makes, with m EMPTY and F
      filled cells around a clue of value k. */
  function ChildCount(m: nat, k: int, F: nat): nat
  {
    if m - (k - F) + 1 > 0 then m - (k - F) + 1 else 0
  }

  /** The board child i starts from: the first i EMPTY cells of the window crossed out, EMPTY cell i
      filled, everything else as the parent has it. */
  function ChildCells(cells: seq<Clue>, win: seq<nat>, e: seq<nat>, i: nat): (child: seq<Clue>)
    requires WindowOf(cells, win) && i < |e| && forall j :: 0 <= j < |e| ==> e[j] < |win|
    ensures |child| == |cells|
  {
    seq(|cells|, p requires 0 <= p < |cells| =>
      if p == win[e[i]] then cells[p].(fill := Filled)
      else if exists j :: 0 <= j < i && p == win[e[j]] then cells[p].(fill := X)
      else cells[p])
  }

  /** The loop endIteration runs on child i's copy: cross out EMPTY cells 0 .. i - 1, then fill
      EMPTY cell i. */
  method MakeChild(cells: seq<Clue>, win: seq<nat>, e: seq<nat>, i: nat) returns (child: seq<Clue>)
    requires WindowOf(cells, win) && i < |e| && forall j :: 0 <= j < |e| ==> e[j] < |win|
    requires forall j1, j2 :: 0 <= j1 < |win| && 0 <= j2 < |win| && win[j1] == win[j2] ==> j1 == j2
    requires forall j1, j2 :: 0 <= j1 < j2 < |e| ==> e[j1] < e[j2]
    ensures child == ChildCells(cells, win, e, i)
  {
    child := cells;
    for j := 0 to i
      invariant |child| == |cells|
      invariant forall p :: 0 <= p < |cells| ==>
        child[p] == if exists j' :: 0 <= j' < j && p == win[e[j']] then cells[p].(fill := X) else cells[p]
    {
      child := child[win[e[j]] := child[win[e[j]]].(fill := X)];
    }
    child := child[win[e[i]] := child[win[e[i]]].(fill := Filled)];
    forall j' | 0 <= j' < i
      ensures win[e[j']] != win[e[i]]
    {
      assert e[j'] < e[i];
    }
  }

  /** Child i is the parent with exactly i + 1 EMPTY cells of the window decided: crossed out before
      position i, filled at i. It therefore has fewer EMPTY cells than its parent, which bounds the
      depth of the search tree by the number of EMPTY cells. */
  lemma ChildShape(cells: seq<Clue>, win: seq<nat>, e: seq<nat>, i: nat)
    requires WindowOf(cells, win) && e == EmptyPositions(Gather(cells, win)) && i < |e|
    requires forall j1, j2 :: 0 <= j1 < |win| && 0 <= j2 < |win| && win[j1] == win[j2] ==> j1 == j2
    ensures cells[win[e[i]]].fill == Empty && ChildCells(cells, win, e, i)[win[e[i]]] == cells[win[e[i]]].(fill := Filled)
    ensures forall j :: 0 <= j < i ==>
      cells[win[e[j]]].fill == Empty && ChildCells(cells, win, e, i)[win[e[j]]] == cells[win[e[j]]].(fill := X)
    ensures forall p :: 0 <= p < |cells| && p !in win ==> ChildCells(cells, win, e, i)[p] == cells[p]
    ensures CountWhere(ChildCells(cells, win, e, i), HasFill(Empty)) < CountWhere(cells, HasFill(Empty))
  {
    var g := Gather(cells, win);
    forall j | 0 <= j < |e|
      ensures cells[win[e[j]]].fill == Empty
    {
      assert g[e[j]] == cells[win[e[j]]];
    }
    ChildCrossed(cells, win, e, i);
    ChildDecides(cells, win, e, i);
    ChildKeepsOutside(cells, win, e, i);
    FewerEmpties(cells, ChildCells(cells, win, e, i), win[e[i]]);
  }

  /** Cells outside the window are copied unchanged. */
  lemma ChildKeepsOutside(cells: seq<Clue>, win: seq<nat>, e: seq<nat>, i: nat)
    requires WindowOf(cells, win) && i < |e| && forall j :: 0 <= j < |e| ==> e[j] < |win|
    ensures forall p :: 0 <= p < |cells| && p !in win ==> ChildCells(cells, win, e, i)[p] == cells[p]
  {
    var child := ChildCells(cells, win, e, i);
    forall p | 0 <= p < |cells| && p !in win
      ensures child[p] == cells[p]
    {
      assert p != win[e[i]];
      assert !exists j :: 0 <= j < i && p == win[e[j]];
    }
  }

  lemma ChildCrossed(cells: seq<Clue>, win: seq<nat>, e: seq<nat>, i: nat)
    requires WindowOf(cells, win) && i < |e| && forall j :: 0 <= j < |e| ==> e[j] < |win|
    requires forall j1, j2 :: 0 <= j1 < |win| && 0 <= j2 < |win| && win[j1] == win[j2] ==> j1 == j2
    requires forall j1, j2 :: 0 <= j1 < j2 < |e| ==> e[j1] < e[j2]
    ensures forall j :: 0 <= j < i ==> ChildCells(cells, win, e, i)[win[e[j]]] == cells[win[e[j]]].(fill := X)
  {
    forall j | 0 <= j < i
      ensures ChildCells(cells, win, e, i)[win[e[j]]] == cells[win[e[j]]].(fill := X)
    {
      assert e[j] < e[i];
    }
  }

  /** Every EMPTY cell of the child was EMPTY in the parent. */
  lemma ChildDecides(cells: seq<Clue>, win: seq<nat>, e: seq<nat>, i: nat)
    requires WindowOf(cells, win) && i < |e| && forall j :: 0 <= j < |e| ==> e[j] < |win|
    ensures forall q :: 0 <= q < |cells| && ChildCells(cells, win, e, i)[q].fill == Empty ==> cells[q].fill == Empty
    ensures ChildCells(cells, win, e, i)[win[e[i]]].fill == Filled
  {
  }

  /** Deciding EMPTY cells, at least one of them, lowers the number of EMPTY cells. */
  lemma {:induction false} FewerEmpties(before: seq<Clue>, after: seq<Clue>, p: nat)
    requires |before| == |after| && p < |before| && before[p].fill == Empty && after[p].fill != Empty
    requires forall q :: 0 <= q < |before| && after[q].fill == Empty ==> before[q].fill == Empty
    ensures CountWhere(after, HasFill(Empty)) < CountWhere(before, HasFill(Empty))
  {
    var n := |before| - 1;
    NoMoreEmpties(before[..n], after[..n]);
    if p < n {
      FewerEmpties(before[..n], after[..n], p);
    }
  }

  lemma {:induction false} NoMoreEmpties(before: seq<Clue>, after: seq<Clue>)
    requires |before| == |after|
    requires forall q :: 0 <= q < |before| && after[q].fill == Empty ==> before[q].fill == Empty
    ensures CountWhere(after, HasFill(Empty)) <= CountWhere(before, HasFill(Empty))
  {
    if before != [] {
      NoMoreEmpties(before[..|before| - 1], after[..|after| - 1]);
    }
  }
}
