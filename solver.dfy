/**
 * RecursionSolver: the tree of solver objects as an arena of nodes, and the operations the
 * solver's public and private methods perform on it. Every method is proved to do what the
 * functions of the tree modules say; the properties of the solver are proved about those
 * functions. The methods before the class are the private helpers that work on one node.
 */
module Solver {
  import opened Wrappers
  import opened Fills
  import opened Clues
  import opened Grids
  import opened Boards
  import opened Deduction
  import opened Mosaics
  import opened Lifecycle
  import opened Worklists
  import opened SolverNodes
  import opened SolverSteps

  // ---------------------------------------------------------------------------------------------
  // takeStepImpl

  /** takeStepImpl() on node N: count the step, pick the next unsolved coordinate from the loopback
      list or else from the iterator, and visit it. */
  method StepNode(N: Node, w: nat, h: nat) returns (st: Stepped)
    requires NodeOk(N, w, h) && N.iter.Some? && !Terminal(N.state)
    ensures st == StepAt(N, w, h)
  {
    PickKeeps(N, w, h);
    var p := PickNext(N);
    if p.id.None? {
      return Stepped(p.node.(steps := N.steps + 1), None);
    }
    StepVisits(N, w, h);
    st := VisitNode(p.node.(steps := N.steps + 1, currentPoint := p.id), p.id.value, w, h);
  }

  /** The two loops at the head of takeStepImpl. */
  method PickNext(N: Node) returns (p: Picked)
    requires Ids(N.loopback, |N.coords|) && Ids(N.clues, |N.coords|)
    requires N.iter.Some? && N.iter.value.cursor <= |N.clues|
    ensures p == PickClue(N)
  {
    var t := DrainLoopback(N.coords, N.loopback);
    if t.pick.Some? {
      return Picked(t.pick, N.(loopback := t.rest));
    }
    var s := ScanIterator(N.coords, N.clues, N.iter.value);
    return Picked(s.pick, N.(loopback := [], clues := s.clues, iter := Some(s.it)));
  }

  /** The coordinate id just picked: removed through the iterator when its cell has no clue, and
      otherwise decided by the rule over its window. */
  method VisitNode(N: Node, id: nat, w: nat, h: nat) returns (st: Stepped)
    requires NodeOk(N, w, h) && id < |N.coords| && N.iter.Some? && !Terminal(N.state)
    ensures st == Visit(N, id, w, h)
  {
    var co := N.coords[id];
    XYToLinear(co.x, co.y, w, h);
    AreaIsProduct(w, h);
    var win := Window(w, h, co.x, co.y);
    var k := N.board[LinearOf(co.x, co.y, w)].clue;
    if k < 0 {
      return RemoveCurrent(N);
    }
    var o := ApplyRule(N.board, win, k);
    if o.Contradiction? {
      return Stepped(N, Some(SolveError.Contradiction(N.board, co.x, co.y)));
    }
    var M := MarkNode(N, id, o.cells, o.solved, o.changed);
    return Stepped(M, None);
  }

  /** surrounding.count(cl -> cl.getFill() == f). */
  method CountFill(cells: seq<Clue>, win: seq<nat>, f: Fill) returns (n: nat)
    requires WindowOf(cells, win)
    ensures n == CountWhere(Gather(cells, win), HasFill(f))
  {
    var s := Gather(cells, win);
    n := 0;
    for i := 0 to |win|
      invariant n == CountWhere(s[..i], HasFill(f))
    {
      assert s[..i + 1][..i] == s[..i];
      if cells[win[i]].fill == f {
        n := n + 1;
      }
    }
    assert s[..|win|] == s;
  }

  /** The body of takeStepImpl at a clue of value k: the three counts, the two contradiction checks,
      the two painting loops (each noting whether it painted a cell), and the solved count. */
  method ApplyRule(cells: seq<Clue>, win: seq<nat>, k: int) returns (o: StepOutcome)
    requires WindowOf(cells, win)
    ensures o == Rule(cells, win, k)
  {
    var filledAmt := CountFill(cells, win, Filled);
    var xAmt := CountFill(cells, win, X);
    var emptyAmt := CountFill(cells, win, Empty);
    if filledAmt > k {
      return StepOutcome.Contradiction;
    }
    if |win| - xAmt < k {
      return StepOutcome.Contradiction;
    }
    var c := cells;
    var localChanged := false;
    if emptyAmt + filledAmt == k {
      c := PaintWindow(c, win, Filled);
      localChanged := emptyAmt > 0;
      PaintedCounts(cells, win, Filled, X);
    }
    if filledAmt == k {
      var left := CountFill(c, win, Empty);
      c := PaintWindow(c, win, X);
      localChanged := localChanged || left > 0;
    }
    var after := CountFill(c, win, Empty);
    return Deduced(c, localChanged, after == 0);
  }

  /** The end of takeStepImpl: the painted board, the solved flag, the loopback block and
      `changed |= localChanged`. */
  method MarkNode(N: Node, id: nat, cells: seq<Clue>, solved: bool, changed: bool) returns (M: Node)
    requires Ids(N.clues, |N.coords|) && id < |N.coords|
    requires N.iter.Some? && N.iter.value.cursor <= |N.clues|
    ensures M == Mark(N, id, cells, solved, changed)
  {
    var N3 := N.(board := cells, coords := N.coords[id := N.coords[id].(solved := solved)]);
    M := N3;
    if changed && N.loopbackOn {
      M := RequeueNode(N3, id);
    }
    M := M.(changed := N.changed || changed);
  }

  /** The loopback block: rewind the iterator past the coordinates near coordinate id, then walk
      forward again, queueing the near ones. */
  method RequeueNode(N: Node, id: nat) returns (R: Node)
    requires Ids(N.clues, |N.coords|) && id < |N.coords|
    requires N.iter.Some? && N.iter.value.cursor <= |N.clues|
    ensures R == Requeue(N, id)
  {
    var cur := N.iter.value.cursor;
    var start, previousCount := Rewind(N.coords, N.clues, N.coords[id], cur);
    if previousCount == 0 {
      return N;
    }
    var f := RefillLoop(N.coords, N.clues, id, start, previousCount);
    assert f == Walk(N, id);
    return N.(loopback := N.loopback + f.added, iter := Some(Cursor(f.cursor, f.cursor - 1)));
  }

  // ---------------------------------------------------------------------------------------------
  // endIteration

  /** endIteration() on node N: drop the iterator; on a stall drop the solved head of the worklist,
      make the first unsolved clue the recursion point, and branch there (or throw
      RequiresAdvancedLogicException when advanced logic is off). */
  method EndIterate(N: Node, w: nat, h: nat, n: nat) returns (nd: Node, b: Branched)
    requires NodeOk(N, w, h)
    ensures nd == EndNode(N) && b == EndBranching(N, w, h, n)
  {
    if !Stalled(N) {
      return N.(iter := None), Branched([], None);
    }
    var clues := DropSolved(N.coords, N.clues);
    if clues == [] {
      return N.(iter := None, clues := []), Branched([], None);
    }
    ghost var j := FirstUnsolved(N.coords, N.clues, 0);
    PointedOk(N, w, h, j);
    nd := N.(iter := None, clues := clues, recursionPoint := Some(clues[0]));
    var id := clues[0];
    if !N.advanced {
      return nd, Branched([], Some(RequiresAdvancedLogic(N.board, N.coords[id].x, N.coords[id].y)));
    }
    EndBranchingAt(N, w, h, n);
    b := BranchAt(nd, id, w, h, n);
  }

  /** The children loop of endIteration at recursion point id. */
  method BranchAt(N: Node, id: nat, w: nat, h: nat, n: nat) returns (b: Branched)
    requires NodeOk(N, w, h) && id < |N.coords|
    ensures b == Branch(N, id, w, h, n)
  {
    var co := N.coords[id];
    XYToLinear(co.x, co.y, w, h);
    AreaIsProduct(w, h);
    WindowDistinct(w, h, co.x, co.y);
    var currentClue := N.board[LinearOf(co.x, co.y, w)].clue;
    var win := Window(w, h, co.x, co.y);
    var empties := ListEmpties(Gather(N.board, win));
    var filled := CountFill(N.board, win, Filled);
    assert filled == Filleds(N.board, win);
    if empties == [] {
      return Branched([], None);
    }
    b := MakeKids(N, n, win, empties, |empties| - (currentClue - filled));
  }

  /** `for (int i = 0; i <= last; i++)` over the EMPTY cells e of window win, with last the number of
      EMPTY cells beyond those the clue still needs: one child per turn, and IndexOutOfBoundsException
      once i runs past the last EMPTY cell. */
  method MakeKids(N: Node, n: nat, win: seq<nat>, e: seq<nat>, last: int) returns (b: Branched)
    requires WindowOf(N.board, win) && Ids(N.clues, |N.coords|) && e != []
    requires forall j :: 0 <= j < |e| ==> e[j] < |win|
    requires forall j1, j2 :: 0 <= j1 < |win| && 0 <= j2 < |win| && win[j1] == win[j2] ==> j1 == j2
    requires forall j1, j2 :: 0 <= j1 < j2 < |e| ==> e[j1] < e[j2]
    ensures var cnt := if last + 1 > 0 then last + 1 else 0;
      b == Branched(Kids(N, n, win, e, if cnt < |e| then cnt else |e|),
                    if cnt > |e| then Some(SolveError.IndexOutOfBounds) else None)
  {
    ghost var cnt := if last + 1 > 0 then last + 1 else 0;
    ghost var m := if cnt < |e| then cnt else |e|;
    var kids: seq<Node> := [];
    var i := 0;
    while i <= last
      invariant i <= m && kids == Kids(N, n, win, e, i)
      decreases |e| - i
    {
      if i >= |e| {
        return Branched(kids, Some(SolveError.IndexOutOfBounds));
      }
      var cells := MakeChild(N.board, win, e, i);
      var coords := CopyUnsolved(N.coords, N.clues);
      KidsNext(N, n, win, e, i);
      kids := kids + [ChildNode(N, n, cells, coords)];
      i := i + 1;
    }
    return Branched(kids, None);
  }

  /** One more child: the first i + 1 children are the first i and child i. */
  lemma KidsNext(N: Node, n: nat, win: seq<nat>, e: seq<nat>, i: nat)
    requires WindowOf(N.board, win) && i < |e| && Ids(N.clues, |N.coords|)
    requires forall j :: 0 <= j < |e| ==> e[j] < |win|
    ensures Kids(N, n, win, e, i + 1)
      == Kids(N, n, win, e, i) + [ChildNode(N, n, ChildCells(N.board, win, e, i), FreshCoords(N.coords, N.clues))]
  {
  }

  /** Replacing node n and then appending is appending and then replacing node n. */
  lemma ReplaceThenAppend(s: seq<Node>, n: nat, x: Node, y: Node, t: seq<Node>)
    requires n < |s|
    ensures s[n := x] + t == (s[n := y] + t)[n := x]
  {
  }

  // ---------------------------------------------------------------------------------------------
  // The solver objects

  /** The RecursionSolver objects grown from one root solver over a width x height mosaic. Node n
      of the arena is one solver object; a method given n is the Java method called on that
      object, and the listeners a parent registers on its children are the methods
      OnChildFailed and OnChildSucceeded. */
  class RecursionSolver {
    const width: nat
    const height: nat
    var nodes: seq<Node>

    ghost predicate Valid()
      reads this
    {
      ValidNodes(nodes, width, height)
    }

    /** The arena of a new root solver. */
    constructor Of(width: nat, height: nat, root: Node)
      requires NodeOk(root, width, height) && root.parent.None? && root.level == 0 && root.children == []
      ensures this.width == width && this.height == height && nodes == [root] && Valid()
    {
      this.width := width;
      this.height := height;
      nodes := [root];
      new;
      assert LinkedAt(nodes, 0);
    }

    /** new RecursionSolver(mosaic): the NoClue check of AbstractSolveAlgorithm, then a READY root
        at level 0 whose worklist holds the coordinates of every clue in row-major order. */
    static method Create(mosaic: Mosaic) returns (r: Result<RecursionSolver, SolveError>)
      requires mosaic.Valid()
      ensures var w, h := mosaic.grid.width, mosaic.grid.height;
        var first := FirstUnclued(mosaic.Cells(), w, h, 0);
        && (r.Failure? <==> first.Some?)
        && (r.Failure? ==> r.error == NoClue(mosaic.Cells(), XOf(first.value, w), YOf(first.value, w)))
      ensures r.Success? ==> var w, h := mosaic.grid.width, mosaic.grid.height;
        && fresh(r.value) && r.value.Valid() && r.value.width == w && r.value.height == h
        && r.value.nodes == [RootNode(mosaic.Cells(), ClueCoords(mosaic.Cells(), w, h, w * h))]
    {
      var a := Lifecycle.Create(mosaic, true);
      if a.Failure? {
        return Failure(a.error);
      }
      var s := RootSolver(mosaic);
      r := Success(s);
    }

    /** The solver of the public constructor once the NoClue check has passed. */
    static method RootSolver(mosaic: Mosaic) returns (s: RecursionSolver)
      requires mosaic.Valid()
      ensures var w, h := mosaic.grid.width, mosaic.grid.height;
        && fresh(s) && s.Valid() && s.width == w && s.height == h
        && s.nodes == [RootNode(mosaic.Cells(), ClueCoords(mosaic.Cells(), w, h, w * h))]
    {
      ghost var cells := mosaic.Cells();
      var root := RootOf(mosaic);
      s := new RecursionSolver.Of(mosaic.grid.width, mosaic.grid.height, root);
      assert mosaic.Valid() && mosaic.Cells() == cells;
    }

    /** The root node the public constructor builds: the mosaic's board, a fresh Coordinates object
        for every clue in row-major order, and all of them in the worklist. */
    static method RootOf(mosaic: Mosaic) returns (root: Node)
      requires mosaic.Valid()
      ensures var w, h := mosaic.grid.width, mosaic.grid.height;
        root == RootNode(mosaic.Cells(), ClueCoords(mosaic.Cells(), w, h, w * h))
      ensures NodeOk(root, mosaic.grid.width, mosaic.grid.height) && root.parent.None? && root.level == 0 && root.children == []
    {
      var w, h := mosaic.grid.width, mosaic.grid.height;
      var cells := mosaic.Board();
      var coords := ListClues(cells, w, h);
      AreaIsProduct(w, h);
      root := RootNode(cells, coords);
    }

    // -------------------------------------------------------------------------------------------
    // setState and the listeners

    /** setState(s) on node n. */
    method SetState(n: nat, s: State) returns (r: Outcome<SolveError>)
      requires Valid() && n < |nodes|
      modifies this
      ensures Transition(nodes, r) == Transit(old(nodes), width, height, n, s)
      decreases n, 1
    {
      var N := nodes[n];
      if Terminal(N.state) {
        return Fail(IllegalState);
      }
      if N.state == s {
        return Pass;
      }
      assert LinkedAt(nodes, n);
      if s == Failed {
        FailedAtValid(nodes, width, height, n);
        nodes := nodes[n := N.(state := Failed)];
        if N.parent.Some? {
          OnChildFailed(N.parent.value, n);
        }
        return Pass;
      }
      Restated(nodes, width, height, n, s);
      nodes := nodes[n := N.(state := s)];
      if s == Succeeded && N.parent.Some? {
        r := OnChildSucceeded(N.parent.value, n);
      } else {
        r := Pass;
      }
    }

    /** The FAILED listener node p registered on its child c: children.remove(rs), and the child's
        steps and backtracks added. */
    method OnChildFailed(p: nat, c: nat)
      requires p < c < |nodes|
      modifies this
      ensures nodes == old(nodes)[p := ChildFailed(old(nodes)[p], c, old(nodes)[c])]
    {
      var P := nodes[p];
      var C := nodes[c];
      nodes := nodes[p := P.(children := RemoveFirst(P.children, c), steps := P.steps + C.steps,
                             backtracks := P.backtracks + C.backtracks)];
    }

    /** The SUCCEEDED listener node p registered on its child c. */
    method OnChildSucceeded(p: nat, c: nat) returns (r: Outcome<SolveError>)
      requires Valid() && c < |nodes| && nodes[c].parent == Some(p)
      modifies this
      ensures Transition(nodes, r) == ChildSucceeded(old(nodes), width, height, p, c)
      decreases c, 0
    {
      assert LinkedAt(nodes, c);
      var P := nodes[p];
      var C := nodes[c];
      if InValidation(P) {
        assert NodeOk(P, width, height);
        var e := AmbiguityAt(P, C);
        r := SetState(p, Failed);
        if r.Pass? {
          r := Fail(e);
        }
        return;
      }
      AdoptedOk(nodes, width, height, p, c);
      ghost var before := nodes;
      AdoptChild(p, c);
      var P1 := nodes[p];
      if InValidation(P1) {
        return Pass;
      }
      nodes := nodes[p := P1.(children := [])];
      assert nodes == before[p := P1.(children := [])];
      r := Settle(p, C);
    }

    /** The end of the SUCCEEDED listener: node p succeeds and adds the counts of its child C. */
    method Settle(p: nat, C: Node) returns (r: Outcome<SolveError>)
      requires Valid() && p < |nodes|
      modifies this
      ensures Transition(nodes, r) == Settled(old(nodes), width, height, p, C)
      decreases p, 2
    {
      r := SetState(p, Succeeded);
      if r.Fail? {
        return;
      }
      var Q := nodes[p];
      Counted(nodes, width, height, p, Q.(recursions := C.recursions + 1, steps := Q.steps + C.steps,
                                          backtracks := Q.backtracks + C.backtracks));
      nodes := nodes[p := Q.(recursions := C.recursions + 1, steps := Q.steps + C.steps,
                             backtracks := Q.backtracks + C.backtracks)];
    }

    /** The SUCCEEDED listener past the ambiguity check: node p copies the fills of its child c
        (twice, by index and then by coordinates), drops the child, clears its worklist and drops
        its iterator. */
    method AdoptChild(p: nat, c: nat)
      requires p < c < |nodes| && |nodes[p].board| == |nodes[c].board|
      modifies this
      ensures nodes == old(nodes)[p := Adopted(old(nodes)[p], c, old(nodes)[c])]
    {
      var P := nodes[p];
      var C := nodes[c];
      var board := TakeFills(P.board, C.board);
      board := TakeFills(board, C.board);
      CopyFillsTwice(P.board, C.board);
      nodes := nodes[p := P.(board := board, children := RemoveFirst(P.children, c), clues := [], iter := None)];
    }

    // -------------------------------------------------------------------------------------------
    // takeStep

    /** takeStep(pauseOnDone) on node n. */
    method TakeStep(n: nat, pause: bool) returns (r: Outcome<SolveError>)
      requires Valid() && n < |nodes|
      modifies this
      ensures Transition(nodes, r) == SolverSteps.Step(old(nodes), width, height, n, pause)
      decreases |nodes| - n, 2
    {
      r := SetState(n, Running);
      if r.Fail? {
        return;
      }
      if nodes[n].children == [] {
        r := StepLeaf(n, pause);
      } else {
        r := StepParent(n, pause);
      }
    }

    /** The branch of takeStep for a node with children: the first child steps, and what it throws
        is caught. */
    method StepParent(n: nat, pause: bool) returns (r: Outcome<SolveError>)
      requires Valid() && n < |nodes| && nodes[n].children != []
      modifies this
      ensures Transition(nodes, r) == ParentStep(old(nodes), width, height, n, pause)
      decreases |nodes| - n, 1
    {
      assert LinkedAt(nodes, n);
      r := TakeStep(nodes[n].children[0], pause);
      if r.Pass? {
        r := PauseIfDone(n, pause);
      } else {
        r := CatchChild(n, pause, r.error);
      }
    }

    /** The catch blocks of takeStep, the first child having thrown e. */
    method CatchChild(n: nat, pause: bool, e: SolveError) returns (r: Outcome<SolveError>)
      requires Valid() && n < |nodes| && StepError(e)
      modifies this
      ensures Transition(nodes, r) == Unwind(old(nodes), width, height, n, pause, e)
    {
      if e.Ambiguous? {
        if nodes[n].state == Running {
          r := SetState(n, Failed);
          if r.Pass? {
            r := Fail(e);
          }
        } else {
          r := Fail(e);
        }
        return;
      }
      if !IsClueState(e) {
        return Fail(e);
      }
      var N := nodes[n].(backtracks := nodes[n].backtracks + 1);
      Counted(nodes, width, height, n, N);
      nodes := nodes[n := N];
      if !SelfActive(N) {
        r := PauseIfDone(n, pause);
        return;
      }
      if N.clues == [] {
        r := SetState(n, Succeeded);
        return;
      }
      r := SetState(n, Failed);
      if r.Pass? {
        r := Fail(e);
      }
    }

    /** The branch of takeStep for a leaf, which is RUNNING. */
    method StepLeaf(n: nat, pause: bool) returns (r: Outcome<SolveError>)
      requires Valid() && n < |nodes| && nodes[n].children == [] && nodes[n].state == Running
      modifies this
      ensures Transition(nodes, r) == LeafStep(old(nodes), width, height, n, pause)
    {
      if nodes[n].clues == [] {
        r := SetState(n, Succeeded);
        return;
      }
      ghost var started := SolverSteps.StartIteration(nodes, width, height, n);
      if nodes[n].iter.None? {
        StartIteration(n);
      }
      assert nodes == started;
      var N := nodes[n];
      if N.iter.value.cursor < |N.clues| || N.loopback != [] {
        r := TakeStepImpl(n);
      } else {
        r := EndIteration(n);
      }
      if r.Pass? {
        r := PauseIfDone(n, pause);
      }
    }

    /** startIteration(): an iterator at the head of the worklist, and `changed` reset. */
    method StartIteration(n: nat)
      requires n < |nodes|
      modifies this
      ensures nodes == old(nodes)[n := old(nodes)[n].(iter := Some(Cursor(0, -1)), changed := false)]
    {
      nodes := nodes[n := nodes[n].(iter := Some(Cursor(0, -1)), changed := false)];
    }

    /** takeStepImpl() on node n. */
    method TakeStepImpl(n: nat) returns (r: Outcome<SolveError>)
      requires Valid() && n < |nodes| && nodes[n].iter.Some? && !Terminal(nodes[n].state)
      modifies this
      ensures Transition(nodes, r) == ImplStep(old(nodes), width, height, n)
    {
      assert NodeOk(nodes[n], width, height);
      ghost var st0 := StepWithin(nodes, width, height, n);
      var st := StepNode(nodes[n], width, height);
      nodes := nodes[n := st.node];
      if st.error.None? {
        return Pass;
      }
      var e := st.error.value;
      if e.Contradiction? {
        r := SetState(n, Failed);
        if r.Pass? {
          r := Fail(e);
        }
        return;
      }
      r := Fail(e);
    }

    /** endIteration() on leaf n: the node left as EndNode says, and its children appended to the
        arena in the order the loop makes them. */
    method EndIteration(n: nat) returns (r: Outcome<SolveError>)
      requires Valid() && n < |nodes| && nodes[n].children == []
      modifies this
      ensures Transition(nodes, r) == EndStep(old(nodes), width, height, n)
    {
      ghost var ns := Ended(nodes, width, height, n);
      assert NodeOk(nodes[n], width, height);
      var nd, b := EndIterate(nodes[n], width, height, n);
      var len := |nodes|;
      ReplaceThenAppend(nodes, n, nd.(children := Span(len, |b.kids|)), nd, b.kids);
      nodes := nodes[n := nd.(children := Span(len, |b.kids|))] + b.kids;
      r := if b.error.Some? then Fail(b.error.value) else Pass;
    }

    /** The end-of-step pause, as PauseIf. */
    method PauseIfDone(n: nat, pause: bool) returns (r: Outcome<SolveError>)
      requires Valid() && n < |nodes|
      modifies this
      ensures Transition(nodes, r) == PauseIf(old(nodes), width, height, n, pause)
    {
      if pause && Runnable(nodes[n].state) {
        r := Pause(n);
      } else {
        r := Pass;
      }
    }

    // -------------------------------------------------------------------------------------------
    // The public operations

    /** pause(): IllegalStateException unless node n is RUNNING; then it is PAUSED. */
    method Pause(n: nat) returns (r: Outcome<SolveError>)
      requires Valid() && n < |nodes|
      modifies this
      ensures Transition(nodes, r) == SolverSteps.Pause(old(nodes), width, height, n)
    {
      if nodes[n].state != Running {
        return Fail(IllegalState);
      }
      r := SetState(n, Paused);
    }

    /** step(): one takeStep that pauses the node when it is done; when it returns, node n is no
        longer RUNNING. */
    method Step(n: nat) returns (r: Outcome<SolveError>)
      requires Valid() && n < |nodes|
      modifies this
      ensures Transition(nodes, r) == SolverSteps.Step(old(nodes), width, height, n, true)
      ensures r.Pass? ==> nodes[n].state != Running
    {
      StepPauses(nodes, width, height, n);
      r := TakeStep(n, true);
    }

    /** run(): takeStep(false) until node n is no longer RUNNING, here within `fuel` steps. */
    method Run(n: nat, fuel: nat) returns (r: Option<Outcome<SolveError>>)
      requires Valid() && n < |nodes|
      modifies this
      ensures Ran(nodes, r) == RunSteps(old(nodes), width, height, n, fuel)
    {
      var k: nat := fuel;
      while k > 0
        invariant Valid() && n < |nodes|
        invariant RunSteps(nodes, width, height, n, k) == RunSteps(old(nodes), width, height, n, fuel)
        decreases k
      {
        k := k - 1;
        var o, stop := RunRound(n, k);
        if stop {
          return Some(o);
        }
      }
      return None;
    }

    /** One round of run()'s loop with k more rounds allowed after it: takeStep(false), and
        whether the loop stops after it. */
    method RunRound(n: nat, k: nat) returns (o: Outcome<SolveError>, stop: bool)
      requires Valid() && n < |nodes|
      modifies this
      ensures Valid() && n < |nodes|
      ensures stop <==> o.Fail? || nodes[n].state != Running
      ensures RunSteps(old(nodes), width, height, n, k + 1)
        == if stop then Ran(nodes, Some(o)) else RunSteps(nodes, width, height, n, k)
    {
      ghost var before := nodes;
      o := TakeStep(n, false);
      RunOnce(before, width, height, n, k + 1, Transition(nodes, o));
      stop := o.Fail? || nodes[n].state != Running;
    }

    /** start(): IllegalStateException unless node n is READY; then run(). */
    method Start(n: nat, fuel: nat) returns (r: Option<Outcome<SolveError>>)
      requires Valid() && n < |nodes|
      modifies this
      ensures old(nodes[n].state) != Ready ==> nodes == old(nodes) && r == Some(Fail(IllegalState))
      ensures old(nodes[n].state) == Ready ==> Ran(nodes, r) == RunSteps(old(nodes), width, height, n, fuel)
    {
      if nodes[n].state != Ready {
        return Some(Fail(IllegalState));
      }
      r := Run(n, fuel);
    }

    /** resume(): IllegalStateException unless node n is PAUSED; then run(). */
    method Resume(n: nat, fuel: nat) returns (r: Option<Outcome<SolveError>>)
      requires Valid() && n < |nodes|
      modifies this
      ensures old(nodes[n].state) != Paused ==> nodes == old(nodes) && r == Some(Fail(IllegalState))
      ensures old(nodes[n].state) == Paused ==> Ran(nodes, r) == RunSteps(old(nodes), width, height, n, fuel)
    {
      if nodes[n].state != Paused {
        return Some(Fail(IllegalState));
      }
      r := Run(n, fuel);
    }

    /** cancel(): setState(CANCELLED), which a terminated node refuses, then the worklist and the
        children cleared. */
    method Cancel(n: nat) returns (r: Outcome<SolveError>)
      requires Valid() && n < |nodes|
      modifies this
      ensures Terminal(old(nodes[n].state)) ==> r == Fail(IllegalState) && nodes == old(nodes)
      ensures !Terminal(old(nodes[n].state)) ==>
        r == Pass && nodes == old(nodes)[n := old(nodes[n]).(state := Cancelled, clues := [], children := [])]
      ensures Valid()
    {
      r := SetState(n, Cancelled);
      if r.Fail? {
        return;
      }
      var N := nodes[n].(clues := [], children := []);
      assert NodeOk(nodes[n], width, height);
      Replace(nodes, width, height, n, N);
      nodes := nodes[n := N];
    }

    /** checkAmbiguity(check): allowed only while node n is INITIALIZING or READY. */
    method CheckAmbiguity(n: nat, check: bool) returns (r: Outcome<SolveError>)
      requires Valid() && n < |nodes|
      modifies this
      ensures var s := old(nodes[n].state); s == Initializing || s == Ready ==>
        r == Pass && nodes == old(nodes)[n := old(nodes[n]).(ambiguity := check)]
      ensures var s := old(nodes[n].state); s != Initializing && s != Ready ==>
        r == Fail(IllegalState) && nodes == old(nodes)
      ensures Valid()
    {
      var s := nodes[n].state;
      if s != Initializing && s != Ready {
        return Fail(IllegalState);
      }
      assert NodeOk(nodes[n], width, height);
      Replace(nodes, width, height, n, nodes[n].(ambiguity := check));
      nodes := nodes[n := nodes[n].(ambiguity := check)];
      r := Pass;
    }

    /** useAdvancedLogic(logic): allowed only while node n is INITIALIZING or READY. */
    method UseAdvancedLogic(n: nat, logic: bool) returns (r: Outcome<SolveError>)
      requires Valid() && n < |nodes|
      modifies this
      ensures var s := old(nodes[n].state); s == Initializing || s == Ready ==>
        r == Pass && nodes == old(nodes)[n := old(nodes[n]).(advanced := logic)]
      ensures var s := old(nodes[n].state); s != Initializing && s != Ready ==>
        r == Fail(IllegalState) && nodes == old(nodes)
      ensures Valid()
    {
      var s := nodes[n].state;
      if s != Initializing && s != Ready {
        return Fail(IllegalState);
      }
      assert NodeOk(nodes[n], width, height);
      Replace(nodes, width, height, n, nodes[n].(advanced := logic));
      nodes := nodes[n := nodes[n].(advanced := logic)];
      r := Pass;
    }

    /** useLoopbackEnhancement(loopback): allowed only while node n is INITIALIZING or READY. */
    method UseLoopbackEnhancement(n: nat, loopback: bool) returns (r: Outcome<SolveError>)
      requires Valid() && n < |nodes|
      modifies this
      ensures var s := old(nodes[n].state); s == Initializing || s == Ready ==>
        r == Pass && nodes == old(nodes)[n := old(nodes[n]).(loopbackOn := loopback)]
      ensures var s := old(nodes[n].state); s != Initializing && s != Ready ==>
        r == Fail(IllegalState) && nodes == old(nodes)
      ensures Valid()
    {
      var s := nodes[n].state;
      if s != Initializing && s != Ready {
        return Fail(IllegalState);
      }
      assert NodeOk(nodes[n], width, height);
      Replace(nodes, width, height, n, nodes[n].(loopbackOn := loopback));
      nodes := nodes[n := nodes[n].(loopbackOn := loopback)];
      r := Pass;
    }

    /** getActive() on node n: null (None) for a terminated node; otherwise the leaf reached by
        following first children, which descends from n; a terminated node with children on the
        way gives a NullPointerException. */
    method GetActive(n: nat) returns (r: Result<Option<nat>, SolveError>)
      requires Valid() && n < |nodes|
      ensures r == ActiveOf(nodes, n)
      ensures r == Success(None) <==> Terminal(nodes[n].state)
      ensures r.Success? && r.value.Some? ==>
        r.value.value < |nodes| && nodes[r.value.value].children == [] && IsAncestor(nodes, n, r.value.value)
      ensures r.Failure? ==> r.error == NullPointer
    {
      ActiveIsLeafBelow(nodes, n);
      if Terminal(nodes[n].state) {
        return Success(None);
      }
      if nodes[n].children == [] {
        return Success(Some(n));
      }
      assert LinkedAt(nodes, n);
      var s := nodes[n].children[0];
      while nodes[s].children != []
        invariant s < |nodes| && ActiveFrom(nodes, s) == ActiveFrom(nodes, n)
        decreases |nodes| - s
      {
        assert LinkedAt(nodes, s);
        if Terminal(nodes[s].state) {
          return Failure(NullPointer);
        }
        s := nodes[s].children[0];
      }
      return Success(Some(s));
    }

    /** commonParent(rs1, rs2): the deepest solver both descend from (a node counts as its own
        ancestor), or null (None) when they share none. */
    method CommonParent(a: nat, b: nat) returns (r: Option<nat>)
      requires Valid() && a < |nodes| && b < |nodes|
      ensures r.Some? ==> r.value < |nodes| && CommonAncestor(nodes, r.value, a, b)
      ensures r.Some? ==> forall x :: CommonAncestor(nodes, x, a, b) ==> IsAncestor(nodes, x, r.value)
      ensures r.None? ==> forall x :: !CommonAncestor(nodes, x, a, b)
    {
      var min: nat, max: nat := a, b;
      if nodes[a].level > nodes[b].level {
        min, max := b, a;
      }
      // commonParentImpl(min, max)
      while nodes[max].level > nodes[min].level
        invariant min < |nodes| && max < |nodes| && nodes[max].level >= nodes[min].level
        invariant forall x ::
          (IsAncestor(nodes, x, min) && IsAncestor(nodes, x, max)) <==> CommonAncestor(nodes, x, a, b)
        decreases max
      {
        ClimbOne(nodes, min, max);
        max := nodes[max].parent.value;
      }
      while true
        invariant min < |nodes| && max < |nodes| && nodes[max].level == nodes[min].level
        invariant forall x ::
          (IsAncestor(nodes, x, min) && IsAncestor(nodes, x, max)) <==> CommonAncestor(nodes, x, a, b)
        decreases min
      {
        if max == min {
          return Some(min);
        }
        ClimbBoth(nodes, min, max);
        if nodes[min].parent.None? {
          return None;
        }
        min, max := nodes[min].parent.value, nodes[max].parent.value;
      }
    }
  }
}
