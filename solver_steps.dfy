/**
 * What the operations of RecursionSolver do to the whole tree of solvers. setState runs the
 * listeners every parent registers on its children, so failing or succeeding a node changes its
 * ancestors; takeStep runs down the first children to the active leaf, works there, and lets the
 * exceptions unwind back up through the catch blocks of every node on the way. Each operation is
 * a function from the arena before to the arena after and the exception thrown, if any; the solver
 * class performs them.
 */
module SolverSteps {
  import opened Wrappers
  import opened Lifecycle
  import opened Worklists
  import opened SolverNodes

  /** The arena after an operation, and whether the operation returned or threw. */
  datatype Transition = Transition(nodes: seq<Node>, outcome: Outcome<SolveError>)

  /** The exceptions takeStep can end in: the three IllegalClueStateExceptions of the solver,
      IllegalStateException and the IndexOutOfBoundsException of the children loop. */
  predicate StepError(e: SolveError)
  {
    e.Contradiction? || e.RequiresAdvancedLogic? || e.Ambiguous? || e == IllegalState || e == IndexOutOfBounds
  }

  /** `setState(FAILED); throw e;`: the exception of setState itself, if it throws, else e. */
  function Rethrow(t: Transition, e: SolveError): Transition
  {
    if t.outcome.Fail? then t else Transition(t.nodes, Fail(e))
  }

  // ---------------------------------------------------------------------------------------------
  // setState and the listeners

  /** setState(s) on node n: a terminated node refuses any change with IllegalStateException; the
      same state changes nothing; otherwise the node takes state s and, when it has a parent, the
      parent's FAILED or SUCCEEDED listener runs. Only n and nodes before it change, n takes state
      s and keeps everything else unless it was terminated, and the only exceptions are IllegalStateException and the
      AmbigiousException of a parent in validation. */
  function Transit(nodes: seq<Node>, w: nat, h: nat, n: nat, s: State): (t: Transition)
    requires ValidNodes(nodes, w, h) && n < |nodes|
    ensures |t.nodes| == |nodes| && ValidNodes(t.nodes, w, h)
    ensures forall j :: n < j < |nodes| ==> t.nodes[j] == nodes[j]
    ensures Terminal(nodes[n].state) ==> t == Transition(nodes, Fail(IllegalState))
    ensures !Terminal(nodes[n].state) ==> t.nodes[n] == nodes[n].(state := s)
    ensures t.outcome.Fail? ==> t.outcome.error == IllegalState || t.outcome.error.Ambiguous?
    decreases n, 1
  {
    var N := nodes[n];
    if Terminal(N.state) then Transition(nodes, Fail(IllegalState))
    else if N.state == s then Transition(nodes, Pass)
    else if s == Failed then
      FailedAtValid(nodes, w, h, n);
      Transition(FailedAt(nodes, n), Pass)
    else
      Restated(nodes, w, h, n, s);
      var ns := nodes[n := N.(state := s)];
      assert LinkedAt(nodes, n);
      if s == Succeeded && N.parent.Some? then ChildSucceeded(ns, w, h, N.parent.value, n)
      else Transition(ns, Pass)
  }

  /** The SUCCEEDED listener node p registered on its child c, which has just succeeded: a parent in
      validation fails and throws AmbigiousException; otherwise it takes the child's fills, and
      unless it is still in validation it succeeds in turn and then adds the child's counts. Only
      p and nodes before it change. */
  function ChildSucceeded(nodes: seq<Node>, w: nat, h: nat, p: nat, c: nat): (t: Transition)
    requires ValidNodes(nodes, w, h) && c < |nodes| && nodes[c].parent == Some(p)
    ensures |t.nodes| == |nodes| && ValidNodes(t.nodes, w, h)
    ensures forall j :: p < j < |nodes| ==> t.nodes[j] == nodes[j]
    ensures t.outcome.Fail? ==> t.outcome.error == IllegalState || t.outcome.error.Ambiguous?
    decreases c, 0
  {
    assert LinkedAt(nodes, c);
    var P := nodes[p];
    var C := nodes[c];
    if InValidation(P) then
      assert NodeOk(P, w, h);
      Rethrow(Transit(nodes, w, h, p, Failed), AmbiguityAt(P, C))
    else
      AdoptedOk(nodes, w, h, p, c);
      var P1 := Adopted(P, c, C);
      if InValidation(P1) then Transition(nodes[p := P1], Pass)
      else
        Settled(nodes[p := P1.(children := [])], w, h, p, C)
  }

  /** The end of the SUCCEEDED listener, once node p has taken the fills of its child C and dropped
      it: p succeeds in turn and, unless that throws, adds one recursion and the child's steps and
      backtracks to its own counts. Only p and nodes before it change. */
  function Settled(nodes: seq<Node>, w: nat, h: nat, p: nat, C: Node): (t: Transition)
    requires ValidNodes(nodes, w, h) && p < |nodes|
    ensures |t.nodes| == |nodes| && ValidNodes(t.nodes, w, h)
    ensures forall j :: p < j < |nodes| ==> t.nodes[j] == nodes[j]
    ensures t.outcome.Fail? ==> t.outcome.error == IllegalState || t.outcome.error.Ambiguous?
    decreases p, 2
  {
    var t := Transit(nodes, w, h, p, Succeeded);
    if t.outcome.Fail? then t
    else
      var Q := t.nodes[p];
      Counted(t.nodes, w, h, p, Q.(recursions := C.recursions + 1, steps := Q.steps + C.steps, backtracks := Q.backtracks + C.backtracks));
      Transition(t.nodes[p := Q.(recursions := C.recursions + 1, steps := Q.steps + C.steps, backtracks := Q.backtracks + C.backtracks)], Pass)
  }

  /** A node that is not terminated can take any state. */
  lemma Restated(nodes: seq<Node>, w: nat, h: nat, n: nat, s: State)
    requires ValidNodes(nodes, w, h) && n < |nodes| && !Terminal(nodes[n].state)
    ensures ValidNodes(nodes[n := nodes[n].(state := s)], w, h)
  {
    assert NodeOk(nodes[n], w, h);
    Replace(nodes, w, h, n, nodes[n].(state := s));
  }

  /** Changing the counters of a node keeps the arena valid. */
  lemma Counted(nodes: seq<Node>, w: nat, h: nat, p: nat, Q: Node)
    requires ValidNodes(nodes, w, h) && p < |nodes|
    requires Q == nodes[p].(recursions := Q.recursions, steps := Q.steps, backtracks := Q.backtracks)
    ensures ValidNodes(nodes[p := Q], w, h)
  {
    assert NodeOk(nodes[p], w, h);
    Replace(nodes, w, h, p, Q);
  }

  /** A parent that adopts its child's fills, with or without its remaining children, is valid. */
  lemma AdoptedOk(nodes: seq<Node>, w: nat, h: nat, p: nat, c: nat)
    requires ValidNodes(nodes, w, h) && c < |nodes| && nodes[c].parent == Some(p)
    ensures p < c && |nodes[p].board| == |nodes[c].board|
    ensures ValidNodes(nodes[p := Adopted(nodes[p], c, nodes[c])], w, h)
    ensures ValidNodes(nodes[p := Adopted(nodes[p], c, nodes[c]).(children := [])], w, h)
  {
    assert LinkedAt(nodes, c);
    var P := nodes[p];
    assert NodeOk(P, w, h) && NodeOk(nodes[c], w, h);
    var P1 := Adopted(P, c, nodes[c]);
    RemoveFirstKeeps(P.children, c);
    Replace(nodes, w, h, p, P1);
    Replace(nodes, w, h, p, P1.(children := []));
  }

  // ---------------------------------------------------------------------------------------------
  // takeStep

  /** takeStep(pauseOnDone) on node n: setState(RUNNING), then the step of a leaf or of a parent.
      The arena only grows, stays valid, and the step ends in one of the exceptions of StepError. */
  function Step(nodes: seq<Node>, w: nat, h: nat, n: nat, pause: bool): (t: Transition)
    requires ValidNodes(nodes, w, h) && n < |nodes|
    ensures |t.nodes| >= |nodes| && ValidNodes(t.nodes, w, h)
    ensures t.outcome.Fail? ==> StepError(t.outcome.error)
    decreases |nodes| - n, 2
  {
    var t0 := Transit(nodes, w, h, n, Running);
    if t0.outcome.Fail? then t0
    else if t0.nodes[n].children == [] then LeafStep(t0.nodes, w, h, n, pause)
    else ParentStep(t0.nodes, w, h, n, pause)
  }

  /** The step of a node with children: the first child steps, and what it throws is caught. */
  function ParentStep(nodes: seq<Node>, w: nat, h: nat, n: nat, pause: bool): (t: Transition)
    requires ValidNodes(nodes, w, h) && n < |nodes| && nodes[n].children != []
    ensures |t.nodes| >= |nodes| && ValidNodes(t.nodes, w, h)
    ensures t.outcome.Fail? ==> StepError(t.outcome.error)
    decreases |nodes| - n, 1
  {
    assert LinkedAt(nodes, n);
    var t := Step(nodes, w, h, nodes[n].children[0], pause);
    if t.outcome.Pass? then PauseIf(t.nodes, w, h, n, pause)
    else Unwind(t.nodes, w, h, n, pause, t.outcome.error)
  }

  /** The catch blocks of takeStep, the first child having thrown e. An AmbigiousException fails a
      RUNNING node and goes on up. Another IllegalClueStateException is a backtrack: the node
      swallows it while other children remain; with none left it succeeds if its grid is complete
      and otherwise fails and throws e on. Every other exception goes on up. */
  function Unwind(nodes: seq<Node>, w: nat, h: nat, n: nat, pause: bool, e: SolveError): (t: Transition)
    requires ValidNodes(nodes, w, h) && n < |nodes| && StepError(e)
    ensures |t.nodes| == |nodes| && ValidNodes(t.nodes, w, h)
    ensures t.outcome.Fail? ==> StepError(t.outcome.error)
  {
    if e.Ambiguous? then
      if nodes[n].state == Running then Rethrow(Transit(nodes, w, h, n, Failed), e)
      else Transition(nodes, Fail(e))
    else if IsClueState(e) then
      var N := nodes[n].(backtracks := nodes[n].backtracks + 1);
      Counted(nodes, w, h, n, N);
      var ns := nodes[n := N];
      if !SelfActive(N) then PauseIf(ns, w, h, n, pause)
      else if N.clues == [] then Transit(ns, w, h, n, Succeeded)
      else Rethrow(Transit(ns, w, h, n, Failed), e)
    else Transition(nodes, Fail(e))
  }

  /** The step of a RUNNING leaf: with an empty worklist the node succeeds; otherwise an iteration
      is started if none is under way, and the node takes one step of it while its worklist or
      loopback list has an entry left, and ends it otherwise. */
  function LeafStep(nodes: seq<Node>, w: nat, h: nat, n: nat, pause: bool): (t: Transition)
    requires ValidNodes(nodes, w, h) && n < |nodes| && nodes[n].children == [] && nodes[n].state == Running
    ensures |t.nodes| >= |nodes| && ValidNodes(t.nodes, w, h)
    ensures t.outcome.Fail? ==> StepError(t.outcome.error)
  {
    if nodes[n].clues == [] then Transit(nodes, w, h, n, Succeeded)
    else
      var ns := StartIteration(nodes, w, h, n);
      var N := ns[n];
      var t := if N.iter.value.cursor < |N.clues| || N.loopback != [] then ImplStep(ns, w, h, n) else EndStep(ns, w, h, n);
      if t.outcome.Fail? then t else PauseIf(t.nodes, w, h, n, pause)
  }

  /** startIteration() when there is no iterator: one at the head of the worklist, and `changed`
      reset. */
  function StartIteration(nodes: seq<Node>, w: nat, h: nat, n: nat): (ns: seq<Node>)
    requires ValidNodes(nodes, w, h) && n < |nodes|
    ensures ValidNodes(ns, w, h) && |ns| == |nodes| && ns[n].iter.Some?
    ensures ns[n] == if nodes[n].iter.None? then nodes[n].(iter := Some(Cursor(0, -1)), changed := false) else nodes[n]
    ensures forall j :: 0 <= j < |nodes| && j != n ==> ns[j] == nodes[j]
  {
    if nodes[n].iter.Some? then nodes
    else
      assert NodeOk(nodes[n], w, h);
      Replace(nodes, w, h, n, nodes[n].(iter := Some(Cursor(0, -1)), changed := false));
      nodes[n := nodes[n].(iter := Some(Cursor(0, -1)), changed := false)]
  }

  /** takeStepImpl() on node n: a ContradictionException fails the node before it is thrown; the
      IllegalStateException of iterator.remove() is thrown as it is. */
  function ImplStep(nodes: seq<Node>, w: nat, h: nat, n: nat): (t: Transition)
    requires ValidNodes(nodes, w, h) && n < |nodes| && nodes[n].iter.Some? && !Terminal(nodes[n].state)
    ensures |t.nodes| == |nodes| && ValidNodes(t.nodes, w, h)
    ensures t.outcome.Fail? ==> StepError(t.outcome.error)
  {
    var st := StepWithin(nodes, w, h, n);
    var ns := nodes[n := st.node];
    if st.error.None? then Transition(ns, Pass)
    else if st.error.value.Contradiction? then Rethrow(Transit(ns, w, h, n, Failed), st.error.value)
    else Transition(ns, Fail(st.error.value))
  }

  /** The step at node n, which fits back into the arena and throws only ContradictionException
      or IllegalStateException. */
  function StepWithin(nodes: seq<Node>, w: nat, h: nat, n: nat): (st: Stepped)
    requires ValidNodes(nodes, w, h) && n < |nodes| && nodes[n].iter.Some? && !Terminal(nodes[n].state)
    ensures ValidNodes(nodes[n := st.node], w, h)
    ensures st.error.Some? ==> st.error.value.Contradiction? || st.error.value == IllegalState
  {
    assert NodeOk(nodes[n], w, h);
    StepKeepsNode(nodes[n], w, h);
    StepErrors(nodes[n], w, h);
    Replace(nodes, w, h, n, StepAt(nodes[n], w, h).node);
    StepAt(nodes[n], w, h)
  }

  /** endIteration() on leaf n: the node left by EndNode, its new children appended to the arena in
      order, and the exception the children loop ended in, if any. */
  function EndStep(nodes: seq<Node>, w: nat, h: nat, n: nat): (t: Transition)
    requires ValidNodes(nodes, w, h) && n < |nodes| && nodes[n].children == []
    ensures |t.nodes| >= |nodes| && ValidNodes(t.nodes, w, h)
    ensures t.outcome.Fail? ==> StepError(t.outcome.error)
  {
    var b := EndBranching(nodes[n], w, h, n);
    var ns := Ended(nodes, w, h, n);
    var all := (ns + b.kids)[n := ns[n].(children := Span(|nodes|, |b.kids|))];
    BranchErrors(nodes[n], w, h, n);
    if b.error.Some? then Transition(all, Fail(b.error.value)) else Transition(all, Pass)
  }

  /** The arena with leaf n replaced by EndNode, ready to adopt the children of EndBranching. */
  function Ended(nodes: seq<Node>, w: nat, h: nat, n: nat): (ns: seq<Node>)
    requires ValidNodes(nodes, w, h) && n < |nodes| && nodes[n].children == []
    ensures ns == nodes[n := EndNode(nodes[n])]
    ensures ValidNodes((ns + EndBranching(nodes[n], w, h, n).kids)[n := ns[n].(children := Span(|nodes|, |EndBranching(nodes[n], w, h, n).kids|))], w, h)
  {
    var N := nodes[n];
    assert NodeOk(N, w, h);
    EndNodeKeeps(N, w, h);
    EndBranchingKids(N, w, h, n);
    Replace(nodes, w, h, n, EndNode(N));
    Adopt(nodes[n := EndNode(N)], w, h, n, EndBranching(N, w, h, n).kids);
    nodes[n := EndNode(N)]
  }

  /** The exception endIteration ends in is RequiresAdvancedLogicException or
      IndexOutOfBoundsException. */
  lemma BranchErrors(N: Node, w: nat, h: nat, n: nat)
    requires NodeOk(N, w, h)
    ensures var b := EndBranching(N, w, h, n);
      b.error.Some? ==> b.error.value.RequiresAdvancedLogic? || b.error.value == IndexOutOfBounds
  {
    if Stalled(N) {
      var j := FirstUnsolved(N.coords, N.clues, 0);
      if j < |N.clues| && N.advanced {
        EndBranchingAt(N, w, h, n);
        BranchShape(Pointed(N, j), N.clues[j], w, h, n);
      }
    }
  }

  /** The pause takeStep makes at its end when asked to and the node is still runnable. */
  function PauseIf(nodes: seq<Node>, w: nat, h: nat, n: nat, pause: bool): (t: Transition)
    requires ValidNodes(nodes, w, h) && n < |nodes|
    ensures |t.nodes| == |nodes| && ValidNodes(t.nodes, w, h)
    ensures t.outcome.Fail? ==> t.outcome.error == IllegalState
  {
    if pause && Runnable(nodes[n].state) then Pause(nodes, w, h, n) else Transition(nodes, Pass)
  }

  /** pause(): IllegalStateException unless the node is RUNNING, which then becomes PAUSED. */
  function Pause(nodes: seq<Node>, w: nat, h: nat, n: nat): (t: Transition)
    requires ValidNodes(nodes, w, h) && n < |nodes|
    ensures |t.nodes| == |nodes| && ValidNodes(t.nodes, w, h)
    ensures t.outcome.Fail? <==> nodes[n].state != Running
    ensures t.outcome.Fail? ==> t == Transition(nodes, Fail(IllegalState))
    ensures t.outcome.Pass? ==> t.nodes == nodes[n := nodes[n].(state := Paused)]
  {
    if nodes[n].state != Running then Transition(nodes, Fail(IllegalState))
    else Transit(nodes, w, h, n, Paused)
  }

  // ---------------------------------------------------------------------------------------------
  // run()

  /** Where run() has got to: the arena, and how the last takeStep ended, or None when the steps
      allowed ran out while the node was still RUNNING. */
  datatype Ran = Ran(nodes: seq<Node>, outcome: Option<Outcome<SolveError>>)

  /** run() on node n with at most `fuel` calls of takeStep(false): it stops at the first exception,
      or as soon as the node is no longer RUNNING. */
  function RunSteps(nodes: seq<Node>, w: nat, h: nat, n: nat, fuel: nat): (r: Ran)
    requires ValidNodes(nodes, w, h) && n < |nodes|
    ensures |r.nodes| >= |nodes| && ValidNodes(r.nodes, w, h)
    ensures r.outcome.Some? && r.outcome.value.Fail? ==> StepError(r.outcome.value.error)
    ensures r.outcome.Some? && r.outcome.value.Pass? ==> r.nodes[n].state != Running
    ensures r.outcome.None? ==> r.nodes[n].state == Running || fuel == 0
    decreases fuel
  {
    if fuel == 0 then Ran(nodes, None)
    else
      var t := Step(nodes, w, h, n, false);
      if t.outcome.Fail? || t.nodes[n].state != Running then Ran(t.nodes, Some(t.outcome))
      else RunSteps(t.nodes, w, h, n, fuel - 1)
  }

  /** One round of run()'s loop. */
  lemma RunOnce(nodes: seq<Node>, w: nat, h: nat, n: nat, k: nat, t: Transition)
    requires ValidNodes(nodes, w, h) && n < |nodes| && k > 0 && t == Step(nodes, w, h, n, false)
    ensures |t.nodes| >= |nodes| && ValidNodes(t.nodes, w, h)
    ensures RunSteps(nodes, w, h, n, k)
      == if t.outcome.Fail? || t.nodes[n].state != Running then Ran(t.nodes, Some(t.outcome))
         else RunSteps(t.nodes, w, h, n, k - 1)
  {
  }

  // ---------------------------------------------------------------------------------------------
  // Properties of the tree operations

  /** step() (takeStep with pauseOnDone) that returns leaves the node no longer RUNNING: it is
      PAUSED, or it has terminated on the way. */
  lemma StepPauses(nodes: seq<Node>, w: nat, h: nat, n: nat)
    requires ValidNodes(nodes, w, h) && n < |nodes|
    ensures var t := Step(nodes, w, h, n, true); t.outcome.Pass? ==> t.nodes[n].state != Running
  {
    var t0 := Transit(nodes, w, h, n, Running);
    if t0.outcome.Pass? {
      var ns := t0.nodes;
      if ns[n].children == [] {
        if ns[n].clues != [] {
          var ns1 := StartIteration(ns, w, h, n);
          var N := ns1[n];
          var t := if N.iter.value.cursor < |N.clues| || N.loopback != [] then ImplStep(ns1, w, h, n) else EndStep(ns1, w, h, n);
          if t.outcome.Pass? {
            PauseStops(t.nodes, w, h, n);
          }
        }
      } else {
        assert LinkedAt(ns, n);
        var t := Step(ns, w, h, ns[n].children[0], true);
        if t.outcome.Pass? {
          PauseStops(t.nodes, w, h, n);
        } else {
          UnwindStops(t.nodes, w, h, n, t.outcome.error);
        }
      }
    }
  }

  /** PauseIf never leaves the node RUNNING when it returns. */
  lemma PauseStops(nodes: seq<Node>, w: nat, h: nat, n: nat)
    requires ValidNodes(nodes, w, h) && n < |nodes|
    ensures var t := PauseIf(nodes, w, h, n, true); t.outcome.Pass? ==> t.nodes[n].state != Running
  {
  }

  /** The catch blocks of step() return only with the node paused or terminated. */
  lemma UnwindStops(nodes: seq<Node>, w: nat, h: nat, n: nat, e: SolveError)
    requires ValidNodes(nodes, w, h) && n < |nodes| && StepError(e)
    ensures var t := Unwind(nodes, w, h, n, true, e); t.outcome.Pass? ==> t.nodes[n].state != Running
  {
    if IsClueState(e) && !e.Ambiguous? {
      var N := nodes[n].(backtracks := nodes[n].backtracks + 1);
      Counted(nodes, w, h, n, N);
      if !SelfActive(N) {
        PauseStops(nodes[n := N], w, h, n);
      }
    }
  }

  /** A parent in validation (grid complete, ambiguity checked, other children left) that hears a
      second child succeed fails and throws AmbigiousException at its recursion point, with its own
      board and the child's. */
  lemma SecondSolutionAmbiguous(nodes: seq<Node>, w: nat, h: nat, p: nat, c: nat)
    requires ValidNodes(nodes, w, h) && c < |nodes| && nodes[c].parent == Some(p)
    requires p < |nodes| && InValidation(nodes[p])
    ensures p < c && nodes[p].recursionPoint.Some? && nodes[p].recursionPoint.value < |nodes[p].coords|
    ensures ChildSucceeded(nodes, w, h, p, c) == Transition(FailedAt(nodes, p), Fail(AmbiguityAt(nodes[p], nodes[c])))
    ensures FailedAt(nodes, p)[p].state == Failed
  {
    assert LinkedAt(nodes, c);
    assert NodeOk(nodes[p], w, h);
  }

  /** A parent not in validation that hears a child succeed takes the child's fills and clears its
      worklist and iterator. If it is then in validation (ambiguity checked, other children left)
      it goes on with them; otherwise it drops its children and settles (SettledAt). */
  lemma ChildSuccessAdopts(nodes: seq<Node>, w: nat, h: nat, p: nat, c: nat)
    requires ValidNodes(nodes, w, h) && c < |nodes| && nodes[c].parent == Some(p)
    requires p < |nodes| && !InValidation(nodes[p])
    ensures p < c && |nodes[p].board| == |nodes[c].board|
    ensures ValidNodes(nodes[p := Adopted(nodes[p], c, nodes[c]).(children := [])], w, h)
    ensures var P := nodes[p]; var C := nodes[c]; var P1 := Adopted(P, c, C);
      var t := ChildSucceeded(nodes, w, h, p, c);
      && P1.board == CopyFills(P.board, C.board) && P1.clues == [] && P1.iter.None?
      && (InValidation(P1) ==> t == Transition(nodes[p := P1], Pass))
      && (!InValidation(P1) ==> t == Settled(nodes[p := P1.(children := [])], w, h, p, C))
  {
    AdoptedOk(nodes, w, h, p, c);
  }

  /** What succeeding does to the node itself at the end of the SUCCEEDED listener: a terminated
      node throws IllegalStateException and nothing changes; otherwise it takes state SUCCEEDED and,
      unless that throws, one recursion more than the child and the sum of both nodes' steps and
      backtracks. */
  lemma SettledAt(nodes: seq<Node>, w: nat, h: nat, p: nat, C: Node)
    requires ValidNodes(nodes, w, h) && p < |nodes|
    ensures var t := Settled(nodes, w, h, p, C); var P := nodes[p];
      && (Terminal(P.state) ==> t == Transition(nodes, Fail(IllegalState)))
      && (!Terminal(P.state) && t.outcome.Fail? ==> t.nodes[p] == P.(state := Succeeded))
      && (!Terminal(P.state) && t.outcome.Pass? ==>
            t.nodes[p] == P.(state := Succeeded, recursions := C.recursions + 1,
                             steps := P.steps + C.steps, backtracks := P.backtracks + C.backtracks))
  {
    var t := Transit(nodes, w, h, p, Succeeded);
    assert !Terminal(nodes[p].state) ==> t.nodes[p] == nodes[p].(state := Succeeded);
  }

  /** The catch block of takeStep for an IllegalClueStateException other than AmbigiousException:
      the node counts a backtrack; while it still has children it goes on (pausing when asked);
      with none left it succeeds when its worklist is empty, and otherwise fails and throws the
      exception on. */
  lemma Backtrack(nodes: seq<Node>, w: nat, h: nat, n: nat, pause: bool, e: SolveError)
    requires ValidNodes(nodes, w, h) && n < |nodes| && StepError(e) && IsClueState(e) && !e.Ambiguous?
    ensures ValidNodes(nodes[n := nodes[n].(backtracks := nodes[n].backtracks + 1)], w, h)
    ensures var N := nodes[n].(backtracks := nodes[n].backtracks + 1);
      var t := Unwind(nodes, w, h, n, pause, e);
      && (!SelfActive(N) ==> t == PauseIf(nodes[n := N], w, h, n, pause))
      && (SelfActive(N) && N.clues == [] ==> t.nodes[n] == N.(state := Succeeded))
      && (SelfActive(N) && N.clues != [] ==> t.outcome == Fail(e) && t.nodes[n] == N.(state := Failed))
  {
    var N := nodes[n].(backtracks := nodes[n].backtracks + 1);
    Counted(nodes, w, h, n, N);
  }
}
