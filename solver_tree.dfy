/**
 * The search tree of RecursionSolver, as values. Every solver object is a Node in an arena and is
 * known by its index there. A node holds its own copy of the board, its table of Coordinates
 * objects, its worklists and the links to its parent and children. This module states what one
 * step and one end of an iteration do to a node, and what the links between nodes guarantee; the
 * arena class of the solver module performs the operations.
 */
module SolverNodes {
  import opened Wrappers
  import opened Fills
  import opened Clues
  import opened Grids
  import opened Boards
  import opened Deduction
  import opened Lifecycle
  import opened Worklists

  /** One RecursionSolver: its mosaic (board), its state, its Coordinates objects (coords), the
      worklist `clues` and the `loopbackClues` list (both indices into coords), the list iterator
      (None is null), the `changed` flag of the current iteration, its children (arena indices,
      in order), parent and level, the current and recursion points, the three options
      (useAdvancedLogic, checkAmbiguity, loopbackEnhacement) and the report counters. */
  datatype Node = Node(
    board: seq<Clue>,
    state: State,
    coords: seq<Coord>,
    clues: seq<nat>,
    loopback: seq<nat>,
    iter: Option<Cursor>,
    changed: bool,
    children: seq<nat>,
    parent: Option<nat>,
    level: nat,
    currentPoint: Option<nat>,
    recursionPoint: Option<nat>,
    advanced: bool,
    ambiguity: bool,
    loopbackOn: bool,
    steps: nat,
    backtracks: nat,
    recursions: nat)

  /** The number of cells of a w x h puzzle, counted row by row. */
  function Area(w: nat, h: nat): nat
  {
    if h == 0 then 0 else Area(w, h - 1) + w
  }

  lemma {:induction false} AreaIsProduct(w: nat, h: nat)
    ensures Area(w, h) == w * h
  {
    if h > 0 {
      AreaIsProduct(w, h - 1);
      assert (h - 1) * w + w == h * w;
    }
  }

  /** A node of a w x h puzzle: the board has w * h cells, every coordinate is on it, both lists
      refer to the node's own coordinates, a live iterator is within its list, and a node with
      children has a recursion point. */
  predicate NodeOk(nd: Node, w: nat, h: nat)
  {
    && |nd.board| == Area(w, h)
    && (forall id :: 0 <= id < |nd.coords| ==> nd.coords[id].x < w && nd.coords[id].y < h)
    && Ids(nd.clues, |nd.coords|)
    && Ids(nd.loopback, |nd.coords|)
    && (nd.iter.Some? && !Terminal(nd.state) ==>
          nd.iter.value.cursor <= |nd.clues| && -1 <= nd.iter.value.lastRet < |nd.clues|)
    && (nd.currentPoint.Some? ==> nd.currentPoint.value < |nd.coords|)
    && (nd.recursionPoint.Some? ==> nd.recursionPoint.value < |nd.coords|)
    && (nd.children != [] ==> nd.recursionPoint.Some?)
  }

  /** Node i's links: a parent comes before its child and is one level up, a node without parent
      is at level 0, and every child of i comes after i and names i as its parent. */
  predicate LinkedAt(nodes: seq<Node>, i: nat)
    requires i < |nodes|
  {
    && (nodes[i].parent.None? ==> nodes[i].level == 0)
    && (nodes[i].parent.Some? ==>
          nodes[i].parent.value < i && nodes[i].level == nodes[nodes[i].parent.value].level + 1)
    && (forall k :: 0 <= k < |nodes[i].children| ==>
          i < nodes[i].children[k] < |nodes| && nodes[nodes[i].children[k]].parent == Some(i))
  }

  predicate Linked(nodes: seq<Node>)
  {
    forall i :: 0 <= i < |nodes| ==> LinkedAt(nodes, i)
  }

  /** The arena of a w x h puzzle: at least the root, every node well formed, all links right. */
  predicate ValidNodes(nodes: seq<Node>, w: nat, h: nat)
  {
    && |nodes| >= 1
    && (forall i :: 0 <= i < |nodes| ==> NodeOk(nodes[i], w, h))
    && Linked(nodes)
  }

  /** Replacing a node by one with the same parent and level, and no child it did not have, keeps
      the arena valid. */
  lemma Replace(nodes: seq<Node>, w: nat, h: nat, i: nat, nd: Node)
    requires ValidNodes(nodes, w, h) && i < |nodes| && NodeOk(nd, w, h)
    requires nd.parent == nodes[i].parent && nd.level == nodes[i].level
    requires forall k :: 0 <= k < |nd.children| ==> nd.children[k] in nodes[i].children
    ensures ValidNodes(nodes[i := nd], w, h)
  {
    var ns := nodes[i := nd];
    forall j | 0 <= j < |ns|
      ensures LinkedAt(ns, j)
    {
      assert LinkedAt(nodes, j);
      if j == i {
        forall k | 0 <= k < |nd.children|
          ensures i < nd.children[k] < |ns| && ns[nd.children[k]].parent == Some(i)
        {
          assert nd.children[k] in nodes[i].children;
          var q :| 0 <= q < |nodes[i].children| && nodes[i].children[q] == nd.children[k];
        }
      }
    }
  }

  /** Appending the new children of node p, with p's recursion point set, keeps the arena valid. */
  lemma Adopt(nodes: seq<Node>, w: nat, h: nat, p: nat, kids: seq<Node>)
    requires ValidNodes(nodes, w, h) && p < |nodes| && nodes[p].children == []
    requires kids != [] ==> nodes[p].recursionPoint.Some?
    requires forall i :: 0 <= i < |kids| ==>
      NodeOk(kids[i], w, h) && kids[i].parent == Some(p) && kids[i].level == nodes[p].level + 1 && kids[i].children == []
    ensures ValidNodes((nodes + kids)[p := nodes[p].(children := Span(|nodes|, |kids|))], w, h)
  {
    var ns := (nodes + kids)[p := nodes[p].(children := Span(|nodes|, |kids|))];
    forall j | 0 <= j < |ns|
      ensures NodeOk(ns[j], w, h) && LinkedAt(ns, j)
    {
      AdoptedAt(nodes, w, h, p, kids, j);
    }
  }

  /** Node j of the arena after the adoption is well formed and correctly linked. */
  lemma AdoptedAt(nodes: seq<Node>, w: nat, h: nat, p: nat, kids: seq<Node>, j: nat)
    requires ValidNodes(nodes, w, h) && p < |nodes| && nodes[p].children == []
    requires kids != [] ==> nodes[p].recursionPoint.Some?
    requires forall i :: 0 <= i < |kids| ==>
      NodeOk(kids[i], w, h) && kids[i].parent == Some(p) && kids[i].level == nodes[p].level + 1 && kids[i].children == []
    requires j < |nodes| + |kids|
    ensures var ns := (nodes + kids)[p := nodes[p].(children := Span(|nodes|, |kids|))];
      NodeOk(ns[j], w, h) && LinkedAt(ns, j)
  {
    var ns := (nodes + kids)[p := nodes[p].(children := Span(|nodes|, |kids|))];
    if j == p {
      AdoptedParent(nodes, w, h, p, kids, ns);
    } else if j < |nodes| {
      AdoptedOther(nodes, w, h, p, kids, ns, j);
    } else {
      assert ns[j] == kids[j - |nodes|];
      assert ns[p].level == nodes[p].level;
    }
  }

  /** The adopting node p lists exactly the appended nodes as its children. */
  lemma AdoptedParent(nodes: seq<Node>, w: nat, h: nat, p: nat, kids: seq<Node>, ns: seq<Node>)
    requires ValidNodes(nodes, w, h) && p < |nodes| && nodes[p].children == []
    requires kids != [] ==> nodes[p].recursionPoint.Some?
    requires forall i :: 0 <= i < |kids| ==> kids[i].parent == Some(p)
    requires ns == (nodes + kids)[p := nodes[p].(children := Span(|nodes|, |kids|))]
    ensures NodeOk(ns[p], w, h) && LinkedAt(ns, p)
  {
    assert LinkedAt(nodes, p) && NodeOk(nodes[p], w, h);
    forall k | 0 <= k < |ns[p].children|
      ensures p < ns[p].children[k] < |ns| && ns[ns[p].children[k]].parent == Some(p)
    {
      assert ns[p].children[k] == |nodes| + k;
      assert ns[|nodes| + k] == kids[k];
    }
  }

  /** A node that was in the arena and is not p keeps its links. */
  lemma AdoptedOther(nodes: seq<Node>, w: nat, h: nat, p: nat, kids: seq<Node>, ns: seq<Node>, j: nat)
    requires ValidNodes(nodes, w, h) && p < |nodes| && j < |nodes| && j != p
    requires ns == (nodes + kids)[p := nodes[p].(children := Span(|nodes|, |kids|))]
    ensures NodeOk(ns[j], w, h) && LinkedAt(ns, j)
  {
    assert LinkedAt(nodes, j) && NodeOk(nodes[j], w, h);
    assert ns[j] == nodes[j];
    if nodes[j].parent.Some? {
      var q := nodes[j].parent.value;
      assert ns[q].level == nodes[q].level;
    }
    forall k | 0 <= k < |ns[j].children|
      ensures j < ns[j].children[k] < |ns| && ns[ns[j].children[k]].parent == Some(j)
    {
      var c := nodes[j].children[k];
      assert ns[c].parent == nodes[c].parent;
    }
  }

  // ---------------------------------------------------------------------------------------------
  // Ancestors

  /** Node a is node i or one of its ancestors. */
  predicate IsAncestor(nodes: seq<Node>, a: nat, i: nat)
    requires Linked(nodes) && i < |nodes|
    decreases i
  {
    assert LinkedAt(nodes, i);
    a == i || (nodes[i].parent.Some? && IsAncestor(nodes, a, nodes[i].parent.value))
  }

  /** An ancestor comes no later than its descendant, and is on a strictly higher level unless it
      is the node itself. */
  lemma {:induction false} AncestorOrder(nodes: seq<Node>, a: nat, i: nat)
    requires Linked(nodes) && i < |nodes| && IsAncestor(nodes, a, i)
    ensures a <= i && nodes[a].level <= nodes[i].level
    ensures nodes[a].level == nodes[i].level ==> a == i
    decreases i
  {
    assert LinkedAt(nodes, i);
    if a != i {
      AncestorOrder(nodes, a, nodes[i].parent.value);
    }
  }

  /** Being an ancestor is transitive. */
  lemma {:induction false} AncestorTrans(nodes: seq<Node>, a: nat, b: nat, i: nat)
    requires Linked(nodes) && b < |nodes| && i < |nodes|
    requires IsAncestor(nodes, a, b) && IsAncestor(nodes, b, i)
    ensures IsAncestor(nodes, a, i)
    decreases i
  {
    assert LinkedAt(nodes, i);
    if b != i {
      AncestorTrans(nodes, a, b, nodes[i].parent.value);
    }
  }

  /** The ancestors of a node form a chain: of two ancestors of i, the one on the higher level is an
      ancestor of the other. */
  lemma {:induction false} AncestorChain(nodes: seq<Node>, a: nat, b: nat, i: nat)
    requires Linked(nodes) && i < |nodes|
    requires IsAncestor(nodes, a, i) && IsAncestor(nodes, b, i)
    requires a < |nodes| && b < |nodes| && nodes[a].level <= nodes[b].level
    ensures IsAncestor(nodes, a, b)
    decreases i
  {
    assert LinkedAt(nodes, i);
    if b == i {
    } else if a == i {
      AncestorOrder(nodes, b, i);
    } else {
      AncestorChain(nodes, a, b, nodes[i].parent.value);
    }
  }

  /** Both a and b descend from x. */
  predicate CommonAncestor(nodes: seq<Node>, x: nat, a: nat, b: nat)
    requires Linked(nodes) && a < |nodes| && b < |nodes|
  {
    IsAncestor(nodes, x, a) && IsAncestor(nodes, x, b)
  }

  /** commonParentImpl's first loop: while max is below min's level, the ancestors min and max
      share are those min shares with max's parent. */
  lemma ClimbOne(nodes: seq<Node>, lo: nat, hi: nat)
    requires Linked(nodes) && lo < |nodes| && hi < |nodes| && nodes[hi].level > nodes[lo].level
    ensures nodes[hi].parent.Some? && nodes[hi].parent.value < hi
    ensures nodes[nodes[hi].parent.value].level + 1 == nodes[hi].level
    ensures forall x ::
      (IsAncestor(nodes, x, lo) && IsAncestor(nodes, x, hi)) <==>
      (IsAncestor(nodes, x, lo) && IsAncestor(nodes, x, nodes[hi].parent.value))
  {
    assert LinkedAt(nodes, hi);
    forall x | IsAncestor(nodes, x, lo) && IsAncestor(nodes, x, hi)
      ensures IsAncestor(nodes, x, nodes[hi].parent.value)
    {
      AncestorOrder(nodes, x, lo);
    }
  }

  /** commonParentImpl's second loop: two different nodes on one level either both have a parent,
      and share exactly the ancestors their parents share, or are both roots and share none. */
  lemma ClimbBoth(nodes: seq<Node>, lo: nat, hi: nat)
    requires Linked(nodes) && lo < |nodes| && hi < |nodes| && lo != hi
    requires nodes[lo].level == nodes[hi].level
    ensures nodes[lo].parent.None? <==> nodes[hi].parent.None?
    ensures nodes[lo].parent.None? ==> forall x :: !(IsAncestor(nodes, x, lo) && IsAncestor(nodes, x, hi))
    ensures nodes[lo].parent.Some? ==>
      && nodes[lo].parent.value < lo && nodes[hi].parent.value < hi
      && nodes[nodes[lo].parent.value].level == nodes[nodes[hi].parent.value].level
      && forall x ::
           (IsAncestor(nodes, x, lo) && IsAncestor(nodes, x, hi)) <==>
           (IsAncestor(nodes, x, nodes[lo].parent.value) && IsAncestor(nodes, x, nodes[hi].parent.value))
  {
    assert LinkedAt(nodes, lo) && LinkedAt(nodes, hi);
    forall x | IsAncestor(nodes, x, lo) && IsAncestor(nodes, x, hi)
      ensures x != lo && x != hi
    {
      if x == lo {
        AncestorOrder(nodes, lo, hi);
      } else if x == hi {
        AncestorOrder(nodes, hi, lo);
      }
    }
  }

  /** getActive() below node s: follow the first child down to a leaf; a terminated node that still
      has children gives null from getActiveChild(), and the loop then dereferences it. */
  function ActiveFrom(nodes: seq<Node>, s: nat): Result<nat, SolveError>
    requires Linked(nodes) && s < |nodes|
    decreases |nodes| - s
  {
    assert LinkedAt(nodes, s);
    if nodes[s].children == [] then Success(s)
    else if Terminal(nodes[s].state) then Failure(NullPointer)
    else ActiveFrom(nodes, nodes[s].children[0])
  }

  /** getActive() on node n: null for a terminated node, otherwise the leaf its first children lead to. */
  function ActiveOf(nodes: seq<Node>, n: nat): Result<Option<nat>, SolveError>
    requires Linked(nodes) && n < |nodes|
  {
    if Terminal(nodes[n].state) then Success(None)
    else
      match ActiveFrom(nodes, n)
      case Success(a) => Success(Some(a))
      case Failure(e) => Failure(e)
  }

  /** The active node is a leaf below s; the only exception is a NullPointerException at a
      terminated node with children on the way down. */
  lemma {:induction false} ActiveIsLeafBelow(nodes: seq<Node>, s: nat)
    requires Linked(nodes) && s < |nodes|
    ensures var r := ActiveFrom(nodes, s);
      && (r.Success? ==> r.value < |nodes| && nodes[r.value].children == [] && IsAncestor(nodes, s, r.value))
      && (r.Failure? ==> r.error == NullPointer)
    decreases |nodes| - s
  {
    assert LinkedAt(nodes, s);
    if nodes[s].children != [] && !Terminal(nodes[s].state) {
      var c := nodes[s].children[0];
      ActiveIsLeafBelow(nodes, c);
      var r := ActiveFrom(nodes, c);
      if r.Success? {
        AncestorTrans(nodes, s, c, r.value);
      }
    }
  }

  // ---------------------------------------------------------------------------------------------
  // Listeners a parent registers on each child

  /** The FAILED listener: the parent drops the child and adds its step and backtrack counts. */
  function ChildFailed(P: Node, c: nat, C: Node): Node
  {
    P.(children := RemoveFirst(P.children, c), steps := P.steps + C.steps, backtracks := P.backtracks + C.backtracks)
  }

  /** setState(FAILED) on node n: its state, then its parent's FAILED listener. */
  function FailedAt(nodes: seq<Node>, n: nat): (r: seq<Node>)
    requires Linked(nodes) && n < |nodes|
    ensures |r| == |nodes| && r[n] == nodes[n].(state := Failed)
  {
    assert LinkedAt(nodes, n);
    var ns := nodes[n := nodes[n].(state := Failed)];
    if nodes[n].parent.Some? then
      var p := nodes[n].parent.value;
      ns[p := ChildFailed(nodes[p], n, ns[n])]
    else ns
  }

  /** Failing a node keeps the arena valid, changes only the node and its parent, and takes the node
      out of its parent's children. */
  lemma FailedAtValid(nodes: seq<Node>, w: nat, h: nat, n: nat)
    requires ValidNodes(nodes, w, h) && n < |nodes|
    ensures ValidNodes(FailedAt(nodes, n), w, h)
    ensures forall j :: 0 <= j < |nodes| && j != n && Some(j) != nodes[n].parent ==> FailedAt(nodes, n)[j] == nodes[j]
    ensures nodes[n].parent.Some? ==>
      var p := nodes[n].parent.value;
      p < n && FailedAt(nodes, n)[p] == ChildFailed(nodes[p], n, nodes[n].(state := Failed))
  {
    assert LinkedAt(nodes, n);
    var N := nodes[n];
    var ns := nodes[n := N.(state := Failed)];
    assert NodeOk(N, w, h);
    assert NodeOk(N.(state := Failed), w, h);
    Replace(nodes, w, h, n, N.(state := Failed));
    if N.parent.Some? {
      var p := N.parent.value;
      var P := nodes[p];
      assert ns[p] == P;
      RemoveFirstKeeps(P.children, n);
      assert NodeOk(P, w, h);
      assert NodeOk(ChildFailed(P, n, N), w, h);
      Replace(ns, w, h, p, ChildFailed(P, n, N.(state := Failed)));
    }
  }

  /** Nothing RemoveFirst returns was not in the list. */
  lemma RemoveFirstKeeps(l: seq<nat>, x: nat)
    ensures forall k :: 0 <= k < |RemoveFirst(l, x)| ==> RemoveFirst(l, x)[k] in l
  {
    var r := RemoveFirst(l, x);
    forall k | 0 <= k < |r|
      ensures r[k] in l
    {
      assert r[k] in multiset(r);
    }
  }

  /** The child's fills copied onto the parent's board, cell by cell; the clues stay the parent's. */
  function CopyFills(board: seq<Clue>, from: seq<Clue>): (r: seq<Clue>)
    requires |board| == |from|
    ensures |r| == |board|
    ensures forall i :: 0 <= i < |r| ==>
      r[i].fill == from[i].fill && r[i].clue == board[i].clue && r[i].isPixel == board[i].isPixel
  {
    seq(|board|, i requires 0 <= i < |board| => board[i].(fill := from[i].fill))
  }

  /** The loop of the SUCCEEDED listener: getMosaic().get(x).setFill(child's fill at x). */
  method TakeFills(board: seq<Clue>, from: seq<Clue>) returns (r: seq<Clue>)
    requires |board| == |from|
    ensures r == CopyFills(board, from)
  {
    r := board;
    for x := 0 to |board|
      invariant |r| == |board|
      invariant forall i :: 0 <= i < |r| ==> r[i] == if i < x then board[i].(fill := from[i].fill) else board[i]
    {
      r := r[x := r[x].(fill := from[x].fill)];
    }
  }

  /** Copying the same fills a second time changes nothing. */
  lemma CopyFillsTwice(board: seq<Clue>, from: seq<Clue>)
    requires |board| == |from|
    ensures CopyFills(CopyFills(board, from), from) == CopyFills(board, from)
  {
  }

  /** The SUCCEEDED listener, after the ambiguity check: the parent takes the child's fills, drops
      the child, clears its worklist (gridComplete) and its iterator. */
  function Adopted(P: Node, c: nat, C: Node): Node
    requires |P.board| == |C.board|
  {
    P.(board := CopyFills(P.board, C.board), children := RemoveFirst(P.children, c), clues := [], iter := None)
  }

  /** inValidationProcess(): the grid is complete (gridComplete() is an empty worklist), ambiguity
      is checked, and other children are still to be run; such a node never steps itself. */
  function InValidation(N: Node): (b: bool)
    ensures b <==> N.clues == [] && N.ambiguity && !SelfActive(N) && Runnable(N.state)
    ensures b ==> !Terminal(N.state) && N.state != Initializing
  {
    N.clues == [] && N.ambiguity && N.children != [] && Runnable(N.state)
  }

  /** isSelfActive(): no children, and runnable. */
  function SelfActive(N: Node): (b: bool)
    ensures b <==> N.children == [] && !Terminal(N.state) && N.state != Initializing
  {
    N.children == [] && Runnable(N.state)
  }

  /** The AmbigiousException a parent in validation raises on a second solution. */
  function AmbiguityAt(P: Node, C: Node): SolveError
    requires P.recursionPoint.Some? && P.recursionPoint.value < |P.coords|
  {
    var co := P.coords[P.recursionPoint.value];
    Ambiguous(P.board, C.board, co.x, co.y)
  }

  // ---------------------------------------------------------------------------------------------
  // Creating nodes

  /** new RecursionSolver(m, clues, this, level + 1): READY, with fresh coordinates, its own board,
      advanced logic and loopback on, the parent's ambiguity option, and zero counters. */
  function ChildNode(P: Node, n: nat, board: seq<Clue>, coords: seq<Coord>): Node
  {
    Node(board, Ready, coords, Span(0, |coords|), [], None, false, [], Some(n), P.level + 1,
         None, None, true, P.ambiguity, true, 0, 0, 0)
  }

  /** new RecursionSolver(mosaic): READY at level 0 with no parent, ambiguity not checked. */
  function RootNode(board: seq<Clue>, coords: seq<Coord>): Node
  {
    Node(board, Ready, coords, Span(0, |coords|), [], None, false, [], None, 0,
         None, None, true, false, true, 0, 0, 0)
  }

  /** The coordinates of the first n cells (row-major) that hold a clue, in iterator order. */
  function ClueCoords(cells: seq<Clue>, w: nat, h: nat, n: nat): (r: seq<Coord>)
    requires |cells| == w * h && n <= |cells|
    ensures |r| <= n
    ensures forall j :: 0 <= j < |r| ==> r[j].x < w && r[j].y < h && !r[j].solved
  {
    if n == 0 then []
    else
      LinearToXY(n - 1, w, h);
      var rest := ClueCoords(cells, w, h, n - 1);
      if cells[n - 1].clue >= 0 then rest + [Coord(XOf(n - 1, w), YOf(n - 1, w), false)] else rest
  }

  /** Every coordinate in the list is that of a clue. */
  lemma {:induction false} ClueCoordsSound(cells: seq<Clue>, w: nat, h: nat, n: nat, j: nat)
    requires |cells| == w * h && n <= |cells| && j < |ClueCoords(cells, w, h, n)|
    ensures var c := ClueCoords(cells, w, h, n)[j];
      LinearOf(c.x, c.y, w) < n && cells[LinearOf(c.x, c.y, w)].clue >= 0
  {
    LinearToXY(n - 1, w, h);
    var rest := ClueCoords(cells, w, h, n - 1);
    if j < |rest| {
      ClueCoordsSound(cells, w, h, n - 1, j);
    }
  }

  /** Every clue of the board has its coordinate in the list. */
  lemma {:induction false} ClueCoordsComplete(cells: seq<Clue>, w: nat, h: nat, n: nat, k: nat)
    requires |cells| == w * h && k < n <= |cells| && cells[k].clue >= 0 && w > 0
    ensures Coord(XOf(k, w), YOf(k, w), false) in ClueCoords(cells, w, h, n)
  {
    LinearToXY(n - 1, w, h);
    if k < n - 1 {
      ClueCoordsComplete(cells, w, h, n - 1, k);
    }
  }

  /** The constructor's forEachRemaining over the mosaic: a coordinate for every clue. */
  method ListClues(cells: seq<Clue>, w: nat, h: nat) returns (r: seq<Coord>)
    requires |cells| == w * h
    ensures r == ClueCoords(cells, w, h, |cells|)
  {
    r := [];
    for k := 0 to |cells|
      invariant r == ClueCoords(cells, w, h, k)
    {
      LinearToXY(k, w, h);
      if cells[k].clue >= 0 {
        r := r + [Coord(k % w, k / w, false)];
      }
    }
  }

  // ---------------------------------------------------------------------------------------------
  // One step: takeStepImpl

  /** The clue a step looks at (if any), and the node after the lists were walked. */
  datatype Picked = Picked(id: Option<nat>, node: Node)

  /** The two loops at the head of takeStepImpl: the loopback list is drained first, and only when
      it yields nothing does the iterator scan the worklist. */
  function PickClue(N: Node): Picked
    requires Ids(N.loopback, |N.coords|) && Ids(N.clues, |N.coords|)
    requires N.iter.Some? && N.iter.value.cursor <= |N.clues|
  {
    var t := Drain(N.coords, N.loopback);
    if t.pick.Some? then Picked(t.pick, N.(loopback := t.rest))
    else
      var s := Scan(N.coords, N.clues, N.iter.value);
      Picked(s.pick, N.(loopback := [], clues := s.clues, iter := Some(s.it)))
  }

  /** The clue picked is unsolved: the first unsolved one of the loopback list if there is one, else
      the first unsolved one from the iterator on. Nothing picked means both lists are exhausted.
      The worklist keeps every unsolved coordinate, and the lists stay well formed. */
  lemma PickFacts(N: Node)
    requires Ids(N.loopback, |N.coords|) && Ids(N.clues, |N.coords|)
    requires N.iter.Some? && N.iter.value.cursor <= |N.clues| && -1 <= N.iter.value.lastRet < |N.clues|
    ensures var p := PickClue(N); var nd := p.node;
      && nd == N.(loopback := nd.loopback, clues := nd.clues, iter := nd.iter)
      && Ids(nd.loopback, |N.coords|) && Ids(nd.clues, |N.coords|)
      && nd.iter.Some? && nd.iter.value.cursor <= |nd.clues| && -1 <= nd.iter.value.lastRet < |nd.clues|
      && (p.id.Some? ==> p.id.value < |N.coords| && !N.coords[p.id.value].solved)
      && (forall k :: 0 <= k < |N.clues| && !N.coords[N.clues[k]].solved ==> N.clues[k] in nd.clues)
      && (FirstUnsolved(N.coords, N.loopback, 0) < |N.loopback| ==>
            p.id == Some(N.loopback[FirstUnsolved(N.coords, N.loopback, 0)]) && nd.iter == N.iter)
      && (FirstUnsolved(N.coords, N.loopback, 0) == |N.loopback| ==>
            nd.loopback == [] &&
            var j := FirstUnsolved(N.coords, N.clues, N.iter.value.cursor);
            p.id == (if j < |N.clues| then Some(N.clues[j]) else None))
      && (p.id.None? ==> nd.loopback == [] && nd.iter.value.cursor == |nd.clues|)
  {
    var j := FirstUnsolved(N.coords, N.loopback, 0);
    if j < |N.loopback| {
      PickedFromLoopback(N, j);
    } else {
      var s := Scan(N.coords, N.clues, N.iter.value);
      assert PickClue(N) == Picked(s.pick, N.(loopback := [], clues := s.clues, iter := Some(s.it)));
      ScanKeepsUnsolved(N.coords, N.clues, N.iter.value);
    }
  }

  /** With an unsolved clue j in the loopback list, the step takes it and keeps the rest of the
      list after it. */
  lemma PickedFromLoopback(N: Node, j: nat)
    requires Ids(N.loopback, |N.coords|) && Ids(N.clues, |N.coords|)
    requires N.iter.Some? && N.iter.value.cursor <= |N.clues|
    requires j == FirstUnsolved(N.coords, N.loopback, 0) < |N.loopback|
    ensures PickClue(N) == Picked(Some(N.loopback[j]), N.(loopback := N.loopback[j + 1..]))
    ensures Ids(N.loopback[j + 1..], |N.coords|)
  {
    var rest := N.loopback[j + 1..];
    forall k | 0 <= k < |rest|
      ensures rest[k] < |N.coords|
    {
      assert rest[k] == N.loopback[j + 1 + k];
    }
  }

  /** After a change at coordinate id: rewind the iterator to the first far coordinate, walk forward
      again queueing the near ones for loopback, and leave the iterator where the walk stopped. */
  function Requeue(N: Node, id: nat): Node
    requires Ids(N.clues, |N.coords|) && id < |N.coords|
    requires N.iter.Some? && N.iter.value.cursor <= |N.clues|
  {
    var cur := N.iter.value.cursor;
    if cur == 0 then N
    else
      var f := Walk(N, id);
      N.(loopback := N.loopback + f.added, iter := Some(Cursor(f.cursor, f.cursor - 1)))
  }

  /** The walk of the loopback block: from the first far coordinate before the cursor up to the
      cursor. */
  function Walk(N: Node, id: nat): (f: Refilled)
    requires Ids(N.clues, |N.coords|) && id < |N.coords|
    requires N.iter.Some? && 0 < N.iter.value.cursor <= |N.clues|
    ensures f.cursor <= N.iter.value.cursor && Ids(f.added, |N.coords|)
    ensures forall k :: 0 <= k < |f.added| ==> f.added[k] != id && WithinTwo(N.coords[f.added[k]], N.coords[id])
  {
    var cur := N.iter.value.cursor;
    var r := RewindTo(N.coords, N.clues, N.coords[id], cur);
    Refill(N.coords, N.clues, id, r, cur - r)
  }

  /** The coordinates queued for loopback after a change at c are all near c and none is c; the
      iterator ends within the worklist, and nothing else changes. */
  lemma RequeueNear(N: Node, id: nat)
    requires Ids(N.clues, |N.coords|) && Ids(N.loopback, |N.coords|) && id < |N.coords|
    requires N.iter.Some? && N.iter.value.cursor <= |N.clues|
    ensures var R := Requeue(N, id);
      && R.loopback[..|N.loopback|] == N.loopback && Ids(R.loopback, |N.coords|)
      && (forall k :: |N.loopback| <= k < |R.loopback| ==>
            R.loopback[k] != id && WithinTwo(N.coords[R.loopback[k]], N.coords[id]))
  {
    if N.iter.value.cursor > 0 {
      AppendNear(N.coords, N.loopback, Walk(N, id).added, id);
    }
  }

  /** Appending coordinates near c (none of them c) to a list keeps its prefix and its ids. */
  lemma AppendNear(coords: seq<Coord>, l: seq<nat>, added: seq<nat>, c: nat)
    requires Ids(l, |coords|) && Ids(added, |coords|) && c < |coords|
    requires forall k :: 0 <= k < |added| ==> added[k] != c && WithinTwo(coords[added[k]], coords[c])
    ensures (l + added)[..|l|] == l && Ids(l + added, |coords|)
    ensures forall k :: |l| <= k < |l + added| ==> (l + added)[k] != c && WithinTwo(coords[(l + added)[k]], coords[c])
  {
    forall k | |l| <= k < |l + added|
      ensures (l + added)[k] != c && WithinTwo(coords[(l + added)[k]], coords[c])
    {
      assert (l + added)[k] == added[k - |l|];
    }
  }

  /** Requeueing changes only the loopback list and the iterator, which stays within the worklist
      and, after a rewind, has just returned the element before its cursor. */
  lemma RequeueShape(N: Node, id: nat)
    requires Ids(N.clues, |N.coords|) && id < |N.coords|
    requires N.iter.Some? && N.iter.value.cursor <= |N.clues|
    ensures var R := Requeue(N, id);
      && R == N.(loopback := R.loopback, iter := R.iter)
      && R.iter.Some? && R.iter.value.cursor <= N.iter.value.cursor
      && (N.iter.value.cursor > 0 ==> R.iter.value.lastRet == R.iter.value.cursor - 1)
      && (N.iter.value.cursor == 0 ==> R == N)
  {
  }

  /** The node after a step, and the exception the step ends in, if any. */
  datatype Stepped = Stepped(node: Node, error: Option<SolveError>)

  /** The parts of a node a step or an end of iteration leaves alone: its state, its place in the
      tree, its options, the size of its coordinate table and two of its counters. */
  predicate SamePlace(a: Node, b: Node)
  {
    && a.state == b.state && a.children == b.children && a.parent == b.parent && a.level == b.level
    && a.advanced == b.advanced && a.ambiguity == b.ambiguity && a.loopbackOn == b.loopbackOn
    && a.backtracks == b.backtracks && a.recursions == b.recursions && |a.coords| == |b.coords|
  }

  /** takeStepImpl on node N of a w x h puzzle: count the step, pick a clue, and visit it. */
  function StepAt(N: Node, w: nat, h: nat): Stepped
    requires NodeOk(N, w, h) && N.iter.Some? && !Terminal(N.state)
  {
    PickKeeps(N, w, h);
    var p := PickClue(N);
    if p.id.None? then Stepped(p.node.(steps := N.steps + 1), None)
    else Visit(p.node.(steps := N.steps + 1, currentPoint := p.id), p.id.value, w, h)
  }

  /** The rest of takeStepImpl at coordinate id, just picked: a coordinate without a clue is
      removed through the iterator; otherwise the rule decides the clue's window. */
  function Visit(N: Node, id: nat, w: nat, h: nat): Stepped
    requires NodeOk(N, w, h) && id < |N.coords| && N.iter.Some? && !Terminal(N.state)
  {
    var co := N.coords[id];
    XYToLinear(co.x, co.y, w, h);
    AreaIsProduct(w, h);
    var k := N.board[LinearOf(co.x, co.y, w)].clue;
    if k < 0 then RemoveCurrent(N) else Decide(N, id, k, Window(w, h, co.x, co.y))
  }

  /** iterator.remove() for a coordinate without a clue: IllegalStateException when the iterator
      has no element to remove. */
  function RemoveCurrent(N: Node): Stepped
    requires N.iter.Some? && N.iter.value.lastRet < |N.clues|
  {
    var it := N.iter.value;
    if it.lastRet < 0 then Stepped(N, Some(IllegalState))
    else Stepped(N.(clues := RemoveAt(N.clues, it.lastRet), iter := Some(Cursor(it.lastRet, -1))), None)
  }

  /** The rule at coordinate id, whose clue is k and whose window is win: a contradiction, or the
      painted board marked. */
  function Decide(N: Node, id: nat, k: int, win: seq<nat>): Stepped
    requires WindowOf(N.board, win) && Ids(N.clues, |N.coords|) && id < |N.coords|
    requires N.iter.Some? && N.iter.value.cursor <= |N.clues|
  {
    var o := Rule(N.board, win, k);
    if o.Contradiction? then Stepped(N, Some(SolveError.Contradiction(N.board, N.coords[id].x, N.coords[id].y)))
    else Stepped(Mark(N, id, o.cells, o.solved, o.changed), None)
  }

  /** The end of takeStepImpl: the painted board, the solved flag of coordinate id, the loopback
      block when a cell was painted and loopback is on, and `changed |= localChanged`. */
  function Mark(N: Node, id: nat, cells: seq<Clue>, solved: bool, changed: bool): Node
    requires Ids(N.clues, |N.coords|) && id < |N.coords|
    requires N.iter.Some? && N.iter.value.cursor <= |N.clues|
  {
    var N3 := N.(board := cells, coords := N.coords[id := N.coords[id].(solved := solved)]);
    var N4 := if changed && N.loopbackOn then Requeue(N3, id) else N3;
    N4.(changed := N.changed || changed)
  }

  /** Marking keeps the node well formed and in its place. */
  lemma MarkKeeps(N: Node, id: nat, cells: seq<Clue>, solved: bool, changed: bool, w: nat, h: nat)
    requires NodeOk(N, w, h) && id < |N.coords| && N.iter.Some? && !Terminal(N.state) && |cells| == Area(w, h)
    ensures var M := Mark(N, id, cells, solved, changed);
      && NodeOk(M, w, h) && SamePlace(M, N) && M.iter.Some? && M.board == cells
      && M.coords == N.coords[id := N.coords[id].(solved := solved)] && M.clues == N.clues
      && M.steps == N.steps && M.currentPoint == N.currentPoint && M.recursionPoint == N.recursionPoint
  {
    var N3 := N.(board := cells, coords := N.coords[id := N.coords[id].(solved := solved)]);
    assert NodeOk(N3, w, h);
    RequeueNear(N3, id);
    RequeueShape(N3, id);
  }

  /** A visit keeps the node well formed and in its place. */
  lemma VisitKeeps(N: Node, id: nat, w: nat, h: nat)
    requires NodeOk(N, w, h) && id < |N.coords| && N.iter.Some? && !Terminal(N.state)
    ensures var nd := Visit(N, id, w, h).node;
      && NodeOk(nd, w, h) && SamePlace(nd, N) && nd.iter.Some?
      && nd.steps == N.steps && nd.currentPoint == N.currentPoint && nd.recursionPoint == N.recursionPoint
  {
    var co := N.coords[id];
    XYToLinear(co.x, co.y, w, h);
    AreaIsProduct(w, h);
    var k := N.board[LinearOf(co.x, co.y, w)].clue;
    if k < 0 {
      RemoveKeeps(N, w, h);
    } else {
      DecideKeeps(N, id, k, Window(w, h, co.x, co.y), w, h);
    }
  }

  lemma RemoveKeeps(N: Node, w: nat, h: nat)
    requires NodeOk(N, w, h) && N.iter.Some? && !Terminal(N.state)
    ensures var nd := RemoveCurrent(N).node;
      && NodeOk(nd, w, h) && SamePlace(nd, N) && nd.iter.Some?
      && nd.steps == N.steps && nd.currentPoint == N.currentPoint && nd.recursionPoint == N.recursionPoint
  {
    var it := N.iter.value;
    if it.lastRet >= 0 {
      RemoveOk(N, w, h);
    }
  }

  /** Removing the element the iterator returned last keeps the worklist's ids and the iterator
      within it. */
  lemma RemoveOk(N: Node, w: nat, h: nat)
    requires NodeOk(N, w, h) && N.iter.Some? && !Terminal(N.state) && N.iter.value.lastRet >= 0
    ensures NodeOk(RemoveCurrent(N).node, w, h)
  {
    var it := N.iter.value;
    var rest := RemoveAt(N.clues, it.lastRet);
    forall k | 0 <= k < |rest|
      ensures rest[k] < |N.coords|
    {
      if k < it.lastRet {
        assert rest[k] == N.clues[k];
      } else {
        assert rest[k] == N.clues[k + 1];
      }
    }
  }

  lemma DecideKeeps(N: Node, id: nat, k: int, win: seq<nat>, w: nat, h: nat)
    requires NodeOk(N, w, h) && id < |N.coords| && N.iter.Some? && !Terminal(N.state) && WindowOf(N.board, win)
    ensures var nd := Decide(N, id, k, win).node;
      && NodeOk(nd, w, h) && SamePlace(nd, N) && nd.iter.Some?
      && nd.steps == N.steps && nd.currentPoint == N.currentPoint && nd.recursionPoint == N.recursionPoint
  {
    var o := Rule(N.board, win, k);
    if o.Deduced? {
      MarkKeeps(N, id, o.cells, o.solved, o.changed, w, h);
    }
  }

  /** A step keeps the node well formed and in its place, and counts itself. */
  lemma StepKeepsNode(N: Node, w: nat, h: nat)
    requires NodeOk(N, w, h) && N.iter.Some? && !Terminal(N.state)
    ensures var nd := StepAt(N, w, h).node;
      && NodeOk(nd, w, h) && SamePlace(nd, N) && nd.iter.Some?
      && nd.steps == N.steps + 1 && nd.recursionPoint == N.recursionPoint
  {
    PickKeeps(N, w, h);
    var p := PickClue(N);
    if p.id.Some? {
      var N1 := p.node.(steps := N.steps + 1, currentPoint := p.id);
      VisitKeeps(N1, p.id.value, w, h);
      StepVisits(N, w, h);
    }
  }

  /** A step that picks a clue visits it. */
  lemma StepVisits(N: Node, w: nat, h: nat)
    requires NodeOk(N, w, h) && N.iter.Some? && !Terminal(N.state)
    ensures var p := PickClue(N);
      p.id.Some? && p.id.value < |N.coords| && NodeOk(p.node.(steps := N.steps + 1, currentPoint := p.id), w, h) ==>
        StepAt(N, w, h) == Visit(p.node.(steps := N.steps + 1, currentPoint := p.id), p.id.value, w, h)
  {
  }

  /** The node after the pick, counted and pointing at the clue picked, is well formed. */
  lemma PickKeeps(N: Node, w: nat, h: nat)
    requires NodeOk(N, w, h) && N.iter.Some? && !Terminal(N.state)
    ensures var p := PickClue(N);
      && (p.id.Some? ==> p.id.value < |N.coords|)
      && NodeOk(p.node, w, h) && SamePlace(p.node, N) && p.node.iter.Some?
      && p.node.steps == N.steps && p.node.currentPoint == N.currentPoint && p.node.recursionPoint == N.recursionPoint
      && (p.id.Some? ==> NodeOk(p.node.(steps := N.steps + 1, currentPoint := p.id), w, h))
  {
    PickFacts(N);
    var p := PickClue(N);
    var nd := p.node;
    assert NodeOk(nd, w, h);
    if p.id.Some? {
      assert NodeOk(nd.(steps := N.steps + 1, currentPoint := p.id), w, h);
    }
  }

  /** What a visit does at a clue: a contradiction is reported exactly when the clue can no longer
      be met; otherwise the board becomes the rule's, the coordinate is marked solved exactly when
      its window has no EMPTY cell left, and `changed` records whether a cell was painted. */
  lemma VisitAtClue(N: Node, id: nat, w: nat, h: nat)
    requires NodeOk(N, w, h) && id < |N.coords| && N.iter.Some? && !Terminal(N.state)
    ensures var co := N.coords[id];
      co.x < w && co.y < h && |N.board| == w * h && LinearOf(co.x, co.y, w) < |N.board|
    ensures var co := N.coords[id];
      var k := N.board[LinearOf(co.x, co.y, w)].clue;
      var win := Window(w, h, co.x, co.y);
      var s := Visit(N, id, w, h);
      k >= 0 ==>
        && (s.error.Some? <==> !(Filleds(N.board, win) <= k <= Filleds(N.board, win) + Empties(N.board, win)))
        && (s.error.Some? ==> s.error.value == SolveError.Contradiction(N.board, co.x, co.y) && s.node == N)
        && (s.error.None? ==>
              && s.node.board == Rule(N.board, win, k).cells
              && (s.node.coords[id].solved <==> Empties(s.node.board, win) == 0)
              && (s.node.changed <==> N.changed || s.node.board != N.board))
  {
    VisitDecides(N, id, w, h);
    var co := N.coords[id];
    var k := N.board[LinearOf(co.x, co.y, w)].clue;
    if k >= 0 {
      DecideAtClue(N, id, k, Window(w, h, co.x, co.y));
    }
  }

  /** A visit to a coordinate whose cell holds a clue lets the rule decide its window. */
  lemma VisitDecides(N: Node, id: nat, w: nat, h: nat)
    requires NodeOk(N, w, h) && id < |N.coords| && N.iter.Some? && !Terminal(N.state)
    ensures var co := N.coords[id];
      co.x < w && co.y < h && |N.board| == w * h && LinearOf(co.x, co.y, w) < |N.board|
    ensures var co := N.coords[id];
      var k := N.board[LinearOf(co.x, co.y, w)].clue;
      k >= 0 ==> WindowOf(N.board, Window(w, h, co.x, co.y)) && Visit(N, id, w, h) == Decide(N, id, k, Window(w, h, co.x, co.y))
  {
    var co := N.coords[id];
    XYToLinear(co.x, co.y, w, h);
    AreaIsProduct(w, h);
  }

  /** The rule's decision at a clue of value k: a contradiction exactly when k is out of reach;
      otherwise the rule's board, the coordinate solved exactly when its window has no EMPTY cell
      left, and the flag raised exactly when a cell was painted. */
  lemma DecideAtClue(N: Node, id: nat, k: int, win: seq<nat>)
    requires WindowOf(N.board, win) && Ids(N.clues, |N.coords|) && id < |N.coords|
    requires N.iter.Some? && N.iter.value.cursor <= |N.clues|
    ensures var s := Decide(N, id, k, win); var co := N.coords[id];
      && (s.error.Some? <==> !(Filleds(N.board, win) <= k <= Filleds(N.board, win) + Empties(N.board, win)))
      && (s.error.Some? ==> s.error.value == SolveError.Contradiction(N.board, co.x, co.y) && s.node == N)
      && (s.error.None? ==>
            && s.node.board == Rule(N.board, win, k).cells
            && (s.node.coords[id].solved <==> Empties(s.node.board, win) == 0)
            && (s.node.changed <==> N.changed || s.node.board != N.board))
  {
    var o := Rule(N.board, win, k);
    RuleContradiction(N.board, win, k);
    RuleSolved(N.board, win, k);
    if o.Deduced? {
      MarkSets(N, id, o.cells, o.solved, o.changed);
    }
  }

  /** Marking sets the board, the solved flag of the coordinate and the `changed` flag. */
  lemma MarkSets(N: Node, id: nat, cells: seq<Clue>, solved: bool, changed: bool)
    requires Ids(N.clues, |N.coords|) && id < |N.coords|
    requires N.iter.Some? && N.iter.value.cursor <= |N.clues|
    ensures var M := Mark(N, id, cells, solved, changed);
      M.board == cells && |M.coords| == |N.coords| && M.coords[id].solved == solved && M.changed == (N.changed || changed)
  {
    var N3 := N.(board := cells, coords := N.coords[id := N.coords[id].(solved := solved)]);
    RequeueShape(N3, id);
  }

  /** A visit to a coordinate without a clue removes the element the iterator returned last, or
      ends in IllegalStateException when there is none. */
  lemma VisitWithoutClue(N: Node, id: nat, w: nat, h: nat)
    requires NodeOk(N, w, h) && id < |N.coords| && N.iter.Some? && !Terminal(N.state)
    requires var co := N.coords[id]; LinearOf(co.x, co.y, w) < |N.board| && N.board[LinearOf(co.x, co.y, w)].clue < 0
    ensures var s := Visit(N, id, w, h); var it := N.iter.value;
      && (s.error.Some? <==> it.lastRet < 0)
      && (s.error.Some? ==> s.error.value == IllegalState && s.node == N)
      && (s.error.None? ==>
            |s.node.clues| == |N.clues| - 1 && s.node.iter == Some(Cursor(it.lastRet, -1))
            && s.node.clues == N.clues[..it.lastRet] + N.clues[it.lastRet + 1..])
  {
    var co := N.coords[id];
    XYToLinear(co.x, co.y, w, h);
    AreaIsProduct(w, h);
  }

  // ---------------------------------------------------------------------------------------------
  // The end of an iteration: endIteration

  /** Whether endIteration looks for a recursion point: the iteration made no change (or loopback is
      on) and the worklist is not empty. */
  predicate Stalled(N: Node)
  {
    (!N.changed || N.loopbackOn) && N.clues != []
  }

  /** The node endIteration leaves: the iterator dropped; on a stall, the solved head of the
      worklist dropped and the first unsolved clue made the recursion point. */
  function EndNode(N: Node): Node
    requires Ids(N.clues, |N.coords|)
  {
    if !Stalled(N) then N.(iter := None)
    else
      var j := FirstUnsolved(N.coords, N.clues, 0);
      if j == |N.clues| then N.(iter := None, clues := []) else Pointed(N, j)
  }

  /** The node once endIteration dropped its iterator and the first j clues of its worklist, with
      the next clue as its recursion point. */
  function Pointed(N: Node, j: nat): Node
    requires j < |N.clues|
  {
    N.(iter := None, clues := N.clues[j..], recursionPoint := Some(N.clues[j]))
  }

  lemma PointedOk(N: Node, w: nat, h: nat, j: nat)
    requires NodeOk(N, w, h) && j < |N.clues|
    ensures NodeOk(Pointed(N, j), w, h) && SamePlace(Pointed(N, j), N) && N.clues[j] < |N.coords|
  {
    var clues := N.clues[j..];
    assert forall q :: 0 <= q < |clues| ==> clues[q] == N.clues[j + q];
  }

  /** The children endIteration made (in order), and the exception it ended in, if any. */
  datatype Branched = Branched(kids: seq<Node>, error: Option<SolveError>)

  /** What endIteration on node n (N) of a w x h puzzle makes: nothing unless the worklist stalled
      with an unsolved clue; then RequiresAdvancedLogicException at that clue when advanced logic is
      off, and the children of the node left by EndNode otherwise. */
  function EndBranching(N: Node, w: nat, h: nat, n: nat): Branched
    requires NodeOk(N, w, h)
  {
    if !Stalled(N) then Branched([], None)
    else
      var j := FirstUnsolved(N.coords, N.clues, 0);
      if j == |N.clues| then Branched([], None)
      else
        PointedOk(N, w, h, j);
        var id := N.clues[j];
        if !N.advanced then Branched([], Some(RequiresAdvancedLogic(N.board, N.coords[id].x, N.coords[id].y)))
        else Branch(Pointed(N, j), id, w, h, n)
  }

  /** The children loop of endIteration at recursion point id: child i fills EMPTY cell i of the
      window and crosses out the ones before it; ChildCount children are asked for, and asking for
      more than there are EMPTY cells ends in IndexOutOfBoundsException after the last one. */
  function Branch(N: Node, id: nat, w: nat, h: nat, n: nat): Branched
    requires NodeOk(N, w, h) && id < |N.coords|
  {
    var co := N.coords[id];
    XYToLinear(co.x, co.y, w, h);
    AreaIsProduct(w, h);
    var k := N.board[LinearOf(co.x, co.y, w)].clue;
    var win := Window(w, h, co.x, co.y);
    var e := EmptyPositions(Gather(N.board, win));
    var cnt := ChildCount(|e|, k, Filleds(N.board, win));
    if e == [] then Branched([], None)
    else
      var m := if cnt < |e| then cnt else |e|;
      Branched(Kids(N, n, win, e, m), if cnt > |e| then Some(SolveError.IndexOutOfBounds) else None)
  }

  /** The first m children of node n (N) branching on the EMPTY cells e of window win, all sharing
      the fresh coordinates of N's unsolved worklist entries. */
  function Kids(N: Node, n: nat, win: seq<nat>, e: seq<nat>, m: nat): (kids: seq<Node>)
    requires WindowOf(N.board, win) && m <= |e| && Ids(N.clues, |N.coords|)
    requires forall j :: 0 <= j < |e| ==> e[j] < |win|
    ensures |kids| == m
  {
    var table := FreshCoords(N.coords, N.clues);
    seq(m, i requires 0 <= i < m => ChildNode(N, n, ChildCells(N.board, win, e, i), table))
  }

  /** Children one level below node n that are READY, well-formed leaves. */
  predicate KidsOk(kids: seq<Node>, w: nat, h: nat, n: nat, level: nat)
  {
    forall i :: 0 <= i < |kids| ==>
      NodeOk(kids[i], w, h) && kids[i].parent == Some(n) && kids[i].level == level
      && kids[i].children == [] && kids[i].state == Ready
  }

  /** A new child node is well formed when its board is the puzzle's size and its coordinates lie on
      the board. */
  lemma ChildNodeOk(P: Node, n: nat, board: seq<Clue>, coords: seq<Coord>, w: nat, h: nat)
    requires |board| == Area(w, h) && forall q :: 0 <= q < |coords| ==> coords[q].x < w && coords[q].y < h
    ensures NodeOk(ChildNode(P, n, board, coords), w, h)
  {
  }

  /** The children of a branch are READY leaves of node n, one level down, and well formed. */
  lemma KidsAreOk(N: Node, n: nat, win: seq<nat>, e: seq<nat>, m: nat, w: nat, h: nat)
    requires NodeOk(N, w, h) && WindowOf(N.board, win) && m <= |e|
    requires forall j :: 0 <= j < |e| ==> e[j] < |win|
    ensures KidsOk(Kids(N, n, win, e, m), w, h, n, N.level + 1)
  {
    var table := FreshCoords(N.coords, N.clues);
    forall q | 0 <= q < |table|
      ensures table[q].x < w && table[q].y < h
    {
      var q' :| 0 <= q' < |N.clues| && table[q] == N.coords[N.clues[q']].(solved := false);
    }
    var kids := Kids(N, n, win, e, m);
    forall i | 0 <= i < m
      ensures NodeOk(kids[i], w, h)
    {
      ChildNodeOk(N, n, ChildCells(N.board, win, e, i), table, w, h);
    }
  }

  /** A branch makes well-formed READY leaves of node n. */
  lemma BranchKids(N: Node, id: nat, w: nat, h: nat, n: nat)
    requires NodeOk(N, w, h) && id < |N.coords|
    ensures KidsOk(Branch(N, id, w, h, n).kids, w, h, n, N.level + 1)
  {
    var co := N.coords[id];
    XYToLinear(co.x, co.y, w, h);
    AreaIsProduct(w, h);
    var k := N.board[LinearOf(co.x, co.y, w)].clue;
    var win := Window(w, h, co.x, co.y);
    var e := EmptyPositions(Gather(N.board, win));
    var cnt := ChildCount(|e|, k, Filleds(N.board, win));
    if e != [] {
      var m := if cnt < |e| then cnt else |e|;
      KidsAreOk(N, n, win, e, m, w, h);
    }
  }

  /** Branching at a clue of value k: there are min(ChildCount, EMPTY cells) children, and asking for
      more ends in IndexOutOfBoundsException; child i fills EMPTY cell i of the window and crosses
      out the ones before it, so it has fewer EMPTY cells than the node. */
  lemma BranchShape(N: Node, id: nat, w: nat, h: nat, n: nat)
    requires NodeOk(N, w, h) && id < |N.coords|
    ensures var co := N.coords[id]; co.x < w && co.y < h && |N.board| == w * h && LinearOf(co.x, co.y, w) < |N.board|
    ensures var co := N.coords[id];
      var k := N.board[LinearOf(co.x, co.y, w)].clue;
      var win := Window(w, h, co.x, co.y);
      var e := EmptyPositions(Gather(N.board, win));
      var cnt := ChildCount(|e|, k, Filleds(N.board, win));
      var b := Branch(N, id, w, h, n);
      && |b.kids| == (if e == [] then 0 else if cnt < |e| then cnt else |e|)
      && (b.error.Some? <==> e != [] && cnt > |e|)
      && (b.error.Some? ==> b.error.value == SolveError.IndexOutOfBounds)
      && forall i :: 0 <= i < |b.kids| ==>
           && b.kids[i].board == ChildCells(N.board, win, e, i)
           && CountWhere(b.kids[i].board, HasFill(Empty)) < CountWhere(N.board, HasFill(Empty))
  {
    var co := N.coords[id];
    XYToLinear(co.x, co.y, w, h);
    AreaIsProduct(w, h);
    var k := N.board[LinearOf(co.x, co.y, w)].clue;
    var win := Window(w, h, co.x, co.y);
    var e := EmptyPositions(Gather(N.board, win));
    var cnt := ChildCount(|e|, k, Filleds(N.board, win));
    if e != [] {
      var m := if cnt < |e| then cnt else |e|;
      WindowDistinct(w, h, co.x, co.y);
      KidsFewer(N, n, win, e, m);
    }
  }

  /** Every child of a branch over a window with distinct cells starts from its own board, which has
      fewer EMPTY cells than the node's. */
  lemma KidsFewer(N: Node, n: nat, win: seq<nat>, e: seq<nat>, m: nat)
    requires WindowOf(N.board, win) && e == EmptyPositions(Gather(N.board, win)) && m <= |e| && Ids(N.clues, |N.coords|)
    requires forall j1, j2 :: 0 <= j1 < |win| && 0 <= j2 < |win| && win[j1] == win[j2] ==> j1 == j2
    ensures var kids := Kids(N, n, win, e, m);
      forall i :: 0 <= i < m ==>
        && kids[i].board == ChildCells(N.board, win, e, i)
        && CountWhere(kids[i].board, HasFill(Empty)) < CountWhere(N.board, HasFill(Empty))
  {
    forall i | 0 <= i < m
      ensures CountWhere(ChildCells(N.board, win, e, i), HasFill(Empty)) < CountWhere(N.board, HasFill(Empty))
    {
      ChildFewer(N.board, win, e, i);
    }
  }

  lemma ChildFewer(cells: seq<Clue>, win: seq<nat>, e: seq<nat>, i: nat)
    requires WindowOf(cells, win) && e == EmptyPositions(Gather(cells, win)) && i < |e|
    requires forall j1, j2 :: 0 <= j1 < |win| && 0 <= j2 < |win| && win[j1] == win[j2] ==> j1 == j2
    ensures CountWhere(ChildCells(cells, win, e, i), HasFill(Empty)) < CountWhere(cells, HasFill(Empty))
  {
    ChildShape(cells, win, e, i);
  }

  /** endIteration keeps the node well formed and in its place, with its board, coordinates,
      loopback list and step count, and drops its iterator; on a stall it drops the solved head of
      the worklist and points at the first unsolved clue, if any. */
  lemma EndNodeKeeps(N: Node, w: nat, h: nat)
    requires NodeOk(N, w, h)
    ensures var nd := EndNode(N);
      && NodeOk(nd, w, h) && SamePlace(nd, N) && nd.iter.None?
      && nd.board == N.board && nd.coords == N.coords && nd.loopback == N.loopback && nd.steps == N.steps
    ensures var nd := EndNode(N); var j := FirstUnsolved(N.coords, N.clues, 0);
      && (Stalled(N) ==> nd.clues == N.clues[j..])
      && (Stalled(N) && j < |N.clues| ==> nd.recursionPoint == Some(N.clues[j]))
      && (!Stalled(N) ==> nd.clues == N.clues && nd.recursionPoint == N.recursionPoint)
  {
    var j := FirstUnsolved(N.coords, N.clues, 0);
    if Stalled(N) && j < |N.clues| {
      PointedOk(N, w, h, j);
    }
  }

  /** The children endIteration makes are well-formed READY leaves one level down that name n as
      their parent; there are none, and no exception, unless the worklist stalled with an unsolved
      clue, which is then the recursion point. */
  lemma EndBranchingKids(N: Node, w: nat, h: nat, n: nat)
    requires NodeOk(N, w, h)
    ensures KidsOk(EndBranching(N, w, h, n).kids, w, h, n, N.level + 1)
    ensures var b := EndBranching(N, w, h, n);
      (b.kids != [] || b.error.Some?) ==> Stalled(N) && FirstUnsolved(N.coords, N.clues, 0) < |N.clues|
  {
    if Stalled(N) {
      var j := FirstUnsolved(N.coords, N.clues, 0);
      if j < |N.clues| {
        PointedOk(N, w, h, j);
        if N.advanced {
          BranchKids(Pointed(N, j), N.clues[j], w, h, n);
          EndIsBranch(N, w, h, n);
        }
      }
    }
  }

  /** A stalled endIteration with advanced logic and an unsolved clue left branches on it. */
  lemma EndIsBranch(N: Node, w: nat, h: nat, n: nat)
    requires NodeOk(N, w, h)
    ensures var j := FirstUnsolved(N.coords, N.clues, 0);
      Stalled(N) && N.advanced && j < |N.clues| && NodeOk(Pointed(N, j), w, h) && N.clues[j] < |N.coords| ==>
        EndBranching(N, w, h, n) == Branch(Pointed(N, j), N.clues[j], w, h, n)
  {
  }

  /** When the worklist stalls with an unsolved clue, endIteration reports
      RequiresAdvancedLogicException at the first one when advanced logic is off, and branches there
      otherwise. */
  lemma EndBranchingAt(N: Node, w: nat, h: nat, n: nat)
    requires NodeOk(N, w, h) && Stalled(N)
    requires FirstUnsolved(N.coords, N.clues, 0) < |N.clues|
    ensures var j := FirstUnsolved(N.coords, N.clues, 0);
      var id := N.clues[j];
      var b := EndBranching(N, w, h, n);
      && id < |N.coords| && !N.coords[id].solved && NodeOk(Pointed(N, j), w, h)
      && (!N.advanced ==> b.kids == [] && b.error == Some(RequiresAdvancedLogic(N.board, N.coords[id].x, N.coords[id].y)))
      && (N.advanced ==> b == Branch(Pointed(N, j), id, w, h, n))
  {
    var j := FirstUnsolved(N.coords, N.clues, 0);
    PointedOk(N, w, h, j);
    EndIsBranch(N, w, h, n);
  }
  /** A step throws only ContradictionException, or IllegalStateException from iterator.remove(). */
  lemma StepErrors(N: Node, w: nat, h: nat)
    requires NodeOk(N, w, h) && N.iter.Some? && !Terminal(N.state)
    ensures var e := StepAt(N, w, h).error; e.Some? ==> e.value.Contradiction? || e.value == IllegalState
  {
    PickKeeps(N, w, h);
    var p := PickClue(N);
    if p.id.Some? {
      StepVisits(N, w, h);
      VisitErrors(p.node.(steps := N.steps + 1, currentPoint := p.id), p.id.value, w, h);
    }
  }

  lemma VisitErrors(N: Node, id: nat, w: nat, h: nat)
    requires NodeOk(N, w, h) && id < |N.coords| && N.iter.Some? && !Terminal(N.state)
    ensures var e := Visit(N, id, w, h).error; e.Some? ==> e.value.Contradiction? || e.value == IllegalState
  {
    var co := N.coords[id];
    XYToLinear(co.x, co.y, w, h);
    AreaIsProduct(w, h);
  }
}
