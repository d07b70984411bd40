/**
 * AbstractSolveAlgorithm.java: the life cycle every solver shares. A solver is in one of seven
 * states; changing state calls the registered listeners in a fixed order, and a new solver can
 * refuse a mosaic in which some cell has no clue in its window.
 *
 * Listeners are Consumer objects; here each is known by its identity (a Handler number), and
 * calling one is recorded by appending it to the log `fired`.
 */
module Lifecycle {
  import opened Wrappers
  import opened Clues
  import opened Grids
  import opened Boards
  import opened Mosaics

  /** The seven states of StandardState. */
  datatype State = Initializing | Ready | Running | Paused | Succeeded | Failed | Cancelled

  /** isTerminated(): a state no solver leaves; exactly the states that are neither INITIALIZING
      nor runnable (READY, RUNNING, PAUSED). */
  function Terminal(s: State): (b: bool)
    ensures b <==> s != Initializing && s != Ready && s != Running && s != Paused
  {
    s == Succeeded || s == Failed || s == Cancelled
  }

  /** isRunnable(): every state that is neither terminal nor INITIALIZING. */
  function Runnable(s: State): (b: bool)
    ensures b <==> !Terminal(s) && s != Initializing
  {
    s == Ready || s == Running || s == Paused
  }

  /** The exceptions of the solvers: the four kinds of IllegalClueStateException, each with the
      board it was raised on and the cell it is about, IllegalStateException, and the unchecked
      IndexOutOfBoundsException and NullPointerException that escape some paths. */
  datatype SolveError =
    | NoClue(board: seq<Clue>, x: int, y: int)
    | Contradiction(board: seq<Clue>, x: int, y: int)
    | RequiresAdvancedLogic(board: seq<Clue>, x: int, y: int)
    | Ambiguous(board: seq<Clue>, other: seq<Clue>, x: int, y: int)
    | IllegalState
    | IndexOutOfBounds
    | NullPointer

  /** Whether e is an IllegalClueStateException (AmbigiousException included). */
  predicate IsClueState(e: SolveError)
  {
    e.NoClue? || e.Contradiction? || e.RequiresAdvancedLogic? || e.Ambiguous?
  }

  /** A listener, known by its identity. */
  type Handler = nat

  /** The six state-specific handlers (onStart ... onFail). */
  datatype Slot = OnStart | OnCancel | OnPause | OnResume | OnSucceed | OnFail

  /** The state-specific handler a change from state prev to state next calls, if any. */
  function SlotFor(prev: State, next: State): (r: Option<Slot>)
    ensures r == Some(OnStart) <==> prev == Ready && next == Running
    ensures r == Some(OnResume) <==> prev == Paused && next == Running
    ensures r == Some(OnPause) <==> next == Paused
    ensures r == Some(OnCancel) <==> next == Cancelled
    ensures r == Some(OnSucceed) <==> next == Succeeded
    ensures r == Some(OnFail) <==> next == Failed
    ensures r.None? <==> next == Initializing || next == Ready || (next == Running && prev != Ready && prev != Paused)
  {
    match next
    case Running => if prev == Ready then Some(OnStart) else if prev == Paused then Some(OnResume) else None
    case Paused => Some(OnPause)
    case Cancelled => Some(OnCancel)
    case Succeeded => Some(OnSucceed)
    case Failed => Some(OnFail)
    case _ => None
  }

  /** fire(handler): a handler that is set is called. */
  function Fire(h: Option<Handler>): seq<Handler>
  {
    if h.Some? then [h.value] else []
  }

  /** The listeners registered for one state (none when the map has no entry). */
  function ListenersFor(single: map<State, seq<Handler>>, s: State): seq<Handler>
  {
    if s in single then single[s] else []
  }

  /** The handler set for a slot, if any. */
  function HandlerIn(handlers: map<Slot, Handler>, slot: Option<Slot>): Option<Handler>
  {
    if slot.Some? && slot.value in handlers then Some(handlers[slot.value]) else None
  }

  /** The calls a change from state prev to state next makes: the all-state listeners, the listeners of the new
      state, onStateChange, then the state-specific handler. */
  function Dispatch(all: seq<Handler>, single: map<State, seq<Handler>>, change: Option<Handler>,
                    handlers: map<Slot, Handler>, prev: State, next: State): seq<Handler>
  {
    all + ListenersFor(single, next) + Fire(change) + Fire(HandlerIn(handlers, SlotFor(prev, next)))
  }

  /** A handler registered for one slot and nowhere else is called exactly on the changes that
      slot belongs to: onStart only on READY to RUNNING, onResume only on PAUSED to RUNNING. */
  lemma SlotFires(all: seq<Handler>, single: map<State, seq<Handler>>, change: Option<Handler>,
                  handlers: map<Slot, Handler>, slot: Slot, h: Handler, prev: State, next: State)
    requires slot in handlers && handlers[slot] == h
    requires forall s :: s in handlers && s != slot ==> handlers[s] != h
    requires h !in all && h !in ListenersFor(single, next) && change != Some(h)
    ensures h in Dispatch(all, single, change, handlers, prev, next) <==> SlotFor(prev, next) == Some(slot)
  {
    var d := Dispatch(all, single, change, handlers, prev, next);
    var tail := Fire(HandlerIn(handlers, SlotFor(prev, next)));
    assert d == all + ListenersFor(single, next) + Fire(change) + tail;
    assert h in d <==> h in tail;
  }

  /** The listeners come first, in registration order, then the new state's listeners. */
  lemma DispatchOrder(all: seq<Handler>, single: map<State, seq<Handler>>, change: Option<Handler>,
                      handlers: map<Slot, Handler>, prev: State, next: State)
    ensures var d := Dispatch(all, single, change, handlers, prev, next);
      var n := |all| + |ListenersFor(single, next)|;
      && n <= |d| <= n + 2
      && d[..|all|] == all
      && d[|all|..n] == ListenersFor(single, next)
      && (change.Some? ==> d[n] == change.value)
  {
  }

  /** List.remove(Object): the first occurrence of h removed, if there is one. */
  function RemoveFirst(l: seq<Handler>, h: Handler): (r: seq<Handler>)
    ensures h !in l ==> r == l
    ensures h in l ==> |r| == |l| - 1 && multiset(r) == multiset(l) - multiset{h}
  {
    if l == [] then []
    else if l[0] == h then
      assert l == [l[0]] + l[1..];
      l[1..]
    else
      assert l == [l[0]] + l[1..];
      [l[0]] + RemoveFirst(l[1..], h)
  }

  /** Removing a handler just added to a list that did not hold it restores the list. */
  lemma {:induction false} AddThenRemove(l: seq<Handler>, h: Handler)
    requires h !in l
    ensures RemoveFirst(l + [h], h) == l
  {
    if l != [] {
      assert (l + [h])[1..] == l[1..] + [h];
      AddThenRemove(l[1..], h);
    }
  }

  /** Whether the window of cell k (row-major) holds a clue. */
  predicate Clued(cells: seq<Clue>, w: nat, h: nat, k: nat)
    requires |cells| == w * h && k < w * h
  {
    LinearToXY(k, w, h);
    CountWhere(Gather(cells, Window(w, h, XOf(k, w), YOf(k, w))), HasClue()) > 0
  }

  /** The first cell, from index `from` on in row-major order, whose window holds no clue. */
  function FirstUnclued(cells: seq<Clue>, w: nat, h: nat, from: nat): (r: Option<nat>)
    requires |cells| == w * h
    ensures r.Some? ==> from <= r.value < w * h && !Clued(cells, w, h, r.value)
    ensures r.Some? ==> forall j :: from <= j < r.value ==> Clued(cells, w, h, j)
    ensures r.None? ==> forall j :: from <= j < w * h ==> Clued(cells, w, h, j)
    decreases w * h - from
  {
    if from >= w * h then None
    else if !Clued(cells, w, h, from) then Some(from)
    else FirstUnclued(cells, w, h, from + 1)
  }

  /** The check of the constructor: walk the cells in row-major order and count the clues in each
      window, stopping at the first window without one. */
  method FindUnclued(mosaic: Mosaic) returns (r: Option<nat>)
    requires mosaic.Valid()
    ensures r == FirstUnclued(mosaic.Cells(), mosaic.grid.width, mosaic.grid.height, 0)
  {
    var grid := mosaic.grid;
    ghost var cells := mosaic.Cells();
    var k := 0;
    while k < grid.Length()
      invariant 0 <= k <= grid.Length()
      invariant FirstUnclued(cells, grid.width, grid.height, 0) == FirstUnclued(cells, grid.width, grid.height, k)
      invariant mosaic.Valid() && mosaic.Cells() == cells
    {
      var clued := CluedAt(mosaic, k);
      assert mosaic.Valid() && mosaic.Cells() == cells;
      FirstUncluedStep(cells, grid.width, grid.height, k, clued);
      if !clued {
        return Some(k);
      }
      k := k + 1;
    }
    FirstUncluedStep(cells, grid.width, grid.height, k, false);
    return None;
  }

  /** One step of the search. */
  lemma FirstUncluedStep(cells: seq<Clue>, w: nat, h: nat, k: nat, clued: bool)
    requires |cells| == w * h
    requires k < w * h ==> clued == Clued(cells, w, h, k)
    ensures FirstUnclued(cells, w, h, k) ==
      if k >= w * h then None else if !clued then Some(k) else FirstUnclued(cells, w, h, k + 1)
  {
  }

  /** getSurroundingCells(x, y).count(clue -> clue.getClue() >= 0) != 0 for the cell with index k. */
  method CluedAt(mosaic: Mosaic, k: nat) returns (b: bool)
    requires mosaic.Valid() && k < mosaic.grid.Length()
    ensures b == Clued(mosaic.Cells(), mosaic.grid.width, mosaic.grid.height, k)
  {
    var grid := mosaic.grid;
    var x, y := grid.ToX(k).value, grid.ToY(k).value;
    SurroundingAccepted(x, y, grid.width, grid.height);
    var sub := grid.SurroundingCells(x, y);
    var n := sub.value.Count(ClueCell());
    mosaic.CountInWindow(sub.value, x, y, ClueCell(), HasClue());
    b := n != 0;
  }

  /** clue -> clue.getClue() >= 0 on a grid element (no element of a valid mosaic is null). */
  function ClueCell(): Option<Clue> -> bool
  {
    (d: Option<Clue>) => d.Some? && d.value.clue >= 0
  }

  class SolveAlgorithm {
    const mosaic: Mosaic
    var state: State
    var singleStateListeners: map<State, seq<Handler>>
    var allStateListeners: seq<Handler>
    var handlers: map<Slot, Handler>
    var stateChangeHandler: Option<Handler>
    /** The handlers called so far, in call order. */
    var fired: seq<Handler>

    /** A solver with no listeners, in state INITIALIZING. */
    constructor (mosaic: Mosaic)
      ensures this.mosaic == mosaic && state == Initializing
      ensures singleStateListeners == map[] && allStateListeners == [] && handlers == map[]
      ensures stateChangeHandler == None && fired == []
    {
      this.mosaic := mosaic;
      state := Initializing;
      singleStateListeners, allStateListeners, handlers := map[], [], map[];
      stateChangeHandler, fired := None, [];
    }

    /** setState(s): nothing happens when s is the current state; otherwise the state becomes s and
        the listeners are called in dispatch order. The listener registrations do not change. */
    method SetState(s: State)
      modifies this
      ensures state == s
      ensures fired == old(fired) + if old(state) == s then [] else
        Dispatch(allStateListeners, singleStateListeners, stateChangeHandler, handlers, old(state), s)
      ensures singleStateListeners == old(singleStateListeners) && allStateListeners == old(allStateListeners)
      ensures handlers == old(handlers) && stateChangeHandler == old(stateChangeHandler)
    {
      if state == s {
        return;
      }
      fired := fired + Dispatch(allStateListeners, singleStateListeners, stateChangeHandler, handlers, state, s);
      state := s;
    }

    /** addStateListener(state, handler): appended to that state's list, which is made if missing. */
    method AddStateListener(s: State, h: Handler)
      modifies this
      ensures singleStateListeners == old(singleStateListeners)[s := ListenersFor(old(singleStateListeners), s) + [h]]
      ensures state == old(state) && allStateListeners == old(allStateListeners) && fired == old(fired)
      ensures handlers == old(handlers) && stateChangeHandler == old(stateChangeHandler)
    {
      singleStateListeners := singleStateListeners[s := ListenersFor(singleStateListeners, s) + [h]];
    }

    /** removeStateListener(state, handler): the first registration of the handler for that state
        is dropped, and a state left without listeners loses its entry. */
    method RemoveStateListener(s: State, h: Handler)
      modifies this
      ensures s !in old(singleStateListeners) ==> singleStateListeners == old(singleStateListeners)
      ensures s in old(singleStateListeners) && RemoveFirst(old(singleStateListeners)[s], h) == [] ==>
        singleStateListeners == old(singleStateListeners) - {s}
      ensures s in old(singleStateListeners) && RemoveFirst(old(singleStateListeners)[s], h) != [] ==>
        singleStateListeners == old(singleStateListeners)[s := RemoveFirst(old(singleStateListeners)[s], h)]
      ensures state == old(state) && allStateListeners == old(allStateListeners) && fired == old(fired)
      ensures handlers == old(handlers) && stateChangeHandler == old(stateChangeHandler)
    {
      if s !in singleStateListeners {
        return;
      }
      var listeners := RemoveFirst(singleStateListeners[s], h);
      if listeners == [] {
        singleStateListeners := singleStateListeners - {s};
      } else {
        singleStateListeners := singleStateListeners[s := listeners];
      }
    }

    /** addStateListener(handler): a listener for every state change. */
    method AddAllStateListener(h: Handler)
      modifies this
      ensures allStateListeners == old(allStateListeners) + [h]
      ensures state == old(state) && singleStateListeners == old(singleStateListeners) && fired == old(fired)
      ensures handlers == old(handlers) && stateChangeHandler == old(stateChangeHandler)
    {
      allStateListeners := allStateListeners + [h];
    }

    /** removeStateListener(handler): the first registration of the handler is dropped. */
    method RemoveAllStateListener(h: Handler)
      modifies this
      ensures allStateListeners == RemoveFirst(old(allStateListeners), h)
      ensures state == old(state) && singleStateListeners == old(singleStateListeners) && fired == old(fired)
      ensures handlers == old(handlers) && stateChangeHandler == old(stateChangeHandler)
    {
      allStateListeners := RemoveFirst(allStateListeners, h);
    }

    /** onStart(handler) ... onFail(handler): sets, or with null clears, one state-specific handler. */
    method SetHandler(slot: Slot, h: Option<Handler>)
      modifies this
      ensures handlers == if h.Some? then old(handlers)[slot := h.value] else old(handlers) - {slot}
      ensures state == old(state) && singleStateListeners == old(singleStateListeners) && fired == old(fired)
      ensures allStateListeners == old(allStateListeners) && stateChangeHandler == old(stateChangeHandler)
    {
      if h.Some? {
        handlers := handlers[slot := h.value];
      } else {
        handlers := handlers - {slot};
      }
    }

    /** onStateChange(handler). */
    method OnStateChange(h: Option<Handler>)
      modifies this
      ensures stateChangeHandler == h
      ensures state == old(state) && singleStateListeners == old(singleStateListeners) && fired == old(fired)
      ensures allStateListeners == old(allStateListeners) && handlers == old(handlers)
    {
      stateChangeHandler := h;
    }
  }

  /** new AbstractSolveAlgorithm(mosaic, checkNoClue): a solver in state INITIALIZING; with the check
      on, a mosaic with a cell whose window holds no clue is refused with NoClueException at the
      first such cell in row-major order (after the solver has set itself FAILED). The mosaic is
      only read. */
  method Create(mosaic: Mosaic, checkNoClue: bool) returns (r: Result<SolveAlgorithm, SolveError>)
    requires mosaic.Valid()
    ensures var first := FirstUnclued(mosaic.Cells(), mosaic.grid.width, mosaic.grid.height, 0);
      && (r.Failure? <==> checkNoClue && first.Some?)
      && (r.Failure? ==> r.error == NoClue(mosaic.Cells(), XOf(first.value, mosaic.grid.width), YOf(first.value, mosaic.grid.width)))
    ensures r.Success? ==> fresh(r.value) && r.value.mosaic == mosaic && r.value.state == Initializing && r.value.fired == []
  {
    ghost var cells := mosaic.Cells();
    var a := new SolveAlgorithm(mosaic);
    assert mosaic.Valid() && mosaic.Cells() == cells;
    if checkNoClue {
      var first := FindUnclued(mosaic);
      if first.Some? {
        a.SetState(Failed);
        assert mosaic.Valid() && mosaic.Cells() == cells;
        var x, y := mosaic.grid.ToX(first.value).value, mosaic.grid.ToY(first.value).value;
        var board := mosaic.Board();
        return Failure(NoClue(board, x, y));
      }
    }
    r := Success(a);
  }
}
