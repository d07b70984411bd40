/**
 * The worklist of RecursionSolver: the Coordinates of the clues still to be visited, walked by an
 * ArrayList ListIterator, and the loopback list of clues to revisit after a change
 * (RecursionSolver.java, takeStepImpl and endIteration).
 *
 * A Coordinates object is known by its identity: a node keeps its coordinate objects in a table,
 * and its lists hold indices into that table, so setting `solved` through one list is seen through
 * every other.
 */
module Worklists {
  import opened Wrappers

  /** RecursionSolver.Coordinates: a clue position and the flag saying its window is decided. */
  datatype Coord = Coord(x: nat, y: nat, solved: bool)

  /** The state of an ArrayList ListIterator: the index next() returns, and the index of the element
      last returned by next() or previous() (-1 when there is none, as after remove()). */
  datatype Cursor = Cursor(cursor: nat, lastRet: int)

  /** Every entry is an index into a table of n coordinates. */
  predicate Ids(ids: seq<nat>, n: nat)
  {
    forall k :: 0 <= k < |ids| ==> ids[k] < n
  }

  /** The first position at or after `from` whose coordinate is not solved, |ids| when there is none. */
  function FirstUnsolved(coords: seq<Coord>, ids: seq<nat>, from: nat): (j: nat)
    requires Ids(ids, |coords|) && from <= |ids|
    ensures from <= j <= |ids|
    ensures forall q :: from <= q < j ==> coords[ids[q]].solved
    ensures j < |ids| ==> !coords[ids[j]].solved
    decreases |ids| - from
  {
    if from == |ids| || !coords[ids[from]].solved then from else FirstUnsolved(coords, ids, from + 1)
  }

  /** endIteration's loop that removes solved coordinates from the head of the worklist: what is
      left starts at the first unsolved one. */
  method DropSolved(coords: seq<Coord>, ids: seq<nat>) returns (rest: seq<nat>)
    requires Ids(ids, |coords|)
    ensures rest == ids[FirstUnsolved(coords, ids, 0)..]
  {
    rest := ids;
    ghost var j := 0;
    while rest != []
      invariant j <= |ids| && rest == ids[j..]
      invariant FirstUnsolved(coords, ids, j) == FirstUnsolved(coords, ids, 0)
      decreases |rest|
    {
      if !coords[rest[0]].solved {
        break;
      }
      rest := rest[1..];
      j := j + 1;
    }
  }

  /** ArrayList.remove(int): the entry at i dropped. */
  function RemoveAt(s: seq<nat>, i: nat): (r: seq<nat>)
    requires i < |s|
    ensures |r| == |s| - 1
    ensures forall k :: 0 <= k < i ==> r[k] == s[k]
    ensures forall k :: i <= k < |r| ==> r[k] == s[k + 1]
  {
    s[..i] + s[i + 1..]
  }

  // ---------------------------------------------------------------------------------------------
  // Picking the next clue

  /** A coordinate taken from the loopback list (if any) and what remains of the list. */
  datatype Taken = Taken(pick: Option<nat>, rest: seq<nat>)

  /** The loop that empties the loopback list up to its first unsolved coordinate. */
  function Drain(coords: seq<Coord>, lb: seq<nat>): Taken
    requires Ids(lb, |coords|)
  {
    var j := FirstUnsolved(coords, lb, 0);
    if j < |lb| then Taken(Some(lb[j]), lb[j + 1..]) else Taken(None, [])
  }

  /** while (!loopbackClues.isEmpty()): remove the head, and stop at the first one not solved. */
  method DrainLoopback(coords: seq<Coord>, lb: seq<nat>) returns (t: Taken)
    requires Ids(lb, |coords|)
    ensures t == Drain(coords, lb)
  {
    var rest := lb;
    ghost var i := 0;
    while rest != []
      invariant 0 <= i <= FirstUnsolved(coords, lb, 0) && rest == lb[i..]
      decreases |rest|
    {
      var id := rest[0];
      rest := rest[1..];
      if !coords[id].solved {
        return Taken(Some(id), rest);
      }
      i := i + 1;
    }
    t := Taken(None, []);
  }

  /** The coordinate the iterator stops at (if any), the worklist after the solved ones it passed
      were removed, and the iterator afterwards. */
  datatype Scanned = Scanned(pick: Option<nat>, clues: seq<nat>, it: Cursor)

  /** The loop over the iterator: every solved coordinate it passes is removed from the worklist,
      and it stops just after the first unsolved one. */
  function Scan(coords: seq<Coord>, clues: seq<nat>, it: Cursor): Scanned
    requires Ids(clues, |coords|) && it.cursor <= |clues|
  {
    var cur := it.cursor;
    var j := FirstUnsolved(coords, clues, cur);
    var rest := clues[..cur] + clues[j..];
    if j < |clues| then Scanned(Some(clues[j]), rest, Cursor(cur + 1, cur))
    else Scanned(None, rest, Cursor(cur, if j > cur then -1 else it.lastRet))
  }

  /** while (iterator.hasNext()): next(), stop if not solved, else iterator.remove(). */
  method ScanIterator(coords: seq<Coord>, clues: seq<nat>, it: Cursor) returns (s: Scanned)
    requires Ids(clues, |coords|) && it.cursor <= |clues|
    ensures s == Scan(coords, clues, it)
  {
    var list, cursor, lastRet := clues, it.cursor, it.lastRet;
    ghost var j := it.cursor;
    while cursor < |list|
      invariant it.cursor <= j <= FirstUnsolved(coords, clues, it.cursor)
      invariant cursor == it.cursor && list == clues[..cursor] + clues[j..]
      invariant lastRet == if j > it.cursor then -1 else it.lastRet
      decreases |list| - cursor
    {
      var id := list[cursor];
      assert id == clues[j];
      lastRet := cursor;
      cursor := cursor + 1;
      if !coords[id].solved {
        return Scanned(Some(id), list, Cursor(cursor, lastRet));
      }
      RemoveSkipped(clues, lastRet, j);
      list := RemoveAt(list, lastRet);
      cursor, lastRet := lastRet, -1;
      j := j + 1;
    }
    s := Scanned(None, list, Cursor(cursor, lastRet));
  }

  /** Removing the entry at the cursor from a worklist whose entries cursor .. j - 1 are already gone. */
  lemma RemoveSkipped(clues: seq<nat>, cursor: nat, j: nat)
    requires cursor <= j < |clues|
    ensures RemoveAt(clues[..cursor] + clues[j..], cursor) == clues[..cursor] + clues[j + 1..]
  {
    var list := clues[..cursor] + clues[j..];
    assert list[..cursor] == clues[..cursor];
    assert list[cursor + 1..] == clues[j + 1..];
  }

  /** Scanning keeps the worklist's order and every unsolved coordinate in it: the entries before the
      cursor stay, and only solved ones are removed after it. */
  lemma ScanKeepsUnsolved(coords: seq<Coord>, clues: seq<nat>, it: Cursor)
    requires Ids(clues, |coords|) && it.cursor <= |clues| && -1 <= it.lastRet < |clues|
    ensures var s := Scan(coords, clues, it);
      && Ids(s.clues, |coords|) && s.it.cursor <= |s.clues| && -1 <= s.it.lastRet < |s.clues|
      && s.clues[..it.cursor] == clues[..it.cursor]
      && (forall k :: 0 <= k < |clues| && !coords[clues[k]].solved ==> clues[k] in s.clues)
      && (s.pick.Some? ==> s.clues[it.cursor] == s.pick.value && !coords[s.pick.value].solved)
  {
    var s := Scan(coords, clues, it);
    var cur := it.cursor;
    var j := FirstUnsolved(coords, clues, cur);
    assert s.clues == clues[..cur] + clues[j..];
    forall k | 0 <= k < |clues| && !coords[clues[k]].solved
      ensures clues[k] in s.clues
    {
      if k < cur {
        assert s.clues[k] == clues[k];
      } else {
        assert k >= j;
        assert s.clues[cur + k - j] == clues[k];
      }
    }
  }

  // ---------------------------------------------------------------------------------------------
  // Loopback: after a change at c, rewind the iterator and queue the clues near c again

  /** The rewind stops at a coordinate two rows above c and more than two columns to its left, or
      at any coordinate more than two rows above. */
  predicate Far(p: Coord, c: Coord)
  {
    (p.y == c.y - 2 && p.x < c.x - 2) || p.y < c.y - 2
  }

  /** The cursor after while (hasPrevious()) { previous(); if far, break }: the position of the first
      far coordinate met going back from cur, or 0. */
  function RewindTo(coords: seq<Coord>, clues: seq<nat>, c: Coord, cur: nat): (r: nat)
    requires Ids(clues, |coords|) && cur <= |clues|
    ensures r <= cur && (cur > 0 ==> r < cur)
    ensures forall q :: r < q < cur ==> !Far(coords[clues[q]], c)
    ensures 0 < r ==> Far(coords[clues[r]], c)
  {
    if cur == 0 then 0
    else if Far(coords[clues[cur - 1]], c) then cur - 1
    else RewindTo(coords, clues, c, cur - 1)
  }

  /** The first loop of the loopback block: previous() until a far coordinate, counting the moves. */
  method Rewind(coords: seq<Coord>, clues: seq<nat>, c: Coord, cur: nat) returns (cursor: nat, previousCount: nat)
    requires Ids(clues, |coords|) && cur <= |clues|
    ensures cursor == RewindTo(coords, clues, c, cur) && previousCount == cur - cursor
  {
    cursor, previousCount := cur, 0;
    while cursor > 0
      invariant cursor + previousCount == cur
      invariant RewindTo(coords, clues, c, cur) == RewindTo(coords, clues, c, cursor)
    {
      cursor := cursor - 1;
      previousCount := previousCount + 1;
      if Far(coords[clues[cursor]], c) {
        return;
      }
    }
  }

  /** Within two rows and two columns of c. */
  predicate WithinTwo(p: Coord, c: Coord)
  {
    c.x - 2 <= p.x <= c.x + 2 && c.y - 2 <= p.y <= c.y + 2
  }

  /** At or beyond c in both directions: where the forward loop stops. */
  predicate Beyond(p: Coord, c: Coord)
  {
    p.x >= c.x && p.y >= c.y
  }

  /** The coordinates of ids within two rows and columns of coordinate c, other than c itself, in order. */
  function Nearby(coords: seq<Coord>, ids: seq<nat>, c: nat): (s: seq<nat>)
    requires Ids(ids, |coords|) && c < |coords|
    ensures |s| <= |ids| && Ids(s, |coords|)
    ensures forall k :: 0 <= k < |s| ==> s[k] != c && WithinTwo(coords[s[k]], coords[c])
  {
    if ids == [] then []
    else
      var rest := Nearby(coords, ids[1..], c);
      if ids[0] != c && WithinTwo(coords[ids[0]], coords[c]) then [ids[0]] + rest else rest
  }

  /** Nothing near c is left out. */
  lemma {:induction false} NearbyComplete(coords: seq<Coord>, ids: seq<nat>, c: nat, k: nat)
    requires Ids(ids, |coords|) && c < |coords| && k < |ids|
    requires ids[k] != c && WithinTwo(coords[ids[k]], coords[c])
    ensures ids[k] in Nearby(coords, ids, c)
  {
    if k > 0 {
      assert ids[1..][k - 1] == ids[k];
      NearbyComplete(coords, ids[1..], c, k - 1);
    }
  }

  /** The cursor after the forward loop, and the coordinates it queued for loopback. */
  datatype Refilled = Refilled(cursor: nat, added: seq<nat>)

  /** The second loop of the loopback block, from start with count moves left: next(), queue the
      coordinate if it is near c and not c, stop once a coordinate at or beyond c is passed. */
  function Refill(coords: seq<Coord>, clues: seq<nat>, c: nat, start: nat, count: nat): (f: Refilled)
    requires Ids(clues, |coords|) && c < |coords| && start + count <= |clues|
    ensures start <= f.cursor <= start + count && (count > 0 ==> start < f.cursor)
    ensures f.added == Nearby(coords, clues[start..f.cursor], c)
    ensures forall q :: start <= q < f.cursor - 1 ==> !Beyond(coords[clues[q]], coords[c])
    ensures f.cursor < start + count ==> Beyond(coords[clues[f.cursor - 1]], coords[c])
    decreases count
  {
    if count == 0 then Refilled(start, [])
    else
      var id := clues[start];
      var add := if id != c && WithinTwo(coords[id], coords[c]) then [id] else [];
      if Beyond(coords[id], coords[c]) then
        NearbyFirst(coords, clues, c, start, start + 1);
        Refilled(start + 1, add)
      else
        var rest := Refill(coords, clues, c, start + 1, count - 1);
        NearbyFirst(coords, clues, c, start, rest.cursor);
        Refilled(rest.cursor, add + rest.added)
  }

  /** Nearby over clues[a..b] looks at clues[a] first. */
  lemma NearbyFirst(coords: seq<Coord>, clues: seq<nat>, c: nat, a: nat, b: nat)
    requires Ids(clues, |coords|) && c < |coords| && a < b <= |clues|
    ensures Nearby(coords, clues[a..b], c)
         == (if clues[a] != c && WithinTwo(coords[clues[a]], coords[c]) then [clues[a]] else [])
            + Nearby(coords, clues[a + 1..b], c)
  {
    assert clues[a..b][1..] == clues[a + 1..b];
    assert clues[a..b][0] == clues[a];
  }

  /** One move of the forward loop. */
  lemma RefillStep(coords: seq<Coord>, clues: seq<nat>, c: nat, start: nat, count: nat)
    requires Ids(clues, |coords|) && c < |coords| && start + count <= |clues| && count > 0
    ensures var id := clues[start];
      var add := if id != c && WithinTwo(coords[id], coords[c]) then [id] else [];
      var rest := Refill(coords, clues, c, start + 1, count - 1);
      Refill(coords, clues, c, start, count)
        == if Beyond(coords[id], coords[c]) then Refilled(start + 1, add) else Refilled(rest.cursor, add + rest.added)
  {
  }

  /** The loop invariant of RefillLoop carried over one coordinate: the coordinate is queued when
      near c, and the walk stops after it when it is at or beyond c. */
  lemma RefillAdvance(coords: seq<Coord>, clues: seq<nat>, c: nat, cursor: nat, count: nat, added: seq<nat>, goal: Refilled)
    requires Ids(clues, |coords|) && c < |coords| && cursor + count <= |clues| && count > 0
    requires goal.cursor == Refill(coords, clues, c, cursor, count).cursor
    requires goal.added == added + Refill(coords, clues, c, cursor, count).added
    ensures var id := clues[cursor];
      var added' := if id != c && WithinTwo(coords[id], coords[c]) then added + [id] else added;
      if Beyond(coords[id], coords[c]) then goal == Refilled(cursor + 1, added')
      else (goal.cursor == Refill(coords, clues, c, cursor + 1, count - 1).cursor
            && goal.added == added' + Refill(coords, clues, c, cursor + 1, count - 1).added)
  {
    RefillStep(coords, clues, c, cursor, count);
    var id := clues[cursor];
    var add := if id != c && WithinTwo(coords[id], coords[c]) then [id] else [];
    var rest := Refill(coords, clues, c, cursor + 1, count - 1);
    assert (if id != c && WithinTwo(coords[id], coords[c]) then added + [id] else added) == added + add;
    if !Beyond(coords[id], coords[c]) {
      AppendAssoc(added, add, rest.added);
    }
  }

  lemma AppendAssoc(a: seq<nat>, b: seq<nat>, c: seq<nat>)
    ensures a + (b + c) == (a + b) + c
  {
  }

  /** while (previousCount > 0): next(), queue it when near c, stop once at or beyond c. */
  method RefillLoop(coords: seq<Coord>, clues: seq<nat>, c: nat, start: nat, previousCount: nat)
    returns (f: Refilled)
    requires Ids(clues, |coords|) && c < |coords| && start + previousCount <= |clues|
    ensures f == Refill(coords, clues, c, start, previousCount)
  {
    var cursor, count, added := start, previousCount, [];
    ghost var goal := Refill(coords, clues, c, start, previousCount);
    while count > 0
      invariant cursor + count == start + previousCount
      invariant goal.cursor == Refill(coords, clues, c, cursor, count).cursor
      invariant goal.added == added + Refill(coords, clues, c, cursor, count).added
    {
      var id := clues[cursor];
      RefillAdvance(coords, clues, c, cursor, count, added, goal);
      if id != c && WithinTwo(coords[id], coords[c]) {
        added := added + [id];
      }
      if Beyond(coords[id], coords[c]) {
        return Refilled(cursor + 1, added);
      }
      cursor, count := cursor + 1, count - 1;
    }
    f := Refilled(cursor, added);
  }

  // ---------------------------------------------------------------------------------------------
  // endIteration and the child constructor

  /** new RecursionSolver(mosaic, coordinates, ...): a fresh, unsolved Coordinates object for every
      coordinate of the list that is not solved, in list order. */
  function FreshCoords(coords: seq<Coord>, ids: seq<nat>): (r: seq<Coord>)
    requires Ids(ids, |coords|)
    ensures |r| <= |ids|
    ensures forall k :: 0 <= k < |r| ==> !r[k].solved
    ensures forall k :: 0 <= k < |r| ==> exists q :: 0 <= q < |ids| && r[k] == coords[ids[q]].(solved := false)
  {
    if ids == [] then []
    else
      var rest := FreshCoords(coords, ids[..|ids| - 1]);
      var last := coords[ids[|ids| - 1]];
      assert forall q :: 0 <= q < |ids| - 1 ==> ids[..|ids| - 1][q] == ids[q];
      if last.solved then rest else rest + [last.(solved := false)]
  }

  /** The constructor's loop over the coordinates it is given. */
  method CopyUnsolved(coords: seq<Coord>, ids: seq<nat>) returns (r: seq<Coord>)
    requires Ids(ids, |coords|)
    ensures r == FreshCoords(coords, ids)
  {
    r := [];
    for i := 0 to |ids|
      invariant r == FreshCoords(coords, ids[..i])
    {
      assert ids[..i + 1][..i] == ids[..i];
      var co := coords[ids[i]];
      if !co.solved {
        r := r + [Coord(co.x, co.y, false)];
      }
    }
    assert ids[..|ids|] == ids;
  }

  /** The indices 0 .. n - 1: the worklist of a node whose table holds n coordinates, in order. */
  function Span(from: nat, n: nat): (s: seq<nat>)
    ensures |s| == n && forall k :: 0 <= k < n ==> s[k] == from + k
  {
    seq(n, k requires 0 <= k < n => from + k)
  }
}
