/** MazeSolver.getSolution: walk the parent links back from the end cell
    onto a stack, then pop the stack into a list that runs from the start
    cell to the end cell. */
module Paths {
  import opened Grid

  /** The ways a solve can fail. In the source these are exceptions or a
      loop that never ends: EmptyFrontier is the EmptyStackException of the
      depth-first pop, MissingParent the NullPointerException of the backward
      walk, EndlessWalk a backward walk caught in a cycle of parent links. */
  datatype Failure = EmptyFrontier | MissingParent | EndlessWalk

  datatype Result<T> = Ok(value: T) | Err(error: Failure)

  /** Where the backward walk stops. As written (`exact` false) the walk
      stops at a cell that shares the start's row OR its column; the
      corrected walk (`exact` true) stops only at the start cell itself. */
  predicate Stops(start: Coord, c: Coord, exact: bool)
  {
    if exact then c == start else c.row == start.row || c.col == start.col
  }

  /** The outcome of a backward walk: the cells pushed, from the first to
      the stopping cell; a missing parent link; or the cap reached. */
  datatype Walk = Reached(trail: seq<Coord>) | Broken | Unfinished

  /** The walk is allowed one link per cell of the grid (see CapSuffices). */
  function Cap(m: Maze): nat
  {
    m.rows * m.cols
  }

  /** The backward walk at cell `c`, with `done` already pushed and at most
      `fuel` more parent links to follow. */
  function Backtrack(m: Maze, done: seq<Coord>, c: Coord, fuel: nat, exact: bool): Walk
    reads m.parent
    requires m.Valid() && m.InBounds(c)
    decreases fuel
  {
    if Stops(m.start, c, exact) then Reached(done + [c])
    else if fuel == 0 then Unfinished
    else match m.Link(c)
      case None => Broken
      case Some(p) => Backtrack(m, done + [c], p, fuel - 1, exact)
  }

  /** A completed walk extends what was already pushed with `c` and then
      follows parent links through cells of the grid; it ends at the first
      cell that meets the stop test. */
  lemma {:induction false} TrailFollowsLinks(m: Maze, done: seq<Coord>, c: Coord, fuel: nat, exact: bool)
    requires m.Valid() && m.InBounds(c) && Backtrack(m, done, c, fuel, exact).Reached?
    ensures var t := Backtrack(m, done, c, fuel, exact).trail;
      && |done| < |t| <= |done| + fuel + 1 && t[..|done|] == done && t[|done|] == c
      && Stops(m.start, t[|t| - 1], exact)
      && (forall i :: |done| <= i < |t| ==> m.InBounds(t[i]))
      && (forall i :: |done| <= i < |t| - 1 ==> !Stops(m.start, t[i], exact) && m.Link(t[i]) == Some(t[i + 1]))
    decreases fuel
  {
    if !Stops(m.start, c, exact) {
      var p := m.Link(c).value;
      TrailFollowsLinks(m, done + [c], p, fuel - 1, exact);
      var t := Backtrack(m, done, c, fuel, exact).trail;
      assert t[..|done| + 1] == done + [c];
      assert t[..|done|] == (done + [c])[..|done|];
    }
  }

  /** The order in which a stack holding `s` (top last) is popped. */
  function Reverse(s: seq<Coord>): (r: seq<Coord>)
    ensures |r| == |s|
  {
    if s == [] then [] else [s[|s| - 1]] + Reverse(s[..|s| - 1])
  }

  lemma {:induction false} ReverseAt(s: seq<Coord>)
    ensures forall i :: 0 <= i < |s| ==> Reverse(s)[i] == s[|s| - 1 - i]
  {
    if s != [] {
      ReverseAt(s[..|s| - 1]);
    }
  }

  /** What getSolution returns: the walk from the end cell, then the start
      cell pushed once more, all popped into a list. */
  function Solution(m: Maze): Result<seq<Coord>>
    reads m.parent
    requires m.Valid()
  {
    match Backtrack(m, [], m.end, Cap(m), false)
    case Reached(t) => Ok(Reverse(t + [m.start]))
    case Broken => Err(MissingParent)
    case Unfinished => Err(EndlessWalk)
  }

  /** The corrected reconstruction: stop only at the start cell itself, and
      do not push it a second time. */
  function ExactSolution(m: Maze): Result<seq<Coord>>
    reads m.parent
    requires m.Valid()
  {
    match Backtrack(m, [], m.end, Cap(m), true)
    case Reached(t) => Ok(Reverse(t))
    case Broken => Err(MissingParent)
    case Unfinished => Err(EndlessWalk)
  }

  /** Empties a stack (top last) into a list. */
  method PopAll(stack: seq<Coord>) returns (list: seq<Coord>)
    ensures list == Reverse(stack)
  {
    var path := stack;
    list := [];
    while path != []
      invariant |list| + |path| == |stack| && path == stack[..|path|]
      invariant forall i :: 0 <= i < |list| ==> list[i] == stack[|stack| - 1 - i]
    {
      list := list + [path[|path| - 1]];
      path := path[..|path| - 1];
    }
    ReverseAt(stack);
  }

  /** getSolution. The loop pushes the end cell and then each parent while
      the current cell shares neither row nor column with the start; then the
      start is pushed and the stack is popped into the list. */
  method GetSolution(m: Maze) returns (r: Result<seq<Coord>>)
    requires m.Valid()
    ensures r == Solution(m)
  {
    var path := [m.end];
    var cur := m.end;
    ghost var done: seq<Coord> := [];
    var fuel: nat := Cap(m);
    while cur.row != m.start.row && cur.col != m.start.col
      invariant m.InBounds(cur) && path == done + [cur]
      invariant Backtrack(m, done, cur, fuel, false) == Backtrack(m, [], m.end, Cap(m), false)
      decreases fuel
    {
      if fuel == 0 {
        return Err(EndlessWalk);
      }
      match m.parent[cur.row, cur.col]
      case None =>
        return Err(MissingParent);
      case Some(p) =>
        done := done + [cur];
        path := path + [p];
        cur := p;
        fuel := fuel - 1;
    }
    path := path + [m.start];
    var solution := PopAll(path);
    r := Ok(solution);
  }

  /** The list runs from the start cell to the end cell. */
  lemma SolutionEnds(m: Maze)
    requires m.Valid() && Solution(m).Ok?
    ensures var p := Solution(m).value;
      |p| >= 2 && p[0] == m.start && p[|p| - 1] == m.end
  {
    TrailFollowsLinks(m, [], m.end, Cap(m), false);
    ReverseAt(Backtrack(m, [], m.end, Cap(m), false).trail + [m.start]);
  }

  /** After the appended start, the list is the parent chain reversed: each
      cell is the parent of the next. The second cell is the first cell,
      counting back from the end, that shares the start's row or column, and
      no later cell does. */
  lemma SolutionFollowsLinks(m: Maze)
    requires m.Valid() && Solution(m).Ok?
    ensures var p := Solution(m).value;
      && |p| >= 2
      && (forall i :: 1 <= i < |p| ==> m.InBounds(p[i]))
      && Stops(m.start, p[1], false)
      && (forall i :: 2 <= i < |p| ==> !Stops(m.start, p[i], false))
      && (forall i :: 1 <= i < |p| - 1 ==> m.Link(p[i + 1]) == Some(p[i]))
  {
    var t := Backtrack(m, [], m.end, Cap(m), false).trail;
    TrailFollowsLinks(m, [], m.end, Cap(m), false);
    var s := t + [m.start];
    ReverseAt(s);
    var p := Solution(m).value;
    forall i | 1 <= i < |p| - 1
      ensures m.Link(p[i + 1]) == Some(p[i])
    {
      assert p[i + 1] == t[|t| - 1 - i] && p[i] == t[|t| - i];
    }
  }

  /** An end cell in the start's row or column gives exactly [start, end]. */
  lemma SharedLineSolution(m: Maze)
    requires m.Valid() && Stops(m.start, m.end, false)
    ensures Solution(m) == Ok([m.start, m.end])
  {
    assert [] + [m.end] == [m.end];
    assert Backtrack(m, [], m.end, Cap(m), false) == Reached([m.end]);
    assert [m.end] + [m.start] == [m.end, m.start];
    ReverseAt([m.end, m.start]);
    assert Reverse([m.end, m.start]) == [m.start, m.end];
  }

  /** An end cell off the start's row and column with no parent makes the
      walk dereference a missing parent. */
  lemma UnlinkedEndFails(m: Maze)
    requires m.Valid() && !Stops(m.start, m.end, false) && m.Link(m.end).None?
    ensures Solution(m) == Err(MissingParent)
  {
  }

  ghost function Follow(m: Maze, c: Coord, k: nat): seq<Coord>
    reads m.parent
    requires m.Valid() && m.InBounds(c)
    decreases k
  {
    if k == 0 then [c]
    else match m.Link(c)
      case None => [c]
      case Some(p) => [c] + Follow(m, p, k - 1)
  }

  /** A walk that runs out of fuel has passed fuel + 1 cells, none of which
      stops it, each linked to the next. */
  lemma {:induction false} UnfinishedFollows(m: Maze, done: seq<Coord>, c: Coord, k: nat, exact: bool)
    requires m.Valid() && m.InBounds(c) && Backtrack(m, done, c, k, exact).Unfinished?
    ensures var w := Follow(m, c, k);
      && |w| == k + 1 && w[0] == c
      && (forall i :: 0 <= i < |w| ==> m.InBounds(w[i]) && !Stops(m.start, w[i], exact))
      && (forall i :: 0 <= i < |w| - 1 ==> m.Link(w[i]) == Some(w[i + 1]))
    decreases k
  {
    if k > 0 {
      var p := m.Link(c).value;
      UnfinishedFollows(m, done + [c], p, k - 1, exact);
    }
  }

  /** A walk inside a set of cells that never stop and always link back into
      the set never ends. */
  lemma {:induction false} StaysUnfinished(m: Maze, cells: set<Coord>, done: seq<Coord>, c: Coord, fuel: nat, exact: bool)
    requires m.Valid() && c in cells
    requires forall x :: x in cells ==> m.InBounds(x) && !Stops(m.start, x, exact) && m.Link(x).Some? && m.Link(x).value in cells
    ensures Backtrack(m, done, c, fuel, exact).Unfinished?
    decreases fuel
  {
    if fuel > 0 {
      StaysUnfinished(m, cells, done + [c], m.Link(c).value, fuel - 1, exact);
    }
  }

  /** Capping the walk at one link per grid cell loses nothing: a walk that
      has not stopped within the cap has entered a cycle of parent links and
      would never stop, however much further it were allowed to go. */
  lemma CapSuffices(m: Maze, c: Coord, exact: bool)
    requires m.Valid() && m.InBounds(c)
    requires Backtrack(m, [], c, Cap(m), exact).Unfinished?
    ensures forall done, fuel :: Backtrack(m, done, c, fuel, exact).Unfinished?
  {
    var w := Follow(m, c, Cap(m));
    UnfinishedFollows(m, [], c, Cap(m), exact);
    DistinctPairs(w);
    if Distinct(w) {
      DistinctCellsBound(m.rows, m.cols, w);
      assert false;
    }
    var i, j :| 0 <= i < j < |w| && w[i] == w[j];
    var cells := set k | 0 <= k < j :: w[k];
    forall x | x in cells
      ensures m.InBounds(x) && !Stops(m.start, x, exact) && m.Link(x).Some? && m.Link(x).value in cells
    {
      var k :| 0 <= k < j && w[k] == x;
      assert m.Link(x) == Some(w[k + 1]);
      if k + 1 < j {
        assert w[k + 1] in cells;
      } else {
        assert w[i] in cells;
      }
    }
    assert w[0] in cells;
    forall done, fuel
      ensures Backtrack(m, done, c, fuel, exact).Unfinished?
    {
      StaysUnfinished(m, cells, done, c, fuel, exact);
    }
  }

  /** EndlessWalk is reported only where getSolution's loop would never
      end. */
  lemma EndlessWalkNeverStops(m: Maze)
    requires m.Valid() && Solution(m) == Err(EndlessWalk)
    ensures forall fuel :: Backtrack(m, [], m.end, fuel, false).Unfinished?
  {
    CapSuffices(m, m.end, false);
  }

  /** As written, a start cell that is also the end cell is listed twice. */
  lemma StartIsEndTwice(m: Maze)
    requires m.Valid() && m.end == m.start
    ensures Solution(m) == Ok([m.start, m.start])
  {
    SharedLineSolution(m);
  }

  /** As written, the walk stops at the first cell in the start's row or
      column, so cells between it and the start are dropped and the list
      steps between cells that are not adjacent. On a 3 by 3 grid from (0,0)
      to (2,2), with the links (2,2) -> (1,2) -> (0,2) that a breadth-first
      search leaves, the list jumps from (0,0) straight to (0,2). */
  lemma OrStopSkipsCells(m: Maze)
    requires m.Valid() && m.rows == 3 && m.cols == 3
    requires m.start == Coord(0, 0) && m.end == Coord(2, 2)
    requires m.Link(Coord(2, 2)) == Some(Coord(1, 2)) && m.Link(Coord(1, 2)) == Some(Coord(0, 2))
    ensures Solution(m) == Ok([Coord(0, 0), Coord(0, 2), Coord(1, 2), Coord(2, 2)])
    ensures !Adjacent(Coord(0, 0), Coord(0, 2))
  {
    var t := [Coord(2, 2), Coord(1, 2), Coord(0, 2)];
    assert Cap(m) == 9;
    assert [] + [t[0]] == t[..1] && t[..1] + [t[1]] == t[..2] && t[..2] + [t[2]] == t;
    assert Backtrack(m, t[..2], Coord(0, 2), 7, false) == Reached(t);
    assert Backtrack(m, t[..1], Coord(1, 2), 8, false) == Reached(t);
    assert Backtrack(m, [], m.end, Cap(m), false) == Reached(t);
    ReverseAt(t + [m.start]);
    assert Reverse(t + [m.start]) == [Coord(0, 0), Coord(0, 2), Coord(1, 2), Coord(2, 2)];
  }

  /** The corrected list starts at the start cell, ends at the end cell,
      names the start cell only once, and each cell is the parent of the
      next. */
  lemma ExactSolutionFollowsLinks(m: Maze)
    requires m.Valid() && ExactSolution(m).Ok?
    ensures var p := ExactSolution(m).value;
      && |p| >= 1 && p[0] == m.start && p[|p| - 1] == m.end
      && (forall i :: 0 <= i < |p| ==> m.InBounds(p[i]))
      && (forall i :: 0 < i < |p| ==> p[i] != m.start)
      && (forall i :: 0 <= i < |p| - 1 ==> m.Link(p[i + 1]) == Some(p[i]))
  {
    var t := Backtrack(m, [], m.end, Cap(m), true).trail;
    TrailFollowsLinks(m, [], m.end, Cap(m), true);
    ReverseAt(t);
    var p := ExactSolution(m).value;
    forall i | 0 <= i < |p| - 1
      ensures m.Link(p[i + 1]) == Some(p[i])
    {
      assert p[i + 1] == t[|t| - 2 - i] && p[i] == t[|t| - 1 - i];
    }
  }

  /** Corrected, a start cell that is also the end cell is listed once. */
  lemma ExactStartIsEnd(m: Maze)
    requires m.Valid() && m.end == m.start
    ensures ExactSolution(m) == Ok([m.start])
  {
    assert [] + [m.end] == [m.end];
    assert Backtrack(m, [], m.end, Cap(m), true) == Reached([m.end]);
    ReverseAt([m.end]);
    assert Reverse([m.end]) == [m.start];
  }

  /** Corrected, the 3 by 3 example keeps every cell of the parent chain. */
  lemma ExactKeepsEveryCell(m: Maze)
    requires m.Valid() && m.rows == 3 && m.cols == 3
    requires m.start == Coord(0, 0) && m.end == Coord(2, 2)
    requires m.Link(Coord(2, 2)) == Some(Coord(1, 2)) && m.Link(Coord(1, 2)) == Some(Coord(0, 2))
    requires m.Link(Coord(0, 2)) == Some(Coord(0, 1)) && m.Link(Coord(0, 1)) == Some(Coord(0, 0))
    ensures ExactSolution(m) == Ok([Coord(0, 0), Coord(0, 1), Coord(0, 2), Coord(1, 2), Coord(2, 2)])
  {
    var t := [Coord(2, 2), Coord(1, 2), Coord(0, 2), Coord(0, 1), Coord(0, 0)];
    assert Cap(m) == 9;
    assert [] + [t[0]] == t[..1] && t[..1] + [t[1]] == t[..2] && t[..2] + [t[2]] == t[..3];
    assert t[..3] + [t[3]] == t[..4] && t[..4] + [t[4]] == t;
    assert Backtrack(m, t[..4], Coord(0, 0), 5, true) == Reached(t);
    assert Backtrack(m, t[..3], Coord(0, 1), 6, true) == Reached(t);
    assert Backtrack(m, t[..2], Coord(0, 2), 7, true) == Reached(t);
    assert Backtrack(m, t[..1], Coord(1, 2), 8, true) == Reached(t);
    assert Backtrack(m, [], m.end, Cap(m), true) == Reached(t);
    ReverseAt(t);
    assert Reverse(t) == [Coord(0, 0), Coord(0, 1), Coord(0, 2), Coord(1, 2), Coord(2, 2)];
  }
}
