/** The two searches of MazeSolver: a depth-first search driven by a stack
    and a breadth-first search driven by a queue. Both explore the four
    neighbours of the current cell in the order North, East, South, West,
    mark every cell they add to the frontier as explored, record parent
    links, and finally hand over to getSolution. */
module MazeSolver {
  import opened Grid
  import opened Paths

  /** The valid cells among the first `k` of `ns`, in the order of `ns`.
      Over the four neighbours of a cell, North, East, South and West, this
      is what one expansion of that cell adds to the frontier. */
  ghost function ValidAmong(m: Maze, ns: seq<Coord>, k: nat): seq<Coord>
    reads m.open, m.explored
    requires k <= |ns|
  {
    if k == 0 then []
    else ValidAmong(m, ns, k - 1) + if m.IsValidCell(ns[k - 1]) then [ns[k - 1]] else []
  }

  /** The filter keeps exactly the valid cells, and keeps distinct cells
      distinct. */
  lemma {:induction false} ValidAmongKeeps(m: Maze, ns: seq<Coord>, k: nat)
    requires k <= |ns|
    ensures forall x :: x in ValidAmong(m, ns, k) <==> x in ns[..k] && m.IsValidCell(x)
    ensures Distinct(ns[..k]) ==> Distinct(ValidAmong(m, ns, k))
  {
    if k > 0 {
      ValidAmongKeeps(m, ns, k - 1);
      assert ns[..k] == ns[..k - 1] + [ns[k - 1]];
      var before := ValidAmong(m, ns, k - 1);
      if Distinct(ns[..k]) {
        assert ns[..k][..k - 1] == ns[..k - 1];
        assert ns[..k][k - 1] == ns[k - 1];
        var after := ValidAmong(m, ns, k);
        if m.IsValidCell(ns[k - 1]) {
          assert after == before + [ns[k - 1]];
          assert after[..|after| - 1] == before;
          assert ns[k - 1] !in before;
        } else {
          assert after == before;
        }
      }
    }
  }

  /** The four neighbours of a cell are different cells. */
  lemma NeighbourIsNew(c: Coord, k: nat)
    requires k < 4
    ensures Neighbours(c)[k] !in Neighbours(c)[..k]
  {
  }

  /** One block of an expansion: if `nb` is a valid cell, link it to `cur`
      (breadth-first only) and mark it explored. Reports whether it was
      valid, for the caller to add it to the frontier. */
  method Discover(m: Maze, cur: Coord, nb: Coord, link: bool) returns (found: bool)
    requires m.Valid() && m.InBounds(cur)
    modifies m.explored, m.parent
    ensures m.Valid()
    ensures found == old(m.IsValidCell(nb))
    ensures forall c :: m.InBounds(c) ==> m.Explored(c) == (old(m.Explored(c)) || (found && c == nb))
    ensures !(link && found) ==> unchanged(m.parent)
    ensures link && found ==> forall c :: m.InBounds(c) ==> m.Link(c) == if c == nb then Some(cur) else old(m.Link(c))
  {
    found := m.IsValidCell(nb);
    if found {
      if link {
        m.parent[nb.row, nb.col] := Some(cur);
        assert forall c :: m.InBounds(c) ==> m.Link(c) == if c == nb then Some(cur) else old(m.Link(c));
      }
      m.explored[nb.row, nb.col] := true;
    }
  }

  /** The four blocks of an expansion of `cur`, North, East, South and West:
      each valid neighbour is linked to `cur` (breadth-first only), marked
      explored and collected, in that order. */
  method ExpandBlocks(m: Maze, cur: Coord, link: bool) returns (added: seq<Coord>)
    requires m.Valid() && m.InBounds(cur)
    modifies m.explored, m.parent
    ensures m.Valid()
    ensures added == old(ValidAmong(m, Neighbours(cur), 4))
    ensures forall c :: m.InBounds(c) ==> m.Explored(c) == (old(m.Explored(c)) || c in added)
    ensures !link ==> unchanged(m.parent)
    ensures link ==> forall c :: m.InBounds(c) ==> m.Link(c) == if c in added then Some(cur) else old(m.Link(c))
  {
    var n := Neighbours(cur);
    forall k | 0 <= k < 4
      ensures n[k] !in ValidAmong(m, n, k)
    {
      ValidAmongKeeps(m, n, k);
      NeighbourIsNew(cur, k);
    }
    added := [];
    for k := 0 to 4
      invariant m.Valid()
      invariant added == old(ValidAmong(m, n, k))
      invariant forall c :: m.InBounds(c) ==> m.Explored(c) == (old(m.Explored(c)) || c in added)
      invariant !link ==> unchanged(m.parent)
      invariant link ==> forall c :: m.InBounds(c) ==> m.Link(c) == if c in added then Some(cur) else old(m.Link(c))
    {
      var found := Discover(m, cur, n[k], link);
      if found {
        added := added + [n[k]];
      }
    }
  }

  /** The expansion of `cur`: the cells it collects are the valid
      neighbours of `cur` before it, in the order North, East, South, West;
      they are now explored, linked to `cur` when `link` is set, and nothing
      else changes. Afterwards no neighbour of `cur` is a valid cell, and no
      cell became valid. */
  method Expand(m: Maze, cur: Coord, link: bool) returns (added: seq<Coord>)
    requires m.Valid() && m.InBounds(cur)
    modifies m.explored, m.parent
    ensures m.Valid()
    ensures added == old(ValidAmong(m, Neighbours(cur), 4))
    ensures Distinct(added)
    ensures forall c :: c in added ==> Adjacent(cur, c) && m.InBounds(c) && m.Open(c) && !old(m.Explored(c))
    ensures forall c :: m.InBounds(c) ==> m.Explored(c) == (old(m.Explored(c)) || c in added)
    ensures !link ==> unchanged(m.parent)
    ensures link ==> forall c :: m.InBounds(c) ==> m.Link(c) == if c in added then Some(cur) else old(m.Link(c))
    ensures m.Settled(cur)
    ensures forall c :: m.IsValidCell(c) ==> old(m.IsValidCell(c))
    ensures forall c :: old(m.Settled(c)) ==> m.Settled(c)
  {
    var n := Neighbours(cur);
    ValidAmongKeeps(m, n, 4);
    assert n[..4] == n;
    assert Distinct(n) by {
      DistinctPairs(n);
      forall i, j | 0 <= i < j < 4
        ensures n[i] != n[j]
      {
        NeighbourIsNew(cur, j);
        assert n[i] in n[..j];
      }
    }
    added := ExpandBlocks(m, cur, link);
    forall i | 0 <= i < 4
      ensures !m.IsValidCell(n[i])
    {
      if m.InBounds(n[i]) && old(m.IsValidCell(n[i])) {
        assert n[i] in added;
      }
    }
    forall c | m.IsValidCell(c)
      ensures old(m.IsValidCell(c))
    {
      assert !old(m.Explored(c));
    }
    forall c | old(m.Settled(c))
      ensures m.Settled(c)
    {
      var nc := Neighbours(c);
      assert !m.IsValidCell(nc[0]) && !m.IsValidCell(nc[1]) && !m.IsValidCell(nc[2]) && !m.IsValidCell(nc[3]);
    }
  }

  /** `order` starts at the start cell, and every later cell in it is linked
      to a cell listed before it. */
  ghost predicate LinkedInOrder(m: Maze, order: seq<Coord>)
    reads m.parent
  {
    && |order| >= 1 && order[0] == m.start
    && (forall i :: 0 <= i < |order| ==> m.InBounds(order[i]))
    && (forall i :: 0 < i < |order| ==> m.Link(order[i]).Some? && m.Link(order[i]).value in order[..i])
  }

  /** The backward walk from a cell of such an order reaches a stopping cell
      within as many links as the cell's position. */
  lemma {:induction false} LinkedWalkReaches(m: Maze, order: seq<Coord>, i: nat, done: seq<Coord>, fuel: nat, exact: bool)
    requires m.Valid() && LinkedInOrder(m, order) && i < |order| && i <= fuel
    ensures Backtrack(m, done, order[i], fuel, exact).Reached?
    decreases i
  {
    if !Stops(m.start, order[i], exact) {
      var p := m.Link(order[i]).value;
      var j :| 0 <= j < i && order[j] == p;
      LinkedWalkReaches(m, order, j, done + [order[i]], fuel - 1, exact);
    }
  }

  /** When a search leaves the end cell in such an order, getSolution
      succeeds, both as written and corrected. */
  lemma LinkedEndSolves(m: Maze, order: seq<Coord>)
    requires m.Valid() && LinkedInOrder(m, order) && |order| <= Cap(m) + 1 && m.end in order
    ensures Solution(m).Ok? && ExactSolution(m).Ok?
  {
    var i :| 0 <= i < |order| && order[i] == m.end;
    LinkedWalkReaches(m, order, i, [], Cap(m), false);
    LinkedWalkReaches(m, order, i, [], Cap(m), true);
  }

  /** A walk from the start cell through open cells, each step to one of the
      four neighbours. */
  ghost predicate OpenPathFromStart(m: Maze, p: seq<Coord>)
    reads m.open
  {
    && |p| >= 1 && p[0] == m.start
    && (forall i :: 0 < i < |p| ==> m.InBounds(p[i]) && m.Open(p[i]) && Adjacent(p[i - 1], p[i]))
  }

  /** Some open walk from the start cell ends at `c`. */
  ghost predicate Reachable(m: Maze, c: Coord)
    reads m.open
  {
    exists p :: OpenPathFromStart(m, p) && p[|p| - 1] == c
  }

  /** The start cell is reachable, by the walk that does not move. */
  lemma StartReachable(m: Maze)
    ensures Reachable(m, m.start)
  {
    assert OpenPathFromStart(m, [m.start]);
  }

  /** One step to an open neighbour extends a walk. */
  lemma ReachStep(m: Maze, c: Coord, d: Coord)
    requires Reachable(m, c) && Adjacent(c, d) && m.InBounds(d) && m.Open(d)
    ensures Reachable(m, d)
  {
    var p :| OpenPathFromStart(m, p) && p[|p| - 1] == c;
    var q := p + [d];
    assert OpenPathFromStart(m, q);
  }

  /** `c` is the start cell, or an open cell of the grid that some walk
      from the start reaches in at most `k` steps. Defined step by step
      through the four neighbours, which are also the cells one step
      before `c`. */
  ghost predicate ReachableIn(m: Maze, c: Coord, k: nat)
    reads m.open
    decreases k
  {
    || c == m.start
    || (k > 0 && (|| ReachableIn(m, c, k - 1)
                  || (m.InBounds(c) && m.Open(c) &&
                      var n := Neighbours(c);
                      ReachableIn(m, n[0], k - 1) || ReachableIn(m, n[1], k - 1) ||
                      ReachableIn(m, n[2], k - 1) || ReachableIn(m, n[3], k - 1))))
  }

  /** One step to an open neighbour costs one more step. */
  lemma StepIn(m: Maze, d: Coord, c: Coord, k: nat)
    requires ReachableIn(m, d, k) && Adjacent(d, c) && m.InBounds(c) && m.Open(c)
    ensures ReachableIn(m, c, k + 1)
  {
    var n := Neighbours(c);
    assert d == n[0] || d == n[1] || d == n[2] || d == n[3];
  }

  /** Reaching a cell within some number of steps gives a walk to it. */
  lemma {:induction false} ReachableInWalk(m: Maze, c: Coord, k: nat)
    requires ReachableIn(m, c, k)
    ensures Reachable(m, c)
    decreases k
  {
    if c == m.start {
      StartReachable(m);
    } else if ReachableIn(m, c, k - 1) {
      ReachableInWalk(m, c, k - 1);
    } else {
      var n := Neighbours(c);
      var i :| 0 <= i < 4 && ReachableIn(m, n[i], k - 1);
      ReachableInWalk(m, n[i], k - 1);
      ReachStep(m, n[i], c);
    }
  }

  /** As written, getSolution reports a two-cell path for a maze with no
      path at all: on a 1x3 grid whose middle cell is a wall, the end cell
      shares the start's row, so the list is [start, end], yet no open walk
      leaves the start cell. */
  lemma WalledRowSolved(m: Maze)
    requires m.Valid() && m.rows == 1 && m.cols == 3
    requires m.start == Coord(0, 0) && m.end == Coord(0, 2) && !m.Open(Coord(0, 1))
    ensures Solution(m) == Ok([m.start, m.end])
    ensures !Reachable(m, m.end)
  {
    SharedLineSolution(m);
    forall p | OpenPathFromStart(m, p)
      ensures |p| == 1
    {
      assert |p| > 1 ==> Adjacent(p[0], p[1]);
    }
  }

  /** A search that has expanded every cell it found, and found every cell
      that is explored, has found every cell an open walk from the start
      reaches. */
  lemma {:induction false} ClosedSearchCoversPaths(m: Maze, found: seq<Coord>, p: seq<Coord>)
    requires m.start in found
    requires forall c :: c in found ==> m.Settled(c)
    requires forall c :: m.InBounds(c) && m.Explored(c) ==> c in found
    requires OpenPathFromStart(m, p)
    ensures p[|p| - 1] in found
    decreases |p|
  {
    if |p| > 1 {
      var q := p[..|p| - 1];
      assert OpenPathFromStart(m, q);
      ClosedSearchCoversPaths(m, found, q);
      assert m.Settled(p[|p| - 2]);
      assert !m.IsValidCell(p[|p| - 1]);
    }
  }

  /** Cells appended to a frontier or to the breadth-first order:
      membership of the result, and distinctness when the new cells are
      distinct and not already there. */
  lemma {:induction false} Push(stack: seq<Coord>, added: seq<Coord>)
    requires Distinct(stack) && Distinct(added)
    requires forall c :: c in added ==> c !in stack
    ensures forall c :: c in stack + added <==> c in stack || c in added
    ensures Distinct(stack + added)
  {
    if added != [] {
      var init := added[..|added| - 1];
      assert forall c :: c in init ==> c in added;
      Push(stack, init);
      var all := stack + added;
      assert all[..|all| - 1] == stack + init;
      assert all[|all| - 1] == added[|added| - 1];
      assert added[|added| - 1] !in init;
      assert added[|added| - 1] in added;
    } else {
      assert stack + added == stack;
    }
  }

  /** The top of a stack of distinct cells, and what remains under it. */
  lemma Pop(stack: seq<Coord>)
    requires stack != [] && Distinct(stack)
    ensures var rest := stack[..|stack| - 1];
      && (forall c :: c in stack <==> c in rest || c == stack[|stack| - 1])
      && Distinct(rest) && stack[|stack| - 1] !in rest
  {
  }

  /** The cells of a depth-first search so far: the stack and the popped
      cells are distinct cells, open and unexplored when the search began
      (`u0` holds the cells unexplored then), and they are exactly the cells
      the search has marked explored. */
  ghost predicate DfsCells(m: Maze, stack: seq<Coord>, popped: seq<Coord>, u0: set<Coord>)
    reads m.open, m.explored
  {
    && Distinct(stack) && Distinct(popped)
    && (forall c :: c in stack ==> c !in popped)
    && (forall c :: c in stack || c in popped ==> m.InBounds(c) && m.Open(c) && c in u0)
    && (forall c :: m.InBounds(c) ==> (m.Explored(c) <==> c !in u0 || c in stack || c in popped))
  }

  /** Every cell on the stack or popped is reachable from the start cell
      within `k` steps. */
  ghost predicate FoundWithin(m: Maze, stack: seq<Coord>, popped: seq<Coord>, k: nat)
    reads m.open
  {
    forall c :: c in stack || c in popped ==> ReachableIn(m, c, k)
  }

  /** Each popped cell is linked to the cell popped before it, the first to
      the start cell. */
  ghost predicate Chain(m: Maze, popped: seq<Coord>)
    reads m.parent
  {
    && (forall i :: 0 <= i < |popped| ==> m.InBounds(popped[i]))
    && (forall i {:trigger m.Link(popped[i])} :: 0 <= i < |popped| ==>
          m.Link(popped[i]) == Some(if i == 0 then m.start else popped[i - 1]))
  }

  /** The part of the state at the head of the depth-first loop that the
      explored flags carry: `cur` is the last popped cell (the start cell
      before the first pop), no earlier popped cell is the end cell, and
      every popped cell before `cur`, and the start cell once something was
      popped, has been expanded. */
  ghost predicate Visited(m: Maze, cur: Coord, stack: seq<Coord>, popped: seq<Coord>, u0: set<Coord>)
    reads m.open, m.explored
  {
    && m.InBounds(cur)
    && cur == (if popped == [] then m.start else popped[|popped| - 1])
    && (popped != [] ==> m.end != m.start)
    && (m.end in popped ==> cur == m.end)
    && DfsCells(m, stack, popped, u0) && FoundWithin(m, stack, popped, |popped| + 1)
    && (popped != [] ==> m.Settled(m.start))
    && (forall i {:trigger popped[i]} :: 0 <= i < |popped| - 1 ==> m.Settled(popped[i]))
  }

  /** The state at the head of the depth-first loop: the above, and the
      parent links of the popped cells. */
  ghost predicate DfsInv(m: Maze, cur: Coord, stack: seq<Coord>, popped: seq<Coord>, u0: set<Coord>)
    reads m.open, m.explored, m.parent
  {
    m.Valid() && Chain(m, popped) && Visited(m, cur, stack, popped, u0)
  }

  /** The same state once `cur`, which is not the end cell, has been
      expanded: now `cur` and the start cell are settled too. */
  ghost predicate Expanded(m: Maze, cur: Coord, stack: seq<Coord>, popped: seq<Coord>, u0: set<Coord>)
    reads m.open, m.explored, m.parent
  {
    && m.Valid() && m.InBounds(cur)
    && cur == (if popped == [] then m.start else popped[|popped| - 1])
    && m.end != m.start && cur != m.end && m.end !in popped
    && DfsCells(m, stack, popped, u0) && FoundWithin(m, stack, popped, |popped| + 2) && Chain(m, popped)
    && m.Settled(m.start)
    && (forall i {:trigger popped[i]} :: 0 <= i < |popped| ==> m.Settled(popped[i]))
  }

  /** Popping moves the top of the stack to the popped cells, and makes it
      the current cell. */
  lemma PopVisited(m: Maze, cur: Coord, stack: seq<Coord>, popped: seq<Coord>, u0: set<Coord>)
    requires Expanded(m, cur, stack, popped, u0) && stack != []
    ensures Visited(m, stack[|stack| - 1], stack[..|stack| - 1], popped + [stack[|stack| - 1]], u0)
    ensures stack[|stack| - 1] !in popped && m.InBounds(stack[|stack| - 1])
    ensures stack == stack[..|stack| - 1] + [stack[|stack| - 1]]
  {
    var next := stack[|stack| - 1];
    var p := popped + [next];
    PopCells(m, stack, popped, u0);
    PopWithin(m, stack, popped, |popped| + 2);
    forall i | 0 <= i < |p| - 1
      ensures m.Settled(p[i])
    {
      assert p[i] == popped[i];
    }
  }

  /** The stack and popped cells after a pop. */
  lemma PopCells(m: Maze, stack: seq<Coord>, popped: seq<Coord>, u0: set<Coord>)
    requires DfsCells(m, stack, popped, u0) && stack != []
    ensures DfsCells(m, stack[..|stack| - 1], popped + [stack[|stack| - 1]], u0)
  {
    var next := stack[|stack| - 1];
    var p := popped + [next];
    Pop(stack);
    assert p[..|p| - 1] == popped;
    assert forall c :: c in p <==> c in popped || c == next;
  }

  /** Popping keeps every found cell found. */
  lemma PopWithin(m: Maze, stack: seq<Coord>, popped: seq<Coord>, k: nat)
    requires FoundWithin(m, stack, popped, k) && stack != []
    ensures FoundWithin(m, stack[..|stack| - 1], popped + [stack[|stack| - 1]], k)
  {
    var rest := stack[..|stack| - 1];
    assert forall c :: c in rest ==> c in stack;
  }

  /** Linking a new cell to the last cell of a chain (to the start cell
      when the chain is empty) extends the chain; no other link changes. */
  method LinkNext(m: Maze, ghost popped: seq<Coord>, next: Coord, cur: Coord)
    requires m.Valid() && Chain(m, popped) && next !in popped && m.InBounds(next) && m.InBounds(cur)
    requires cur == if popped == [] then m.start else popped[|popped| - 1]
    modifies m.parent
    ensures m.Valid() && Chain(m, popped + [next])
    ensures forall c :: m.InBounds(c) ==> m.Link(c) == if c == next then Some(cur) else old(m.Link(c))
  {
    m.parent[next.row, next.col] := Some(cur);
    assert forall c :: m.InBounds(c) ==> m.Link(c) == if c == next then Some(cur) else old(m.Link(c));
    ChainGrows(m, popped, next, cur);
  }

  /** Linking `next` to the last popped cell extends the chain by it. */
  twostate lemma ChainGrows(m: Maze, new popped: seq<Coord>, new next: Coord, new cur: Coord)
    requires old(Chain(m, popped)) && next !in popped && m.InBounds(next)
    requires cur == if popped == [] then m.start else popped[|popped| - 1]
    requires forall c :: m.InBounds(c) ==> m.Link(c) == if c == next then Some(cur) else old(m.Link(c))
    ensures Chain(m, popped + [next])
  {
    var p := popped + [next];
    assert forall i :: 0 <= i < |p| ==> m.InBounds(p[i]);
    forall i | 0 <= i < |p|
      ensures m.Link(p[i]) == Some(if i == 0 then m.start else p[i - 1])
    {
      if i < |popped| {
        assert p[i] == popped[i] != next;
        assert old(m.Link(popped[i])) == Some(if i == 0 then m.start else popped[i - 1]);
        if i > 0 {
          assert p[i - 1] == popped[i - 1];
        }
      } else if i > 0 {
        assert p[i - 1] == popped[|popped| - 1];
      }
    }
  }

  /** The first half of a depth-first iteration: expand `cur` and push the
      valid neighbours it found, North, East, South, West. */
  method PushNeighbours(m: Maze, cur: Coord, stack: seq<Coord>, ghost popped: seq<Coord>, ghost u0: set<Coord>)
    returns (stack': seq<Coord>)
    requires DfsInv(m, cur, stack, popped, u0) && cur != m.end
    modifies m.explored, m.parent
    ensures Expanded(m, cur, stack', popped, u0)
    ensures stack' == stack + old(ValidAmong(m, Neighbours(cur), 4))
    ensures unchanged(m.parent)
  {
    var added := Expand(m, cur, false);
    Push(stack, added);
    stack' := stack + added;
    ghost var k := |popped| + 1;
    assert ReachableIn(m, cur, k) by {
      if popped != [] {
        assert cur in popped;
      }
    }
    forall c | c in stack' || c in popped
      ensures ReachableIn(m, c, k + 1)
    {
      if c in added {
        StepIn(m, cur, c, k);
      } else {
        assert ReachableIn(m, c, k);
      }
    }
    assert m.Valid() && Chain(m, popped) && m.end !in popped;
    assert DfsCells(m, stack', popped, u0);
    assert m.Settled(m.start) && forall i {:trigger popped[i]} :: 0 <= i < |popped| ==> m.Settled(popped[i]);
  }

  /** The second half: pop the top of the stack and link it to `cur`. */
  method PopNext(m: Maze, cur: Coord, stack: seq<Coord>, ghost popped: seq<Coord>, ghost u0: set<Coord>)
    returns (next: Coord, stack': seq<Coord>)
    requires Expanded(m, cur, stack, popped, u0) && stack != []
    modifies m.parent
    ensures stack == stack' + [next]
    ensures DfsInv(m, next, stack', popped + [next], u0)
    ensures forall c :: m.InBounds(c) && c != next ==> m.Link(c) == old(m.Link(c))
  {
    PopVisited(m, cur, stack, popped, u0);
    next := stack[|stack| - 1];
    stack' := stack[..|stack| - 1];
    LinkNext(m, popped, next, cur);
  }

  /** The popped cells are distinct cells of the grid, so there are no more
      of them than the grid has cells; this bounds the loop. */
  lemma PoppedBound(m: Maze, cur: Coord, stack: seq<Coord>, popped: seq<Coord>, u0: set<Coord>)
    requires DfsInv(m, cur, stack, popped, u0)
    ensures |popped| <= m.rows * m.cols
  {
    DistinctCellsBound(m.rows, m.cols, popped);
  }

  /** When the stack runs empty: the start cell and every popped cell have
      been expanded, and, if the search began with nothing explored, no open
      walk from the start cell reaches the end cell. */
  lemma DfsExhausted(m: Maze, cur: Coord, popped: seq<Coord>, u0: set<Coord>)
    requires Expanded(m, cur, [], popped, u0)
    ensures forall c :: c in popped ==> m.Settled(c)
    ensures forall c :: m.InBounds(c) && m.Explored(c) && c in u0 ==> c in popped
    ensures (forall c :: m.InBounds(c) ==> c in u0) ==>
      forall p :: OpenPathFromStart(m, p) ==> p[|p| - 1] != m.end
    ensures (forall c :: m.InBounds(c) ==> c in u0) ==> !Reachable(m, m.end)
  {
    forall c | c in popped
      ensures m.Settled(c)
    {
      var i :| 0 <= i < |popped| && popped[i] == c;
    }
    if forall c :: m.InBounds(c) ==> c in u0 {
      forall p | OpenPathFromStart(m, p)
        ensures p[|p| - 1] != m.end
      {
        ClosedSearchCoversPaths(m, [m.start] + popped, p);
      }
    }
  }

  /** When the current cell is the end cell, the popped cells, after the
      start cell, are linked in order, so getSolution succeeds. */
  lemma DfsArrived(m: Maze, stack: seq<Coord>, popped: seq<Coord>, u0: set<Coord>)
    requires DfsInv(m, m.end, stack, popped, u0)
    ensures Solution(m).Ok? && ExactSolution(m).Ok?
  {
    DistinctCellsBound(m.rows, m.cols, popped);
    var order := [m.start] + popped;
    forall i | 0 < i < |order|
      ensures m.Link(order[i]).Some? && m.Link(order[i]).value in order[..i]
    {
      assert m.Link(order[i]).value == order[i - 1];
    }
    LinkedEndSolves(m, order);
  }

  /** The end cell, once the search arrives at it, is reachable from the
      start cell by a walk through open cells. */
  lemma DfsArrivedReachable(m: Maze, stack: seq<Coord>, popped: seq<Coord>)
    requires m.end == if popped == [] then m.start else popped[|popped| - 1]
    requires FoundWithin(m, stack, popped, |popped| + 1)
    ensures Reachable(m, m.end)
  {
    if popped != [] {
      assert m.end in popped;
    }
    ReachableInWalk(m, m.end, |popped| + 1);
  }

  /** The depth-first state before the first iteration: nothing popped,
      nothing stacked, the current cell the start cell. */
  lemma DfsStarts(m: Maze, u0: set<Coord>)
    requires m.Valid()
    requires forall c :: c in u0 <==> m.InBounds(c) && !m.Explored(c)
    ensures DfsInv(m, m.start, [], [], u0)
  {
  }

  /** What the cells of a depth-first search say in terms of the flags
      before the search: the stack holds distinct cells that were open and
      unexplored, none of them popped, and the explored cells are those
      explored before, the popped cells and the stacked cells. */
  twostate lemma DfsCellsSince(m: Maze, new stack: seq<Coord>, new popped: seq<Coord>, new u0: set<Coord>)
    requires forall c :: c in u0 <==> m.InBounds(c) && !old(m.Explored(c))
    requires DfsCells(m, stack, popped, u0)
    ensures Distinct(stack)
    ensures forall c :: c in stack ==> m.InBounds(c) && m.Open(c) && !old(m.Explored(c)) && c !in popped
    ensures forall c :: m.InBounds(c) ==> (m.Explored(c) <==> old(m.Explored(c)) || c in popped || c in stack)
  {
  }

  /** The loop of the depth-first search, from the start cell with an empty
      stack: it stops at the end cell (`arrived`), or when the stack is
      empty at the pop, where the source's pop throws. `popped` is the
      sequence of popped cells and `stack` what is left on the stack. */
  method DfsLoop(m: Maze, ghost u0: set<Coord>) returns (arrived: bool, ghost cur: Coord, ghost stack: seq<Coord>, ghost popped: seq<Coord>)
    requires DfsInv(m, m.start, [], [], u0)
    modifies m.explored, m.parent
    ensures arrived ==> cur == m.end && DfsInv(m, cur, stack, popped, u0)
    ensures !arrived ==> Expanded(m, cur, [], popped, u0) && stack == []
    ensures forall c :: m.InBounds(c) && c !in popped ==> m.Link(c) == old(m.Link(c))
  {
    var at := m.start;
    var frontier: seq<Coord> := [];
    popped := [];
    while at.row != m.end.row || at.col != m.end.col
      invariant DfsInv(m, at, frontier, popped, u0)
      invariant forall c :: m.InBounds(c) && c !in popped ==> m.Link(c) == old(m.Link(c))
      decreases m.rows * m.cols - |popped|
    {
      frontier := PushNeighbours(m, at, frontier, popped, u0);
      if frontier == [] {
        return false, at, frontier, popped;
      }
      at, frontier := PopNext(m, at, frontier, popped, u0);
      popped := popped + [at];
      PoppedBound(m, at, frontier, popped, u0);
    }
    return true, at, frontier, popped;
  }

  /** The depth-first search. Starting at the start cell, which it does not
      mark explored, it expands the current cell, pushing its valid
      neighbours North, East, South, West, pops the top of the stack, links it
      to the current cell and makes it current, until the current cell is
      the end cell; popping an empty stack is an error. `popped` is the
      sequence of popped cells and `stack` what is left on the stack; the
      cells the search marks explored are exactly those two. */
  method SolveMazeDFS(m: Maze) returns (r: Result<seq<Coord>>, ghost popped: seq<Coord>, ghost stack: seq<Coord>)
    requires m.Valid()
    modifies m.explored, m.parent
    ensures m.Valid()
    ensures r == Err(EmptyFrontier) || r == Solution(m)
    ensures Distinct(popped)
    ensures forall c :: c in popped ==> m.InBounds(c) && m.Open(c) && m.Explored(c) && !old(m.Explored(c))
    ensures Distinct(stack)
    ensures forall c :: c in stack ==> m.InBounds(c) && m.Open(c) && !old(m.Explored(c)) && c !in popped
    ensures forall c :: m.InBounds(c) ==> (m.Explored(c) <==> old(m.Explored(c)) || c in popped || c in stack)
    ensures forall i {:trigger m.Link(popped[i])} :: 0 <= i < |popped| ==> m.Link(popped[i]) == Some(if i == 0 then m.start else popped[i - 1])
    ensures forall c :: m.InBounds(c) && c !in popped ==> m.Link(c) == old(m.Link(c))
    ensures r != Err(EmptyFrontier) ==> r.Ok? && m.end == if popped == [] then m.start else popped[|popped| - 1]
    ensures r == Err(EmptyFrontier) ==>
      && m.end != m.start && m.end !in popped
      && m.Settled(m.start) && (forall c :: c in popped ==> m.Settled(c))
      && (forall c :: m.InBounds(c) && m.Explored(c) && !old(m.Explored(c)) ==> c in popped)
    ensures r == Err(EmptyFrontier) ==> stack == []
    ensures r == Err(EmptyFrontier) && old(m.NoneExplored()) ==>
      forall p :: OpenPathFromStart(m, p) ==> p[|p| - 1] != m.end
    ensures r.Ok? ==> Reachable(m, m.end)
    ensures old(m.NoneExplored()) ==> (r.Ok? <==> Reachable(m, m.end))
  {
    ghost var u0 := m.Unexplored();
    forall c ensures c in u0 <==> m.InBounds(c) && !m.Explored(c) {
      m.InUnexplored(c);
    }
    DfsStarts(m, u0);
    var arrived;
    ghost var cur;
    arrived, cur, stack, popped := DfsLoop(m, u0);
    if arrived {
      r := GetSolution(m);
      DfsArrived(m, stack, popped, u0);
      DfsArrivedReachable(m, stack, popped);
      DfsCellsSince(m, stack, popped, u0);
    } else {
      r := Err(EmptyFrontier);
      DfsExhausted(m, cur, popped, u0);
      DfsCellsSince(m, stack, popped, u0);
    }
  }

  /** The part of the breadth-first state that the explored flags carry.
      `order` lists every cell ever added to the queue, from the start cell
      on, and the first `done` of them have been removed and expanded: they
      are distinct cells of the grid, each after the start open and
      unexplored when the search began (`u0` holds the cells unexplored
      then), and together with the cells explored before they are exactly
      the explored cells. */
  ghost predicate BfsVisited(m: Maze, order: seq<Coord>, done: nat, u0: set<Coord>)
    reads m.open, m.explored
  {
    && |order| >= 1 && order[0] == m.start && done <= |order|
    && Distinct(order)
    && (forall i :: 0 <= i < |order| ==> m.InBounds(order[i]))
    && (forall i :: 0 < i < |order| ==> m.Open(order[i]) && order[i] in u0)
    && (forall c :: m.InBounds(c) ==> (m.Explored(c) <==> c !in u0 || c in order))
    && (forall i :: 0 <= i < done ==> m.Settled(order[i]))
  }

  /** Each cell after the start in `order` is linked to the earlier cell
      `order[via[i]]` that discovered it, one of its four neighbours. */
  ghost predicate BfsLinks(m: Maze, order: seq<Coord>, via: seq<nat>)
    reads m.parent
  {
    && |via| == |order|
    && (forall i {:trigger m.Link(order[i])} :: 0 < i < |order| ==>
          via[i] < i && m.Link(order[i]) == Some(order[via[i]]) && Adjacent(order[via[i]], order[i]))
  }

  /** The state at the head of the breadth-first loop; the queue is
      `order[done..]`. */
  ghost predicate BfsInv(m: Maze, order: seq<Coord>, via: seq<nat>, done: nat, u0: set<Coord>)
    reads m.open, m.explored, m.parent
  {
    m.Valid() && BfsVisited(m, order, done, u0) && BfsLinks(m, order, via)
  }

  /** Expanding `order[done]` and appending the cells it collected keeps
      the explored part of the breadth-first state. */
  twostate lemma VisitedGrows(m: Maze, new order: seq<Coord>, new done: nat, new u0: set<Coord>, new added: seq<Coord>)
    requires old(BfsVisited(m, order, done, u0)) && done < |order| && Distinct(added)
    requires forall c :: c in added ==> m.InBounds(c) && m.Open(c) && !old(m.Explored(c))
    requires forall c :: m.InBounds(c) ==> m.Explored(c) == (old(m.Explored(c)) || c in added)
    requires m.Settled(order[done])
    requires forall c :: old(m.Settled(c)) ==> m.Settled(c)
    requires unchanged(m.open)
    ensures forall c :: c in added ==> c !in order
    ensures BfsVisited(m, order + added, done + 1, u0)
  {
    forall c | c in added
      ensures c !in order
    {
      assert !old(m.Explored(c));
    }
    Push(order, added);
    var o := order + added;
    forall c | m.InBounds(c)
      ensures m.Explored(c) <==> c !in u0 || c in o
    {
      assert old(m.Explored(c)) <==> c !in u0 || c in order;
    }
    forall i | 0 <= i < done + 1
      ensures m.Settled(o[i])
    {
      assert o[i] == order[i];
      if i < done {
        assert old(m.Settled(order[i]));
      }
    }
    forall i | 0 < i < |o|
      ensures m.Open(o[i]) && o[i] in u0
    {
      if i >= |order| {
        assert o[i] == added[i - |order|];
      } else {
        assert old(m.Open(order[i]));
      }
    }
  }

  /** Linking the cells collected by expanding `order[done]` to it, and
      appending them, keeps the links of the breadth-first state. */
  twostate lemma LinksGrow(m: Maze, new order: seq<Coord>, new via: seq<nat>, new done: nat, new added: seq<Coord>)
    requires old(BfsLinks(m, order, via)) && done < |order|
    requires forall i :: 0 <= i < |order| ==> m.InBounds(order[i])
    requires forall c :: c in added ==> c !in order && m.InBounds(c) && Adjacent(order[done], c)
    requires forall c :: m.InBounds(c) ==> m.Link(c) == if c in added then Some(order[done]) else old(m.Link(c))
    ensures BfsLinks(m, order + added, via + seq(|added|, _ => done))
  {
    var o, v := order + added, via + seq(|added|, _ => done);
    forall i | 0 < i < |o|
      ensures v[i] < i && m.Link(o[i]) == Some(o[v[i]]) && Adjacent(o[v[i]], o[i])
    {
      if i < |order| {
        assert o[i] == order[i] && v[i] == via[i] && o[via[i]] == order[via[i]];
        assert order[i] in order;
        assert old(m.Link(order[i])) == Some(order[via[i]]);
      } else {
        assert o[i] == added[i - |order|] && v[i] == done && o[done] == order[done];
        assert added[i - |order|] in added;
      }
    }
  }

  /** Expanding the head `cur` of the queue, with the effects `Expand`
      promises, keeps the breadth-first state once the collected cells are
      appended to `order`, each recorded as discovered by `cur`. */
  twostate lemma StepKeeps(m: Maze, new order: seq<Coord>, new via: seq<nat>, new done: nat, new u0: set<Coord>,
                           new cur: Coord, new added: seq<Coord>)
    requires old(BfsVisited(m, order, done, u0) && BfsLinks(m, order, via)) && done < |order| && cur == order[done]
    requires unchanged(m.open) && Distinct(added)
    requires forall c :: c in added ==> Adjacent(cur, c) && m.InBounds(c) && m.Open(c) && !old(m.Explored(c))
    requires forall c :: m.InBounds(c) ==> m.Explored(c) == (old(m.Explored(c)) || c in added)
    requires forall c :: m.InBounds(c) ==> m.Link(c) == if c in added then Some(cur) else old(m.Link(c))
    requires m.Settled(cur)
    requires forall c :: old(m.Settled(c)) ==> m.Settled(c)
    ensures BfsVisited(m, order + added, done + 1, u0) && BfsLinks(m, order + added, via + seq(|added|, _ => done))
    ensures forall c :: m.InBounds(c) && c !in order + added ==> m.Link(c) == old(m.Link(c))
  {
    VisitedGrows(m, order, done, u0, added);
    LinksGrow(m, order, via, done, added);
    Push(order, added);
  }

  /** Expanding the head `order[done]` of the queue, in the breadth-first
      search, appends the cells it collects to `order` and keeps the
      breadth-first state; no link outside `order` changes. */
  method ExpandHead(m: Maze, cur: Coord, ghost order: seq<Coord>, ghost via: seq<nat>, ghost done: nat, ghost u0: set<Coord>)
    returns (added: seq<Coord>)
    requires BfsInv(m, order, via, done, u0) && done < |order| && cur == order[done]
    modifies m.explored, m.parent
    ensures BfsInv(m, order + added, via + seq(|added|, _ => done), done + 1, u0)
    ensures added == old(ValidAmong(m, Neighbours(cur), 4))
    ensures forall c :: m.InBounds(c) && c !in order + added ==> m.Link(c) == old(m.Link(c))
    ensures m.Link(m.start) == old(m.Link(m.start))
  {
    added := Expand(m, cur, true);
    StepKeeps(m, order, via, done, u0, cur, added);
    assert m.start !in added by {
      assert old(m.Explored(order[0]));
    }
  }

  /** Removing the head of `order[done..]` and appending `added` gives
      `(order + added)[done + 1..]`. */
  lemma Dequeue(order: seq<Coord>, done: nat, added: seq<Coord>)
    requires done < |order|
    ensures order[done..][1..] + added == (order + added)[done + 1..]
  {
    assert order[done..][1..] == order[done + 1..];
  }

  /** One pass of the breadth-first loop body: remove the head of the queue
      and expand it, linking each valid neighbour to it and adding it to
      the queue. */
  method BfsStep(m: Maze, queue: seq<Coord>, ghost order: seq<Coord>, ghost via: seq<nat>, ghost done: nat, ghost u0: set<Coord>)
    returns (queue': seq<Coord>, ghost order': seq<Coord>, ghost via': seq<nat>)
    requires BfsInv(m, order, via, done, u0) && queue == order[done..] && queue != []
    modifies m.explored, m.parent
    ensures BfsInv(m, order', via', done + 1, u0) && queue' == order'[done + 1..]
    ensures order' == order + old(ValidAmong(m, Neighbours(queue[0]), 4))
    ensures forall c :: m.InBounds(c) && c !in order' ==> m.Link(c) == old(m.Link(c))
    ensures m.Link(m.start) == old(m.Link(m.start))
  {
    var cur := queue[0];
    var added := ExpandHead(m, cur, order, via, done, u0);
    Dequeue(order, done, added);
    queue' := queue[1..] + added;
    order' := order + added;
    via' := via + seq(|added|, _ => done);
  }

  /** The cells ever added to the queue are distinct cells of the grid, so
      there are no more of them than the grid has cells; this bounds the
      loop. */
  lemma BfsBound(m: Maze, order: seq<Coord>, done: nat, u0: set<Coord>)
    requires BfsVisited(m, order, done, u0)
    ensures |order| <= m.rows * m.cols
  {
    DistinctCellsBound(m.rows, m.cols, order);
  }

  /** The breadth-first search up to getSolution: mark the start cell
      explored and queue it, then run the loop until the queue is empty.
      `u0` holds the cells unexplored at the outset. */
  method BfsLoop(m: Maze, ghost u0: set<Coord>) returns (ghost order: seq<Coord>, ghost via: seq<nat>)
    requires m.Valid()
    requires forall c :: c in u0 <==> m.InBounds(c) && !m.Explored(c)
    modifies m.explored, m.parent
    ensures BfsInv(m, order, via, |order|, u0)
    ensures forall c :: m.InBounds(c) && c !in order ==> m.Link(c) == old(m.Link(c))
    ensures m.Link(m.start) == old(m.Link(m.start))
  {
    m.explored[m.start.row, m.start.col] := true;
    forall c | m.InBounds(c)
      ensures m.Explored(c) <==> c !in u0 || c in [m.start]
    {
      if c != m.start {
        assert m.Explored(c) == old(m.Explored(c));
      }
    }
    var queue := [m.start];
    order, via := [m.start], [0];
    ghost var done := 0;
    while queue != []
      invariant BfsInv(m, order, via, done, u0) && queue == order[done..]
      invariant forall c :: m.InBounds(c) && c !in order ==> m.Link(c) == old(m.Link(c))
      invariant m.Link(m.start) == old(m.Link(m.start))
      decreases m.rows * m.cols - done
    {
      BfsBound(m, order, done, u0);
      queue, order, via := BfsStep(m, queue, order, via, done, u0);
      done := done + 1;
    }
  }

  /** When the queue is empty every cell ever added to it has been
      expanded, and every cell after the start is linked to an earlier one,
      one of its four neighbours; so getSolution succeeds when the end cell
      was reached, and, if the search began with the whole grid unexplored,
      every cell an open walk from the start reaches was added. */
  lemma BfsDone(m: Maze, order: seq<Coord>, via: seq<nat>, u0: set<Coord>)
    requires BfsInv(m, order, via, |order|, u0)
    ensures forall c :: c in order ==> m.Settled(c)
    ensures LinkedInOrder(m, order)
    ensures m.end in order ==> Solution(m).Ok? && ExactSolution(m).Ok?
    ensures (forall c :: m.InBounds(c) ==> c in u0) ==>
      forall p :: OpenPathFromStart(m, p) ==> p[|p| - 1] in order
  {
    forall c | c in order
      ensures m.Settled(c)
    {
      var i :| 0 <= i < |order| && order[i] == c;
    }
    forall i | 0 < i < |order|
      ensures m.Link(order[i]).Some? && m.Link(order[i]).value in order[..i]
    {
      assert m.Link(order[i]).Some?;
      assert order[..i][via[i]] == order[via[i]];
    }
    BfsBound(m, order, |order|, u0);
    if m.end in order {
      LinkedEndSolves(m, order);
    }
    if forall c :: m.InBounds(c) ==> c in u0 {
      forall p | OpenPathFromStart(m, p)
        ensures p[|p| - 1] in order
      {
        ClosedSearchCoversPaths(m, order, p);
      }
    }
  }

  /** A queued cell other than the start is open and linked to one of its
      four neighbours. */
  lemma QueuedIsLinked(m: Maze, order: seq<Coord>, via: seq<nat>, done: nat, u0: set<Coord>, c: Coord)
    requires BfsInv(m, order, via, done, u0) && c in order && c != m.start
    ensures m.Open(c) && m.Link(c).Some? && Adjacent(m.Link(c).value, c)
  {
    var j :| 0 <= j < |order| && order[j] == c;
    assert j > 0 && m.Link(order[j]).Some?;
    assert via[j] < j && m.Link(order[j]) == Some(order[via[j]]);
  }

  /** Over a grid that was wholly unexplored, so that the only links are
      the ones the breadth-first search set, the corrected reconstruction
      succeeds exactly when the end cell was reached, and then lists an open
      walk from the start cell to the end cell. */
  lemma BfsExact(m: Maze, order: seq<Coord>, via: seq<nat>, u0: set<Coord>)
    requires BfsInv(m, order, via, |order|, u0)
    requires forall c :: m.InBounds(c) && m.Link(c).Some? ==> c in order && c != m.start
    ensures ExactSolution(m).Ok? <==> m.end in order
    ensures ExactSolution(m).Ok? ==>
      OpenPathFromStart(m, ExactSolution(m).value) && ExactSolution(m).value[|ExactSolution(m).value| - 1] == m.end
  {
    BfsDone(m, order, via, u0);
    if ExactSolution(m).Ok? {
      ExactSolutionFollowsLinks(m);
      var p := ExactSolution(m).value;
      forall i | 0 < i < |p|
        ensures m.InBounds(p[i]) && m.Open(p[i]) && Adjacent(p[i - 1], p[i])
      {
        assert m.Link(p[i]) == Some(p[i - 1]);
        QueuedIsLinked(m, order, via, |order|, u0, p[i]);
      }
      if m.end != m.start {
        assert m.Link(p[|p| - 1]) == Some(p[|p| - 2]);
      }
    }
  }

  /** The breadth-first search. It marks the start cell explored and
      queues it; then, until the queue is empty, it removes the head of the
      queue and, for its neighbours North, East, South and West, queues each
      valid one, links it to the head and marks it explored; finally it
      hands over to getSolution. `order` lists the cells in the order they
      were queued. */
  method SolveMazeBFS(m: Maze) returns (r: Result<seq<Coord>>, ghost order: seq<Coord>)
    requires m.Valid()
    modifies m.explored, m.parent
    ensures m.Valid() && r == Solution(m)
    ensures |order| >= 1 && order[0] == m.start && Distinct(order)
    ensures forall i :: 0 < i < |order| ==> m.InBounds(order[i]) && m.Open(order[i]) && !old(m.Explored(order[i]))
    ensures forall c :: m.InBounds(c) ==> (m.Explored(c) <==> old(m.Explored(c)) || c in order)
    ensures forall i {:trigger m.Link(order[i])} :: 0 < i < |order| ==>
      m.Link(order[i]).Some? && m.Link(order[i]).value in order[..i] && Adjacent(m.Link(order[i]).value, order[i])
    ensures m.Link(m.start) == old(m.Link(m.start))
    ensures forall c :: m.InBounds(c) && c !in order ==> m.Link(c) == old(m.Link(c))
    ensures forall c :: c in order ==> m.Settled(c)
    ensures m.end in order ==> r.Ok? && ExactSolution(m).Ok?
    ensures old(m.NoneExplored()) ==> forall p :: OpenPathFromStart(m, p) ==> p[|p| - 1] in order
    ensures old(m.NoneExplored()) ==> (ExactSolution(m).Ok? <==> m.end in order)
    ensures old(m.NoneExplored()) && ExactSolution(m).Ok? ==> OpenPathFromStart(m, ExactSolution(m).value)
    ensures old(m.NoneExplored()) ==> (m.end in order <==> Reachable(m, m.end))
  {
    ghost var u0 := m.Unexplored();
    forall c ensures c in u0 <==> m.InBounds(c) && !m.Explored(c) {
      m.InUnexplored(c);
    }
    ghost var via;
    order, via := BfsLoop(m, u0);
    r := GetSolution(m);
    BfsDone(m, order, via, u0);
    forall i {:trigger m.Link(order[i])} | 0 < i < |order|
      ensures Adjacent(m.Link(order[i]).value, order[i])
    {
      assert m.Link(order[i]) == Some(order[via[i]]);
    }
    if old(m.NoneExplored()) {
      forall c | m.InBounds(c) && m.Link(c).Some?
        ensures c in order && c != m.start
      {
        assert old(m.Link(c)).None?;
      }
      BfsExact(m, order, via, u0);
      if m.end in order {
        ExactSolutionFollowsLinks(m);
      }
    }
  }
}
