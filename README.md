# MazeSolver in Dafny

A model of the solver class of the MazeSolver program. The program solves a
rectangular maze of cells; some cells are walls. It searches from a start
cell with a depth-first search driven by a stack, or with a breadth-first
search driven by a queue. Each search marks the cells it adds to its
frontier as explored and records a parent link for each cell it reaches.
`getSolution` then walks the parent links back from the end cell onto a
stack and pops them into a list that runs from the start to the end.

The model has three modules:

- `Grid` holds the maze.
  - A cell is a `Coord`.
  - The `Maze` class holds the extent of the grid, the walls (`open`), the
    start and end cells, and two arrays that a search updates in place: the
    explored flags and the parent links.
  - `IsValidCell` is the maze's isValidCell: in the grid, not a wall, not yet
    explored.
  - `Settled(c)` says that expanding `c` again would add nothing.
- `Paths` holds getSolution.
  - `Backtrack` is the backward walk, and `Solution` is what getSolution
    returns.
  - `GetSolution` is the method with the two loops, proved equal to
    `Solution`.
  - The module also proves lemmas about the list, and the corrected
    reconstruction `ExactSolution` (see Findings).
- `MazeSolver` holds the two searches.
  - `Expand` is the four North, East, South, West blocks that both searches
    repeat.
  - The depth-first search is `SolveMazeDFS`: its loop is `DfsLoop`, one
    iteration is `PushNeighbours` then `PopNext`.
  - The breadth-first search is `SolveMazeBFS`: its loop is `BfsLoop`, one
    iteration is `BfsStep`.
  - Each search also returns a ghost log: for DFS the popped cells and the
    cells left on the stack, for BFS the cells in the order they were
    queued. Its contract states the explored flags exactly in terms of that
    log (explored after the search means explored before or logged), and
    the parent links of the logged cells.
  - `Reachable(m, c)` says that some walk from the start through open
    cells, one neighbour at a time, ends at `c`. On a fresh maze the
    depth-first search succeeds exactly when the end cell is reachable. The
    breadth-first search queues the end cell exactly when it is reachable,
    and the corrected reconstruction `ExactSolution` then succeeds. Its
    actual result, getSolution as written, does not have this property: an
    end cell in the start's row or column gives [start, end] even when it
    is unreachable (`WalledRowSolved`), and an unreachable end cell off
    those lines gives `MissingParent`.

A Java exception becomes an `Err` result:

- the `EmptyStackException` of the depth-first pop is `EmptyFrontier`;
- the `NullPointerException` of a backward walk reaching a cell with no
  parent is `MissingParent`.

A backward walk caught in a cycle of parent links would loop forever in the
source. The model caps the walk at one link per grid cell and returns
`EndlessWalk`; `CapSuffices` proves that the uncapped walk would never stop
either.

## Model

| member | source | states |
|---|---|---|
| Paths.PopAll | src/MazeSolver.java:48-50 | emptying the stack gives its cells in reverse order (top first) |
| Paths.ReverseAt | src/MazeSolver.java:48-50 | cell i of the popped list is cell \|s\|-1-i of the stack |
| Paths.GetSolution | src/MazeSolver.java:33-52 | the method with its two loops returns exactly `Solution(m)`: the walk back from the end cell, with the start pushed once more, reversed; or MissingParent / EndlessWalk |
| Paths.TrailFollowsLinks | src/MazeSolver.java:40-44 | the pushed cells start at the end cell, stay in the grid, each non-stopping cell is followed by its parent, and the walk stops at the first cell sharing the start's row or column |
| Paths.SolutionEnds | src/MazeSolver.java:33-52 | a successful result has at least two cells, starts at the start cell and ends at the end cell |
| Paths.SolutionFollowsLinks | src/MazeSolver.java:40-45 | after the appended start, the list is the reversed parent chain; its second cell is the one where the walk stopped, and no later cell shares the start's row or column |
| Paths.SharedLineSolution | src/MazeSolver.java:41-45 | an end cell in the start's row or column gives exactly [start, end], whatever the links |
| Paths.UnlinkedEndFails | src/MazeSolver.java:41-43 | an end cell off the start's row and column with no parent fails with MissingParent |
| Paths.UnfinishedFollows | src/MazeSolver.java:41-44 | a walk that uses up its cap has passed cap + 1 linked cells, none of which stops it |
| Paths.StaysUnfinished | src/MazeSolver.java:41-44 | a walk inside a set of non-stopping cells whose parents stay in the set never ends, whatever the cap |
| Paths.CapSuffices | src/MazeSolver.java:41-44 | a walk not finished within rows*cols links is not finished for any cap (pigeonhole on the grid's cells) |
| Paths.EndlessWalkNeverStops | src/MazeSolver.java:41-44 | EndlessWalk is reported only where the source's loop runs forever |
| Paths.StartIsEndTwice | src/MazeSolver.java:45 | as written, a start cell that is also the end cell gives [start, start] |
| Paths.OrStopSkipsCells | src/MazeSolver.java:41 | as written, on a 3x3 grid the list jumps from (0,0) to the non-adjacent (0,2) and drops the linked cells in between |
| Paths.ExactSolutionFollowsLinks | src/MazeSolver.java:41-45 | corrected, the list starts at the start, ends at the end, names the start once, stays in the grid, and each cell is the parent of the next |
| Paths.ExactStartIsEnd | src/MazeSolver.java:45 | corrected, a start cell that is also the end cell is listed once |
| Paths.ExactKeepsEveryCell | src/MazeSolver.java:41 | corrected, the 3x3 example keeps every cell of the parent chain |
| MazeSolver.StartReachable | src/MazeSolver.java:61-64 | the start cell, where both searches begin, is reachable by the one-cell walk |
| MazeSolver.ReachStep | src/MazeSolver.java:69-92 | an open neighbour in the grid of a reachable cell is reachable |
| MazeSolver.StepIn | src/MazeSolver.java:69-92 | an open neighbour in the grid of a cell reached within k steps is reached within k + 1 steps |
| MazeSolver.ReachableInWalk | src/MazeSolver.java:69-92 | a cell reached within some number of neighbour steps has an open walk from the start to it |
| MazeSolver.Push | src/MazeSolver.java:69-92 | pushing cells keeps the old and adds the new ones, and distinct new cells not already present keep the frontier free of repetitions |
| MazeSolver.WalledRowSolved | src/MazeSolver.java:41-45 | as written, on a 1x3 grid with a wall in the middle, getSolution returns [start, end] although the end cell is not reachable |
| MazeSolver.ValidAmongKeeps | src/MazeSolver.java:69-92 | the cells an expansion collects are exactly the valid ones among the neighbours, and distinct neighbours give distinct cells |
| MazeSolver.Discover | src/MazeSolver.java:129-135 | one block: reports whether the neighbour was valid; if so marks it explored (and links it to the head in BFS); nothing else changes |
| MazeSolver.ExpandBlocks | src/MazeSolver.java:129-156 | the four blocks collect the valid neighbours in the order N, E, S, W, mark exactly them explored, and link exactly them (BFS) or no cell (DFS) |
| MazeSolver.Expand | src/MazeSolver.java:69-92 | the same, plus: the collected cells are distinct, adjacent, open and were unexplored; afterwards the expanded cell is settled; no cell becomes valid; settled cells stay settled |
| MazeSolver.LinkedWalkReaches | src/MazeSolver.java:41-44 | if every cell after the start in an order is linked to an earlier one, the walk back from any of them stops within the cap |
| MazeSolver.LinkedEndSolves | src/MazeSolver.java:33-52 | if the end cell is in such an order, getSolution succeeds, both as written and corrected |
| MazeSolver.ClosedSearchCoversPaths | src/MazeSolver.java:120-158 | if every found cell is settled and every explored cell was found, every open walk from the start ends at a found cell |
| MazeSolver.PopVisited | src/MazeSolver.java:95-97 | popping the top of the stack moves it to the popped cells and makes it current, keeping the search state |
| MazeSolver.PopCells | src/MazeSolver.java:95 | after a pop, the stack and popped cells are still distinct, disjoint and exactly the newly explored cells |
| MazeSolver.PopWithin | src/MazeSolver.java:95 | a pop moves a cell from the stack to the popped cells, so every found cell stays reachable within the same number of steps |
| MazeSolver.LinkNext | src/MazeSolver.java:96 | linking the popped cell to the current cell extends the chain of popped cells; no other link changes |
| MazeSolver.ChainGrows | src/MazeSolver.java:96 | in the chain, each popped cell is linked to the cell popped before it (the first to the start) |
| MazeSolver.PushNeighbours | src/MazeSolver.java:69-92 | the stack grows by the valid neighbours of the current cell in the order N, E, S, W; the current cell is settled; no link changes |
| MazeSolver.PopNext | src/MazeSolver.java:95-97 | pops the top, which becomes current and is linked to the previous current cell; no other link changes |
| MazeSolver.PoppedBound | src/MazeSolver.java:67 | no more cells can be popped than the grid has cells, which bounds the loop |
| MazeSolver.DfsExhausted | src/MazeSolver.java:95 | when the pop finds an empty stack, every popped cell is settled; on a fresh maze no open walk from the start reaches the end, so the end is not reachable |
| MazeSolver.DfsArrived | src/MazeSolver.java:103 | when the current cell is the end cell, getSolution succeeds, both as written and corrected |
| MazeSolver.DfsArrivedReachable | src/MazeSolver.java:66-97 | every stacked or popped cell was found through a neighbour of the start or of a popped cell, so the end cell, once current, is reachable |
| MazeSolver.DfsCellsSince | src/MazeSolver.java:66-97 | the stack holds distinct cells that were open and unexplored and are not popped; the explored cells are those explored before, the popped cells and the stacked cells |
| MazeSolver.DfsLoop | src/MazeSolver.java:66-102 | the loop stops at the end cell with the search state intact, or at an empty stack with every popped cell expanded; only links of popped cells change |
| MazeSolver.SolveMazeDFS | src/MazeSolver.java:58-104 | returns getSolution's result or EmptyFrontier; popped cells are distinct, open, newly explored, each linked to the cell popped before it; the cells left on the stack are distinct, open, were unexplored and were not popped; explored means explored before, popped or stacked; on EmptyFrontier the stack is empty and the end was never reached; a success means the end is reachable, and on a fresh maze the search succeeds exactly when the end is reachable |
| MazeSolver.VisitedGrows | src/MazeSolver.java:123-156 | an expansion of the head keeps the queued cells distinct, open and once unexplored, and exactly the explored cells; the head becomes settled |
| MazeSolver.LinksGrow | src/MazeSolver.java:130-153 | each newly queued cell is linked to the head, one of its neighbours, queued earlier; older links stay |
| MazeSolver.StepKeeps | src/MazeSolver.java:123-156 | the effects `Expand` promises keep the breadth-first state |
| MazeSolver.ExpandHead | src/MazeSolver.java:129-156 | expanding the head appends its valid neighbours N, E, S, W to the order, keeps the state, and leaves the start's link alone |
| MazeSolver.Dequeue | src/MazeSolver.java:123 | removing the head and appending the new cells leaves the queue equal to the not-yet-expanded suffix of the order |
| MazeSolver.BfsStep | src/MazeSolver.java:121-158 | one iteration: the new queue is the rest of the old one plus the head's valid neighbours, and the state is kept |
| MazeSolver.BfsBound | src/MazeSolver.java:121 | no more cells can be queued than the grid has cells, which bounds the loop |
| MazeSolver.BfsLoop | src/MazeSolver.java:117-158 | marks the start explored, queues it, and runs until the queue is empty; only links of queued cells change, the start's never |
| MazeSolver.QueuedIsLinked | src/MazeSolver.java:131-152 | a queued cell other than the start is open and linked to one of its four neighbours |
| MazeSolver.BfsDone | src/MazeSolver.java:121-159 | with the queue empty every queued cell is settled, each is linked to an earlier one, getSolution succeeds if the end was queued, and on a fresh maze every cell reachable by an open walk was queued |
| MazeSolver.BfsExact | src/MazeSolver.java:41-45 | on a fresh maze, the corrected reconstruction succeeds exactly when the end was queued, and then lists an open walk from start to end |
| MazeSolver.SolveMazeBFS | src/MazeSolver.java:110-161 | returns getSolution's result; each cell is queued once, is open and was unexplored; explored means explored before or queued; each queued cell is linked to an earlier queued neighbour; the start's link is untouched; on a fresh maze the queued cells are exactly those an open walk reaches, the end is queued exactly when it is reachable, and the corrected path is such a walk |

## Left out

- `main`, the constructors, `setMaze`, and the Maze and MazeCell classes are not modelled. Of Maze only what the solver calls is modelled: the grid, walls, start and end, the explored flag, the parent link, and isValidCell as in the grid, not a wall and not explored.
- A cell's parent is stored as the parent's coordinates rather than as an object reference. Cells are identified by row and column, which never change.
- Exceptions become `Err` results. The non-terminating backward walk of getSolution becomes `EndlessWalk` after rows * cols links; `CapSuffices` shows that the cap loses nothing.
- The four copied blocks of each search are one loop (`ExpandBlocks`) over the neighbours N, E, S, W. It returns the cells it found, and the caller appends them to its stack or queue; the order is the same as in the source.
- MazeSolver.SolveMazeDFS: it states only that each popped cell is linked to the cell popped before it. That cell need not be a neighbour, and neither are consecutive cells of its result. It does not prove that a successful DFS result is a walk through the maze.
- MazeSolver.SolveMazeBFS: it does not prove that the path is a shortest one. It proves that the path is an open walk from start to end, and only on a fresh maze with the corrected reconstruction.
- The reachability statements need a maze in the reset state (`NoneExplored`). On a maze that a previous search left explored, the searches skip the cells that search explored.

## Findings

| source | as written | input that shows it | evidently intended | confidence | as-written member | corrected member |
|---|---|---|---|---|---|---|
| src/MazeSolver.java:41 | the backward walk stops at the first cell sharing the start's row OR column (`&&` of two `!=`) | 3x3 grid, start (0,0), end (2,2), links (2,2)->(1,2)->(0,2)->(0,1)->(0,0): the list is [(0,0),(0,2),(1,2),(2,2)], which jumps over (0,1) | walk until the start cell itself, so the list follows the parent chain cell by cell | high; not executed | Paths.OrStopSkipsCells | Paths.ExactSolutionFollowsLinks |
| src/MazeSolver.java:41 | the same stop test makes any end cell in the start's row or column a success, whatever the walls | fresh 1x3 grid [open, wall, open], start (0,0), end (0,2): the breadth-first search returns [(0,0),(0,2)], yet no open walk reaches (0,2) | succeed only when the parent chain reaches the start | high; not executed | MazeSolver.WalledRowSolved | MazeSolver.BfsExact |
| src/MazeSolver.java:45 | the start cell is pushed after the walk even when the walk already ended at it | start = end: the list is [start, start] | list the start cell once | medium; not executed | Paths.StartIsEndTwice | Paths.ExactStartIsEnd |

The searches keep calling getSolution as written, so `Solution` is what they
return. Their contracts also state what the corrected reconstruction
`ExactSolution` gives: `SolveMazeBFS` proves that on a fresh maze it
succeeds exactly when the end was reached, and that it then lists an open
walk from start to end.
