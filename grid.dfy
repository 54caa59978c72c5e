/** The maze grid the solver works on: the part of the Maze and MazeCell
    classes that the search and path reconstruction read and write. */
module Grid {

  datatype Option<T> = None | Some(value: T)

  /** A cell position. A MazeCell is identified by its row and column,
      which never change. */
  datatype Coord = Coord(row: int, col: int)

  /** The four neighbours of a cell, in the order the solver examines them:
      North, East, South, West. */
  function Neighbours(c: Coord): seq<Coord>
  {
    [Coord(c.row - 1, c.col), Coord(c.row, c.col + 1), Coord(c.row + 1, c.col), Coord(c.row, c.col - 1)]
  }

  /** `b` is one of the four cells next to `a`. */
  predicate Adjacent(a: Coord, b: Coord)
  {
    b in Neighbours(a)
  }

  /** No cell occurs twice in `s`: the last is not among the others, which
      are distinct themselves. */
  ghost predicate Distinct(s: seq<Coord>)
  {
    s == [] || (s[|s| - 1] !in s[..|s| - 1] && Distinct(s[..|s| - 1]))
  }

  /** The same, pair by pair. */
  lemma {:induction false} DistinctPairs(s: seq<Coord>)
    ensures Distinct(s) <==> forall i, j :: 0 <= i < j < |s| ==> s[i] != s[j]
  {
    if s != [] {
      var rest := s[..|s| - 1];
      DistinctPairs(rest);
      if Distinct(s) {
        forall i, j | 0 <= i < j < |s|
          ensures s[i] != s[j]
        {
          if j < |s| - 1 {
            assert s[i] == rest[i] && s[j] == rest[j];
          } else {
            assert s[i] in rest;
          }
        }
      }
      if forall i, j :: 0 <= i < j < |s| ==> s[i] != s[j] {
        forall i, j | 0 <= i < j < |rest|
          ensures rest[i] != rest[j]
        {
          assert rest[i] == s[i] && rest[j] == s[j];
        }
        forall k | 0 <= k < |rest|
          ensures rest[k] != s[|s| - 1]
        {
          assert rest[k] == s[k];
        }
      }
    }
  }

  /** The cells of row `r` of a grid `cols` wide. */
  ghost function Row(r: int, cols: nat): set<Coord>
  {
    set c | 0 <= c < cols :: Coord(r, c)
  }

  lemma {:induction false} RowSize(r: int, cols: nat)
    ensures |Row(r, cols)| == cols
  {
    if cols > 0 {
      assert Row(r, cols) == Row(r, cols - 1) + {Coord(r, cols - 1)};
      RowSize(r, cols - 1);
    } else {
      assert Row(r, cols) == {};
    }
  }

  /** Every cell of a `rows` by `cols` grid, row by row. */
  ghost function Cells(rows: nat, cols: nat): set<Coord>
  {
    if rows == 0 then {} else Cells(rows - 1, cols) + Row(rows - 1, cols)
  }

  lemma {:induction false} InCells(rows: nat, cols: nat, x: Coord)
    ensures x in Cells(rows, cols) <==> 0 <= x.row < rows && 0 <= x.col < cols
  {
    if rows > 0 {
      InCells(rows - 1, cols, x);
    }
  }

  /** A grid has exactly rows * cols cells. */
  lemma {:induction false} CellsSize(rows: nat, cols: nat)
    ensures |Cells(rows, cols)| == rows * cols
  {
    if rows > 0 {
      var row := Row(rows - 1, cols);
      forall x | x in Cells(rows - 1, cols) ensures x !in row {
        InCells(rows - 1, cols, x);
      }
      assert Cells(rows - 1, cols) * row == {};
      CellsSize(rows - 1, cols);
      RowSize(rows - 1, cols);
      assert rows * cols == (rows - 1) * cols + cols;
    }
  }

  lemma SubsetSize(a: set<Coord>, b: set<Coord>)
    requires a <= b
    ensures |a| <= |b|
  {
    assert b == a + (b - a);
    assert a * (b - a) == {};
  }

  /** The cells a sequence lists. */
  ghost function Elems(s: seq<Coord>): set<Coord>
  {
    set x | x in s
  }

  lemma {:induction false} DistinctElements(s: seq<Coord>)
    requires Distinct(s)
    ensures |Elems(s)| == |s|
  {
    if s != [] {
      var rest := s[..|s| - 1];
      assert Elems(s) == Elems(rest) + {s[|s| - 1]};
      assert s[|s| - 1] !in rest;
      DistinctElements(rest);
    } else {
      assert Elems(s) == {};
    }
  }

  /** Pigeonhole: a sequence of distinct cells of a grid is no longer than
      the grid has cells. */
  lemma DistinctCellsBound(rows: nat, cols: nat, s: seq<Coord>)
    requires Distinct(s)
    requires forall i :: 0 <= i < |s| ==> 0 <= s[i].row < rows && 0 <= s[i].col < cols
    ensures |s| <= rows * cols
  {
    DistinctElements(s);
    CellsSize(rows, cols);
    forall x | x in s ensures x in Cells(rows, cols) {
      InCells(rows, cols, x);
    }
    SubsetSize(Elems(s), Cells(rows, cols));
  }

  /** The maze: its extent, which cells are walls, the start and end cells,
      and the per-cell `explored` flag and `parent` link that a search
      updates in place. */
  class Maze {
    const rows: nat
    const cols: nat
    /** false where the maze has a wall */
    const open: array2<bool>
    const explored: array2<bool>
    const parent: array2<Option<Coord>>
    const start: Coord
    const end: Coord

    predicate InBounds(c: Coord)
    {
      0 <= c.row < rows && 0 <= c.col < cols
    }

    /** The arrays cover the grid and the start and end cells lie in it. */
    ghost predicate Shaped()
    {
      && open.Length0 == rows && open.Length1 == cols
      && explored.Length0 == rows && explored.Length1 == cols
      && parent.Length0 == rows && parent.Length1 == cols
      && open != explored
      && InBounds(start) && InBounds(end)
    }

    /** A parent link always names a cell of the same grid. */
    ghost predicate Valid()
      reads parent
    {
      && Shaped()
      && forall c :: InBounds(c) && Link(c).Some? ==> InBounds(Link(c).value)
    }

    /** The array readers. They are total: outside the arrays a cell reads
        as a wall, unexplored and unlinked; for a shaped maze that is
        exactly outside the grid. */
    predicate Open(c: Coord)
      reads open
    {
      0 <= c.row < open.Length0 && 0 <= c.col < open.Length1 && open[c.row, c.col]
    }

    predicate Explored(c: Coord)
      reads explored
    {
      0 <= c.row < explored.Length0 && 0 <= c.col < explored.Length1 && explored[c.row, c.col]
    }

    function Link(c: Coord): Option<Coord>
      reads parent
    {
      if 0 <= c.row < parent.Length0 && 0 <= c.col < parent.Length1 then parent[c.row, c.col] else None
    }

    /** The maze's isValidCell: inside the grid, not a wall, and not yet
        explored. */
    predicate IsValidCell(c: Coord)
      reads open, explored
    {
      InBounds(c) && Open(c) && !Explored(c)
    }

    /** No neighbour of `c` is a valid cell any more: expanding `c` again
        would add nothing to the frontier. */
    ghost predicate Settled(c: Coord)
      reads open, explored
    {
      var n := Neighbours(c);
      !IsValidCell(n[0]) && !IsValidCell(n[1]) && !IsValidCell(n[2]) && !IsValidCell(n[3])
    }

    /** The state reset() leaves: nothing explored, no parent links. */
    ghost predicate NoneExplored()
      reads explored, parent
    {
      forall c :: InBounds(c) ==> !Explored(c) && Link(c).None?
    }

    /** The cells a search may still discover; its size bounds the work left. */
    ghost function Unexplored(): set<Coord>
      reads explored
    {
      set r, c | 0 <= r < rows && 0 <= c < cols && !Explored(Coord(r, c)) :: Coord(r, c)
    }

    lemma InUnexplored(c: Coord)
      ensures c in Unexplored() <==> InBounds(c) && !Explored(c)
    {
      if InBounds(c) && !Explored(c) {
        assert Coord(c.row, c.col) in Unexplored();
      }
    }

    /** A maze as loaded: the given walls, start and end, and the reset state. */
    constructor (rows: nat, cols: nat, open: array2<bool>, start: Coord, end: Coord)
      requires open.Length0 == rows && open.Length1 == cols
      requires 0 <= start.row < rows && 0 <= start.col < cols
      requires 0 <= end.row < rows && 0 <= end.col < cols
      ensures Valid() && NoneExplored()
      ensures this.rows == rows && this.cols == cols && this.open == open
      ensures this.start == start && this.end == end
      ensures fresh(explored) && fresh(parent)
    {
      this.rows, this.cols, this.open := rows, cols, open;
      this.start, this.end := start, end;
      explored := new bool[rows, cols]((r, c) => false);
      parent := new Option<Coord>[rows, cols]((r, c) => None);
    }
  }
}
