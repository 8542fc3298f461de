/** The occupancy grid, cell coordinates and the 8-connected neighbourhood. */
module Grid {

  /** A cell position; `row` is the pair's first component, `col` its second. */
  datatype Coord = Coord(row: int, col: int)

  /** Occupancy grid: a cell holding 1 is passable, any other value blocks it. */
  type Grid = seq<seq<int>>

  predicate InBounds(grid: Grid, p: Coord)
  {
    0 <= p.row < |grid| && 0 <= p.col < |grid[p.row]|
  }

  /** `checkIfBlocked`: despite the name, holds exactly when the cell is passable.
      A position outside the grid counts as not passable. */
  predicate IsPassable(grid: Grid, p: Coord)
  {
    InBounds(grid, p) && grid[p.row][p.col] == 1
  }

  /** `checkIfDestination`. */
  predicate IsDestination(p: Coord, dest: Coord)
  {
    p == dest
  }

  /** At most one step apart on each axis (a cell is adjacent to itself). */
  predicate Adjacent(a: Coord, b: Coord)
  {
    -1 <= b.row - a.row <= 1 && -1 <= b.col - a.col <= 1
  }

  /** The offsets in the order the two nested loops produce them: the row offset
      in the outer loop, the column offset in the inner one. (0, 0) is included. */
  const Offsets: seq<Coord> :=
    [Coord(-1, -1), Coord(-1, 0), Coord(-1, 1),
     Coord(0, -1),  Coord(0, 0),  Coord(0, 1),
     Coord(1, -1),  Coord(1, 0),  Coord(1, 1)]

  /** The i-th generated successor of `c`. */
  function Neighbour(c: Coord, i: int): (n: Coord)
    requires 0 <= i < |Offsets|
    ensures Adjacent(c, n)
  {
    Coord(c.row + Offsets[i].row, c.col + Offsets[i].col)
  }

  /** The position of an adjacent cell among the generated successors. */
  function NeighbourIndex(c: Coord, n: Coord): (i: int)
    requires Adjacent(c, n)
    ensures 0 <= i < |Offsets| && Neighbour(c, i) == n
  {
    (n.row - c.row + 1) * 3 + (n.col - c.col + 1)
  }

  /** The generated successors are exactly the adjacent cells, each once. */
  lemma NeighboursAreDistinct(c: Coord, i: int, j: int)
    requires 0 <= i < |Offsets| && 0 <= j < |Offsets|
    ensures Neighbour(c, i) == Neighbour(c, j) <==> i == j
  {
  }

  /** The successor loops check no bounds. Expanding a cell on the top row or
      the left column generates an off-grid successor first, at offset
      (-1, -1); a cell on the bottom row or the right column generates one
      later, and reaches it when the destination is not adjacent. Every
      successor up to that one fails the destination test, so the loops go on
      to read the off-grid cell's closed-list and grid entries. */
  lemma BorderExpansionLeavesGrid(grid: Grid, c: Coord, dest: Coord)
    requires InBounds(grid, c) && IsPassable(grid, dest)
    requires || c.row == 0 || c.col == 0
             || ((c.row == |grid| - 1 || c.col == |grid[c.row]| - 1) && !Adjacent(c, dest))
    ensures exists i | 0 <= i < |Offsets| ::
      && !InBounds(grid, Neighbour(c, i))
      && forall j | 0 <= j <= i :: !IsDestination(Neighbour(c, j), dest)
  {
    var i := if c.row == 0 || c.col == 0 then 0 else if c.row == |grid| - 1 then 7 else 5;
    assert !InBounds(grid, Neighbour(c, i));
    forall j | 0 <= j <= i
      ensures !IsDestination(Neighbour(c, j), dest)
    {
    }
  }

  /** Every in-bounds cell of the grid. */
  function AllCells(grid: Grid): (cells: set<Coord>)
    ensures forall p :: p in cells <==> InBounds(grid, p)
  {
    var cells := set r, k | 0 <= r < |grid| && 0 <= k < |grid[r]| :: Coord(r, k);
    assert forall p | InBounds(grid, p) :: p == Coord(p.row, p.col) && p in cells;
    cells
  }

  /** An 8-connected route over passable cells from `src` to `dest`. */
  ghost predicate ValidPath(grid: Grid, path: seq<Coord>, src: Coord, dest: Coord)
  {
    && |path| >= 1
    && path[0] == src
    && path[|path| - 1] == dest
    && (forall i | 0 <= i < |path| :: IsPassable(grid, path[i]))
    && (forall i | 0 < i < |path| :: Adjacent(path[i - 1], path[i]))
  }

  ghost predicate Reachable(grid: Grid, src: Coord, dest: Coord)
  {
    exists path :: ValidPath(grid, path, src, dest)
  }

  /** A set of cells that no passable successor of its members leaves. */
  ghost predicate ClosedUnderSteps(grid: Grid, region: set<Coord>)
  {
    forall c, i | c in region && 0 <= i < |Offsets| ::
      IsPassable(grid, Neighbour(c, i)) ==> Neighbour(c, i) in region
  }

  /** A region that holds `src` and is closed under passable steps holds every
      cell of every route that starts at `src`. */
  lemma {:induction false} RouteStaysInRegion(grid: Grid, region: set<Coord>, path: seq<Coord>, src: Coord, dest: Coord, k: nat)
    requires ValidPath(grid, path, src, dest)
    requires src in region && ClosedUnderSteps(grid, region)
    requires k < |path|
    ensures path[k] in region
  {
    if k > 0 {
      RouteStaysInRegion(grid, region, path, src, dest, k - 1);
      var i := NeighbourIndex(path[k - 1], path[k]);
      assert IsPassable(grid, Neighbour(path[k - 1], i));
    }
  }

  /** So such a region that leaves out `dest` rules out every route to it. */
  lemma SealedRegionBlocksRoutes(grid: Grid, region: set<Coord>, src: Coord, dest: Coord)
    requires src in region && dest !in region && ClosedUnderSteps(grid, region)
    ensures !Reachable(grid, src, dest)
  {
    if path :| ValidPath(grid, path, src, dest) {
      RouteStaysInRegion(grid, region, path, src, dest, |path| - 1);
    }
  }
}
