/** The driver's scenario: a 10x10 grid with a short wall near the bottom-right
    corner, searched from (0, 0) to (9, 9). */
module Example {
  import opened Grid
  import opened Search
  import opened Pathfinder

  /** A row with no blocked cell. */
  const OpenRow: seq<int> := [1, 1, 1, 1, 1, 1, 1, 1, 1, 1]

  /** The driver's grid; 0 marks a blocked cell. */
  const MainGrid: Grid :=
    [OpenRow, OpenRow, OpenRow, OpenRow, OpenRow, OpenRow, OpenRow,
     [1, 1, 1, 1, 1, 1, 1, 0, 0, 0],
     [1, 1, 1, 1, 1, 1, 1, 0, 1, 1],
     OpenRow]

  /** A route around the wall: down the diagonal, below the wall, then along
      the last row. */
  lemma MainGridHasRoute()
    ensures Reachable(MainGrid, Coord(0, 0), Coord(9, 9))
  {
    var path := [Coord(0, 0), Coord(1, 1), Coord(2, 2), Coord(3, 3), Coord(4, 4), Coord(5, 5),
                 Coord(6, 6), Coord(7, 6), Coord(8, 6), Coord(9, 7), Coord(9, 8), Coord(9, 9)];
    forall i | 0 <= i < |path|
      ensures IsPassable(MainGrid, path[i])
    {
      assert MainGrid[path[i].row][path[i].col] == 1;
    }
    assert ValidPath(MainGrid, path, Coord(0, 0), Coord(9, 9));
  }

  /** The driver's call finds a route whatever non-negative estimate replaces
      the Euclidean distance, and the route it reports is a valid one. */
  method MainRun(h: Heuristic) returns (out: Outcome)
    requires NonNegative(h)
    ensures out.Found? && 1 <= out.steps < |out.route|
    ensures ValidPath(MainGrid, out.route[..out.steps] + [Coord(9, 9)], Coord(0, 0), Coord(9, 9))
  {
    MainGridHasRoute();
    var st;
    out, st := AStar(MainGrid, h, Coord(0, 0), Coord(9, 9));
  }

  /** A search that starts on a wall cell reports a blocked endpoint. */
  method BlockedRun(h: Heuristic) returns (out: Outcome)
    requires NonNegative(h)
    ensures out.Blocked?
  {
    var st;
    out, st := AStar(MainGrid, h, Coord(7, 7), Coord(9, 9));
  }
}
