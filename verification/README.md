# A* grid pathfinder — a Dafny model

This project models the A* search of `main.cpp`: a shortest-route search over
a grid of cells, where 1 marks a free cell and anything else a wall. Moves go
to any of the eight neighbouring cells, each move costing 1. The offset loops
also generate the popped cell itself, at offset (0, 0). That cell has just
been closed, so it is never recorded again. It matters only when the source is
the destination: then the destination test sets the source's parent to itself.
The search reports one of three outcomes:

- an endpoint is blocked;
- the route that `traceRoute` prints, with its step count;
- "unable to reach", when the open list runs dry.

The modules follow the program's pieces:

- `Grid` (grid.dfy) models `checkIfBlocked`, `checkIfDestination` and the
  successor offsets. It also defines what a valid 8-connected route is.
- `Frontier` (frontier.dfy) models the open list, a min-priority queue of
  `(f, row, col)` tuples ordered lexicographically, and its `top` plus `pop`.
- `Search` (search.dfy) models `struct cell`, the closed list, and the
  expansion of one popped cell:
  - `Relax` is one successor that is not the destination;
  - `Expand` is the two nested offset loops, which stop at the destination.
- `Trace` (trace.dfy) models `traceRoute`: the do-while loop that pushes
  parents, then the loop that pops and counts.
- `Pathfinder` (pathfinder.dfy) models `aStar`: the endpoint check, the main
  loop and the three reports.
- `Example` (example.dfy) models the driver's 10x10 grid and its call from
  (0, 0) to (9, 9).

Outputs that the program prints are returned as values (`Outcome`).

The heuristic `calculateHValue` is a parameter. The model requires only that
it is never negative, as a square root is not.

The correctness argument rests on three facts:

1. Every record is "bookkept", except the source's root record and, once it
   has been generated, the destination's. A bookkept record's g is one more
   than its parent's, its parent is an adjacent closed cell, and its
   f = g + h. The source's root record is its own parent with all costs 0.
   The generated destination keeps its old record with only the parent set.
2. Every closed cell has all nine successors "settled". A settled successor is
   closed, blocked, or recorded with an f no larger than this cell would give
   it.
3. Every recorded open cell has a matching entry in the open list.

From these:

- The reported route, minus its repeated last cell and extended by the
  destination, is a valid passable route from source to destination.
- When the open list runs dry, the closed cells form a region that holds the
  source, leaves out the destination, and has no passable successor outside
  it. So no route exists.

Together these give: a route is reported exactly when both endpoints are
passable and a route exists. The loop terminates by the measure (in-bounds
cells not yet closed, length of the open list). Popping a stale entry of a
closed cell is a proven no-op.

Where the code does something other than its comments, or the usual account
of A*, suggest, the model follows the code:

- Ties in the open list are broken by row, then column (the tuple order of
  `std::greater`), not arbitrarily.
- The offset loops generate nine successors, including the cell itself, not
  the eight the comment at main.cpp:127 mentions.
- The printed route is not source-to-destination. It is the walk from the
  source to the destination's parent, followed by that parent once more. The
  destination is never printed, unless it is the source.
- The step count is the length of that walk. So a search whose source equals
  its destination reports one step, with the source printed twice.
- The driver's grid needs 11 moves from (0, 0) to (9, 9), not the 9 of a
  straight diagonal. The wall at (7, 7), (7, 8), (7, 9) and (8, 7) forces the
  detour.

## Model

| member | source | states |
|---|---|---|
| Grid.Neighbour | main.cpp:129-131 | the i-th generated successor of a cell is adjacent to it (at most one step on each axis) |
| Grid.NeighbourIndex | main.cpp:129-131 | every adjacent cell, the cell itself included, is generated by the two offset loops, at the index given by its offsets |
| Grid.NeighboursAreDistinct | main.cpp:129-131 | two successors of one cell coincide exactly when their loop indices are equal, so each adjacent cell is generated once |
| Grid.AllCells | main.cpp:96-97 | the cells of the closed-list array are exactly the in-bounds positions |
| Grid.BorderExpansionLeavesGrid | main.cpp:129-141 | expanding a cell on the top row or left column, or one on the bottom row or right column that is not adjacent to the destination, reaches an off-grid successor: every successor generated up to it fails the destination test, so the code reads the off-grid cell's closed-list and grid entries unchecked |
| Grid.RouteStaysInRegion | main.cpp:163-164 | a region that holds the source and contains every passable successor of its members contains every cell of every route from the source |
| Grid.SealedRegionBlocksRoutes | main.cpp:163-164 | if such a region leaves out the destination, no route to the destination exists |
| Frontier.TupleOrderIsTotal | main.cpp:16 | the (f, row, col) tuple order is total and antisymmetric |
| Frontier.LeastEntryIsUnique | main.cpp:115-120 | two entries that are both least in the queue are equal, so the top of the queue is determined by its contents |
| Frontier.PopMin | main.cpp:115-124 | `top` then `pop` returns an entry no later than any other in the queue and removes exactly one occurrence of it, leaving the rest as a multiset |
| Search.ImprovesIsTransitive | main.cpp:148-156 | records only improve across successive successor steps: none lost or worsened, closed ones untouched, no queue entry dropped |
| Search.RelaxImproves | main.cpp:140-157 | a successor's record changes only when it is off the closed list, passable, and either unvisited or offered a strictly smaller f; then its parent becomes the expanded cell and it is queued with the new f; nothing else changes |
| Search.OtherRecordKept | main.cpp:153-156 | rewriting one record keeps the g-chain of every record whose parent is another cell |
| Search.RewrittenRecordKept | main.cpp:142-156 | a rewritten record has the expanded cell as an adjacent parent, g one more than the parent's, and f = g + h |
| Search.RelaxKeepsBookkeeping | main.cpp:140-157 | after a successor step every record stays bookkept: the source keeps its root record, and every other record has an adjacent parent one g-step closer to the source and f = g + h |
| Search.RelaxKeepsInvariant | main.cpp:140-157 | a successor step keeps every recorded open cell queued with its f, and every queue entry no better than its record |
| Search.SettledAtKept | main.cpp:140-157 | a successor settled against a closed cell stays settled as records improve and the closed list grows |
| Search.RelaxSettles | main.cpp:140-157 | after successor k is handled it is closed, blocked, or recorded with an f no larger than the expanded cell offers, and no earlier successor is unsettled |
| Search.RelaxStep | main.cpp:140-157 | one successor step keeps the invariant, settles that successor and only improves the state |
| Search.DestinationGenerated | main.cpp:134-137 | generating the destination sets only its parent, to a closed adjacent cell with a non-negative g; every other record keeps its bookkeeping |
| Search.ExpandReaches | main.cpp:129-138 | if the offset loops meet the destination, the records handed to `traceRoute` have the popped cell, closed and adjacent, as the destination's parent, and every other record stays bookkept |
| Search.ExpandSettles | main.cpp:129-160 | if the offset loops finish, the invariant holds, all nine successors of the popped cell are settled, and the closed list is unchanged |
| Search.ExpandImproves | main.cpp:129-160 | a finished expansion loses or worsens no record, changes no closed record, and drops no queue entry |
| Search.SettledCellIsNotDestination | main.cpp:129-135 | a fully expanded cell is not the destination, since the (0, 0) offset generates the cell itself |
| Search.FinishedExpansion | main.cpp:129-160 | from the first successor: a finished expansion keeps the invariant, settles the popped cell, only improves the state, and that cell is not the destination |
| Search.ReachingExpansion | main.cpp:129-138 | from the first successor: an expansion that meets the destination leaves records fit for `traceRoute`, with the popped cell as the destination's parent |
| Search.SettledRelaxIsNoOp | main.cpp:140-157 | a successor already settled against the expanded cell is left untouched |
| Search.StaleExpansionIsNoOp | main.cpp:119-160 | popping a stale duplicate entry of an already-expanded cell changes no record and no queue entry |
| Search.ExpandPopped | main.cpp:125-160 | the expansion of a popped cell either reaches the destination with that cell as its parent, or settles all its successors while the closed list stays the same, no record is lost or worsened, no closed record changes and no queue entry is dropped; a stale pop changes nothing |
| Trace.Walk | main.cpp:60-70 | following parent links from a recorded cell ends at a self-parented root; the cells met form a rooted parent chain ending at that cell |
| Trace.RootedChainIsWalk | main.cpp:63-70 | that walk is the only rooted parent chain ending at the cell |
| Trace.PushChain | main.cpp:57-70 | the do-while loop leaves on the stack the walk from the root to the destination's parent, then that parent again; the destination is never pushed unless it is the source |
| Trace.PopAll | main.cpp:58-76 | the pop loop emits the stack top first and counts one step fewer than it emits |
| Trace.TraceRoute | main.cpp:52-79 | the emitted cells are a rooted parent chain followed by the destination's parent repeated; the step count is the chain length, at least 1; the chain extended by the destination is a parent chain |
| Pathfinder.ReachedIsRanked | main.cpp:134-136 | when the destination is generated, every parent link from a non-root record with a non-negative g leads to a strictly smaller non-negative g, so the trace from the destination's parent terminates |
| Pathfinder.ReachedChainIsRoute | main.cpp:134-136 | the traced parent chain, extended by the destination, is a passable 8-connected route from the source |
| Pathfinder.ExhaustedIsSealed | main.cpp:119-164 | when the open list is empty, the closed cells hold the source and every passable successor of each closed cell |
| Pathfinder.PopKeepsInvariant | main.cpp:120-125 | closing the popped cell keeps every open record queued and every record bookkept |
| Pathfinder.PopKeepsSettled | main.cpp:120-125 | closing the popped cell unsettles no other closed cell, and a cell closed before stays fully settled |
| Pathfinder.PopReadiesExpansion | main.cpp:119-125 | after a pop the state meets what the expansion needs; the destination is closed only if it is the source |
| Pathfinder.ExpandedKeepsLoopInvariant | main.cpp:119-161 | a loop turn that does not reach the destination keeps the loop invariant |
| Pathfinder.ExpandedMakesProgress | main.cpp:119-161 | such a turn closes a new in-bounds cell, or leaves the closed list alone and shortens the open list |
| Pathfinder.StartMeetsLoopInvariant | main.cpp:99-117 | the source's root record and the single open entry (0, source) meet the loop invariant |
| Pathfinder.PopAndExpand | main.cpp:119-161 | one loop turn either reaches the destination with records fit for tracing, or keeps the loop invariant, decreases the termination measure, only grows the closed list and loses or worsens no record |
| Pathfinder.ReportFound | main.cpp:134-137 | the route reported on reaching the destination, extended by it, is a valid route from the source; its last two cells are the destination's parent |
| Pathfinder.ReportUnreachable | main.cpp:163-164 | "unable to reach" is reported only when no route from source to destination exists |
| Pathfinder.SearchLoop | main.cpp:94-164 | with both endpoints passable, the search ends with a valid route or with proof that none exists, and every record but the destination's bookkept |
| Pathfinder.AStar | main.cpp:84-165 | blocked exactly when an endpoint is not passable; found exactly when both are passable and a route exists; the found route is valid and ends at the destination's parent; otherwise the open list is empty, the source closed and the destination not |
| Example.MainGridHasRoute | main.cpp:173-188 | the driver's grid has a route from (0, 0) to (9, 9) around the wall |
| Example.MainRun | main.cpp:186-190 | the driver's call reports a valid route, whatever non-negative estimate is used |
| Example.BlockedRun | main.cpp:89-91 | a search starting on a wall cell of the driver's grid reports a blocked endpoint |

## Left out

- `calculateHValue`: the Euclidean distance uses floating-point `sqrt` and `pow`. It is a parameter of the model, required only to be non-negative. Floating-point rounding is not modelled: `f`, `g` and `h` are exact.
- `struct cell`: `g` is a `double` in the source and an integer here. Every step adds exactly 1.0, so the values coincide for any grid that fits in memory.
- The `printf` output of `aStar` and `traceRoute` is not modelled. The model returns the emitted cells, the step count and the outcome instead.
- Pathfinder.AStar: does not state that the reported route is a shortest one. The code stops as soon as the destination is generated, not when it is popped, and any non-negative estimate is allowed. So the promise of a shortest route does not follow from the code, and the model makes no such claim.
- Out-of-range positions: indexing `grid` or `closed_list` outside the array is undefined behaviour in the source. The model treats such a position as not passable, for the endpoints as well as for successors (see Findings).
- The fixed `ROW` and `COL` template sizes are not modelled. The grid is any sequence of rows, and positions are checked against each row's own length.
- The open list returned with a found route is the one left right after the last pop. Entries that the same expansion queued before it generated the destination are not carried along, because the program returns at that point and never uses them.
- `main` itself is not modelled as a program. Its grid and call are modelled in `Example`, without the printing.

## Findings

| source | as written | input that shows it | evidently intended | confidence | as-written member | corrected member |
|---|---|---|---|---|---|---|
| main.cpp:129-141 | successors are generated at every offset and `closed_list` and `grid` are indexed at them with no bounds check | the driver's own call: the source (0, 0) is expanded first, and its first successor is (-1, -1) | skip successors outside the grid, as for blocked cells | high; not executed | Grid.BorderExpansionLeavesGrid | Search.RelaxImproves |
