/** `aStar`: the search loop and its three outcomes. */
module Pathfinder {
  import opened Grid
  import opened Frontier
  import opened Search
  import opened Trace

  /** The three reports: an endpoint is blocked; the route that `traceRoute`
      emits with its step count; or the open list ran dry. */
  datatype Outcome = Blocked | Found(route: seq<Coord>, steps: int) | Unreachable

  /** The records left when the destination was generated satisfy what the
      trace walk needs: it terminates from the destination's parent. */
  lemma ReachedIsRanked(pb: Problem, st: State, records: Records)
    requires ReachedBy(pb, st, records)
    ensures Ranked(records)
  {
    forall n | n in records && records[n].g >= 0 && records[n].parent != n
      ensures records[n].parent in records && 0 <= records[records[n].parent].g < records[n].g
    {
      assert n != pb.dest;
      assert Bookkept(pb, records, n);
      var q := records[n].parent;
      if q != pb.dest {
        assert Bookkept(pb, records, q);
      }
    }
  }

  /** A rooted parent chain through the final records, extended by the
      destination, is an 8-connected passable route from source to destination. */
  lemma ReachedChainIsRoute(pb: Problem, st: State, records: Records, path: seq<Coord>)
    requires ReachedBy(pb, st, records)
    requires |path| >= 2 && path[|path| - 1] == pb.dest
    requires RootedChain(records, path[..|path| - 1]) && ParentChain(records, path)
    ensures ValidPath(pb.grid, path, pb.src, pb.dest)
  {
    var root := path[0];
    assert records[root].parent == root;
    if root != pb.dest {
      assert Bookkept(pb, records, root);
    }
    forall i | 0 <= i < |path|
      ensures IsPassable(pb.grid, path[i])
    {
      if path[i] != pb.dest {
        assert Bookkept(pb, records, path[i]);
      }
    }
    forall i | 0 < i < |path|
      ensures Adjacent(path[i - 1], path[i])
    {
      assert records[path[i]].parent == path[i - 1];
      if path[i] != pb.dest {
        assert Bookkept(pb, records, path[i]);
      }
    }
  }

  /** When the open list is empty, the closed cells hold the source, leave out
      the destination, and contain every passable successor of each of them. */
  lemma ExhaustedIsSealed(pb: Problem, st: State)
    requires Invariant(pb, st) && AllSettled(pb, st)
    requires pb.dest !in st.closed && st.open == []
    ensures pb.src in st.closed && ClosedUnderSteps(pb.grid, st.closed)
  {
    forall c, i | c in st.closed && 0 <= i < |Offsets| && IsPassable(pb.grid, Neighbour(c, i))
      ensures Neighbour(c, i) in st.closed
    {
      assert SettledAt(pb, st, c, i);
    }
  }

  /** Popping an entry and closing its cell keeps the invariant. */
  lemma PopKeepsInvariant(pb: Problem, st: State, e: Entry, rest: seq<Entry>)
    requires Invariant(pb, st) && Popped(st, e, rest)
    ensures Invariant(pb, State(st.records, st.closed + {At(e)}, rest))
  {
    var popped := State(st.records, st.closed + {At(e)}, rest);
    assert forall n {:trigger Bookkept(pb, popped.records, n)} | n in st.records :: Bookkept(pb, popped.records, n);
    forall n | n in st.records && n !in popped.closed
      ensures Entry(st.records[n].f, n.row, n.col) in rest
    {
      assert Entry(st.records[n].f, n.row, n.col) in st.open;
    }
  }

  /** Closing the popped cell leaves every other closed cell settled; a cell
      that was closed already stays fully settled. */
  lemma PopKeepsSettled(pb: Problem, st: State, e: Entry, rest: seq<Entry>)
    requires Invariant(pb, st) && AllSettled(pb, st)
    requires e in st.open
    ensures Settled(pb, State(st.records, st.closed + {At(e)}, rest), At(e), 0)
    ensures At(e) in st.closed ==> Settled(pb, State(st.records, st.closed + {At(e)}, rest), At(e), |Offsets|)
  {
    var cur := At(e);
    var popped := State(st.records, st.closed + {cur}, rest);
    forall c, i | c in popped.closed && 0 <= i < |Offsets| && c != cur
      ensures SettledAt(pb, popped, c, i)
    {
      SettledAtKept(pb, st, popped, c, i);
    }
    if cur in st.closed {
      forall c, i | c in popped.closed && 0 <= i < |Offsets|
        ensures SettledAt(pb, popped, c, i)
      {
        SettledAtKept(pb, st, popped, c, i);
      }
    }
  }

  /** The loop invariant of `aStar`. */
  ghost predicate LoopInvariant(pb: Problem, st: State)
  {
    && Invariant(pb, st) && AllSettled(pb, st)
    && pb.dest !in st.closed
    && (pb.src in st.closed || (st.closed == {} && st.open == [Entry(0.0, pb.src.row, pb.src.col)]))
  }

  /** `rest` is the open list with the popped entry `e` taken out once. */
  ghost predicate Popped(st: State, e: Entry, rest: seq<Entry>)
  {
    && e in st.open
    && (forall x | x in st.open && x != e :: x in rest)
    && (forall x | x in rest :: x in st.open)
    && |rest| + 1 == |st.open|
  }

  /** After a pop, the state meets what the expansion of the popped cell needs. */
  lemma PopReadiesExpansion(pb: Problem, st: State, e: Entry, rest: seq<Entry>)
    requires LoopInvariant(pb, st) && Popped(st, e, rest)
    ensures var popped := State(st.records, st.closed + {At(e)}, rest);
      && Invariant(pb, popped) && Settled(pb, popped, At(e), 0)
      && (At(e) in st.closed ==> Settled(pb, popped, At(e), |Offsets|))
      && (pb.dest == pb.src ==> At(e) == pb.src)
      && (pb.dest != pb.src ==> pb.dest !in popped.closed)
  {
    PopKeepsInvariant(pb, st, e, rest);
    PopKeepsSettled(pb, st, e, rest);
    assert At(e) in st.records;
  }

  /** A pop-and-expand that does not reach the destination keeps the loop
      invariant. */
  lemma ExpandedKeepsLoopInvariant(pb: Problem, st: State, e: Entry, rest: seq<Entry>, st2: State)
    requires LoopInvariant(pb, st) && Popped(st, e, rest)
    requires Invariant(pb, st2) && Settled(pb, st2, At(e), |Offsets|)
    requires st2.closed == st.closed + {At(e)} && At(e) != pb.dest
    ensures LoopInvariant(pb, st2)
  {
  }

  /** A pop-and-expand that does not reach the destination makes progress: a
      new cell is closed, or (a stale entry) nothing changes but the open list,
      which is shorter. */
  lemma ExpandedMakesProgress(grid: Grid, st: State, e: Entry, rest: seq<Entry>, st2: State)
    requires Popped(st, e, rest) && InBounds(grid, At(e))
    requires st2.closed == st.closed + {At(e)}
    requires At(e) in st.closed ==> st2 == State(st.records, st.closed + {At(e)}, rest)
    ensures || |AllCells(grid) - st2.closed| < |AllCells(grid) - st.closed|
            || (st2.closed == st.closed && |st2.open| < |st.open|)
  {
    if At(e) !in st.closed {
      var smaller := AllCells(grid) - st2.closed;
      assert AllCells(grid) - st.closed == smaller + {At(e)} && At(e) !in smaller;
    }
  }

  /** The state after the endpoint check meets the loop invariant. */
  lemma StartMeetsLoopInvariant(pb: Problem)
    requires IsPassable(pb.grid, pb.src)
    ensures LoopInvariant(pb, Start(pb.src))
  {
    assert Bookkept(pb, Start(pb.src).records, pb.src);
  }

  /** One turn of the `aStar` loop: pop the least entry, close its cell and
      expand it. Returns the expansion's result and the state it started from. */
  method PopAndExpand(pb: Problem, st: State) returns (step: Step, popped: State)
    requires NonNegative(pb.h) && IsPassable(pb.grid, pb.dest)
    requires LoopInvariant(pb, st) && st.open != []
    ensures step.Reached? ==> ReachedBy(pb, popped, step.records)
    ensures step.Expanded? ==> LoopInvariant(pb, step.state)
    ensures step.Expanded? ==>
      || |AllCells(pb.grid) - step.state.closed| < |AllCells(pb.grid) - st.closed|
      || (step.state.closed == st.closed && |step.state.open| < |st.open|)
    ensures step.Expanded? ==>
      && st.closed <= step.state.closed
      && st.records.Keys <= step.state.records.Keys
      && (forall m | m in st.records :: step.state.records[m].f <= st.records[m].f)
  {
    var e, rest := PopMin(st.open);
    var cur := At(e);
    popped := State(st.records, st.closed + {cur}, rest);
    assert Popped(st, e, rest);
    PopReadiesExpansion(pb, st, e, rest);
    step := ExpandPopped(pb, popped, cur);
    if step.Expanded? {
      ExpandedKeepsLoopInvariant(pb, st, e, rest, step.state);
      assert Bookkept(pb, st.records, cur);
      ExpandedMakesProgress(pb.grid, st, e, rest, step.state);
    }
  }

  /** What the search promises about its outcome and the state it returns: a found
      route is a valid route from source to destination whose last two entries
      are the destination's parent; an exhausted search means no route exists;
      either way every record but the destination's keeps its bookkeeping. */
  ghost predicate Reports(pb: Problem, out: Outcome, st: State)
  {
    && (forall n {:trigger Bookkept(pb, st.records, n)} | n in st.records && n != pb.dest :: Bookkept(pb, st.records, n))
    && match out
      case Blocked => false
      case Found(route, steps) =>
        && steps >= 1 && |route| == steps + 1
        && ValidPath(pb.grid, route[..steps] + [pb.dest], pb.src, pb.dest)
        && pb.dest in st.records && st.records[pb.dest].parent in st.closed
        && route[steps - 1] == route[steps] == st.records[pb.dest].parent
      case Unreachable =>
        && !Reachable(pb.grid, pb.src, pb.dest)
        && st.open == [] && pb.src in st.closed && pb.dest !in st.closed
  }

  /** The report after the destination has been generated: `traceRoute` over
      the final records, which yields a valid route. */
  method ReportFound(pb: Problem, popped: State, records: Records) returns (out: Outcome, st: State)
    requires ReachedBy(pb, popped, records)
    ensures out.Found? && Reports(pb, out, st)
  {
    ReachedIsRanked(pb, popped, records);
    var route, steps := TraceRoute(records, pb.dest);
    ReachedChainIsRoute(pb, popped, records, route[..steps] + [pb.dest]);
    out := Found(route, steps);
    st := State(records, popped.closed, popped.open);
  }

  /** The report when the open list runs dry: no route exists. */
  method ReportUnreachable(pb: Problem, st: State) returns (out: Outcome)
    requires LoopInvariant(pb, st) && st.open == []
    ensures out.Unreachable? && Reports(pb, out, st)
  {
    ExhaustedIsSealed(pb, st);
    SealedRegionBlocksRoutes(pb.grid, st.closed, pb.src, pb.dest);
    out := Unreachable;
  }

  /** The `while` loop of `aStar`, entered once both endpoints are passable. */
  method SearchLoop(pb: Problem) returns (out: Outcome, st: State)
    requires NonNegative(pb.h) && IsPassable(pb.grid, pb.src) && IsPassable(pb.grid, pb.dest)
    ensures Reports(pb, out, st)
  {
    st := Start(pb.src);
    StartMeetsLoopInvariant(pb);
    while st.open != []
      invariant LoopInvariant(pb, st)
      decreases |AllCells(pb.grid) - st.closed|, |st.open|
    {
      var step, popped := PopAndExpand(pb, st);
      if step.Reached? {
        out, st := ReportFound(pb, popped, step.records);
        return;
      }
      st := step.state;
    }
    out := ReportUnreachable(pb, st);
  }

  /** `aStar`. Out-of-bounds positions count as blocked. The result reports the
      outcome together with the records and closed list it ended with. On an
      exhausted search the open list is the final, empty one; on a found route
      it is the list left right after the last pop, without the entries queued
      before the destination was generated. */
  method AStar(grid: Grid, h: Heuristic, src: Coord, dest: Coord) returns (out: Outcome, st: State)
    requires NonNegative(h)
    ensures out.Blocked? <==> !IsPassable(grid, src) || !IsPassable(grid, dest)
    ensures out.Blocked? ==> st == State(map[], {}, [])
    ensures out.Found? <==> IsPassable(grid, src) && IsPassable(grid, dest) && Reachable(grid, src, dest)
    ensures out.Found? ==>
      && out.steps >= 1 && |out.route| == out.steps + 1
      && ValidPath(grid, out.route[..out.steps] + [dest], src, dest)
      && dest in st.records && st.records[dest].parent in st.closed
      && out.route[out.steps - 1] == out.route[out.steps] == st.records[dest].parent
    ensures out.Unreachable? ==> st.open == [] && src in st.closed && dest !in st.closed
    ensures !out.Blocked? ==>
      forall n {:trigger Bookkept(Problem(grid, h, src, dest), st.records, n)} | n in st.records && n != dest ::
        Bookkept(Problem(grid, h, src, dest), st.records, n)
  {
    if !IsPassable(grid, src) || !IsPassable(grid, dest) {
      return Blocked, State(map[], {}, []);
    }
    out, st := SearchLoop(Problem(grid, h, src, dest));
    assert Reports(Problem(grid, h, src, dest), out, st);
  }
}
