/** Search state of one A* run: cell records, the closed list and the open list,
    and the expansion of one popped cell. */
module Search {
  import opened Grid
  import opened Frontier

  /** `calculateHValue`: an estimate from a cell to the destination. */
  type Heuristic = (Coord, Coord) -> real

  /** The source's estimate is a square root, hence never negative. */
  ghost predicate NonNegative(h: Heuristic)
  {
    forall a, b :: h(a, b) >= 0.0
  }

  /** `struct cell`. Every step costs 1, so `g` is kept as an integer. */
  datatype Cell = Cell(parent: Coord, f: real, g: int, h: real)

  /** A default-constructed cell: parent (-1, -1), every cost -1; f == -1 means unvisited. */
  const Unvisited := Cell(Coord(-1, -1), -1.0, -1, -1.0)

  /** The record written for the source before the search starts: its own parent, all costs 0. */
  function Root(src: Coord): Cell
  {
    Cell(src, 0.0, 0, 0.0)
  }

  /** Records written so far; a cell outside the map still holds `Unvisited`. */
  type Records = map<Coord, Cell>

  function Rec(records: Records, p: Coord): Cell
  {
    if p in records then records[p] else Unvisited
  }

  datatype State = State(records: Records, closed: set<Coord>, open: seq<Entry>)

  /** The inputs of one search. */
  datatype Problem = Problem(grid: Grid, h: Heuristic, src: Coord, dest: Coord)

  /** The state right after the endpoints passed the check. */
  function Start(src: Coord): State
  {
    State(map[src := Root(src)], {}, [Entry(0.0, src.row, src.col)])
  }

  /** The branch for a generated successor `n` that is not the destination:
      a passable cell off the closed list is recorded and queued with g one more
      than `cur`'s when it is unvisited or the new f is strictly smaller. */
  function Relax(pb: Problem, st: State, cur: Coord, n: Coord): State
  {
    if n !in st.closed && IsPassable(pb.grid, n) then
      var gNew := Rec(st.records, cur).g + 1;
      var hNew := pb.h(n, pb.dest);
      var fNew := gNew as real + hNew;
      var prev := Rec(st.records, n);
      if prev.f == -1.0 || prev.f > fNew then
        State(st.records[n := Cell(cur, fNew, gNew, hNew)], st.closed,
              st.open + [Entry(fNew, n.row, n.col)])
      else
        st
    else
      st
  }

  /** How the expansion of a popped cell ends. */
  datatype Step = Reached(records: Records) | Expanded(state: State)

  /** Generates successors k..8 of `cur` in order. A successor equal to the
      destination gets `cur` as its parent and ends the search at once. */
  function Expand(pb: Problem, st: State, cur: Coord, k: nat): Step
    requires k <= |Offsets|
    decreases |Offsets| - k
  {
    if k == |Offsets| then
      Expanded(st)
    else
      var n := Neighbour(cur, k);
      if IsDestination(n, pb.dest) then
        Reached(st.records[n := Rec(st.records, n).(parent := cur)])
      else
        Expand(pb, Relax(pb, st, cur, n), cur, k + 1)
  }

  /** The bookkeeping every record written by the search satisfies: the source
      keeps its root record; any other cell has an adjacent, distinct parent whose
      g is one less, and f = g + h with h the heuristic's estimate. */
  ghost predicate Bookkept(pb: Problem, records: Records, n: Coord)
    requires n in records
  {
    var c := records[n];
    && IsPassable(pb.grid, n)
    && c.g >= 0 && c.h >= 0.0 && c.f == c.g as real + c.h
    && (n == pb.src ==> c == Root(pb.src))
    && (n != pb.src ==>
          && c.parent in records && c.parent != n && Adjacent(c.parent, n)
          && records[c.parent].g + 1 == c.g
          && c.h == pb.h(n, pb.dest))
  }

  /** What holds of the state whenever a cell is about to be popped or expanded. */
  ghost predicate Invariant(pb: Problem, st: State)
  {
    && pb.src in st.records
    && (forall n {:trigger Bookkept(pb, st.records, n)} | n in st.records :: Bookkept(pb, st.records, n))
    && (forall n | n in st.records && n != pb.src :: st.records[n].parent in st.closed)
    && (pb.dest in st.records ==> pb.dest == pb.src)
    && st.closed <= st.records.Keys
    && (forall e | e in st.open :: At(e) in st.records && st.records[At(e)].f <= e.f)
    && (forall n | n in st.records && n !in st.closed :: Entry(st.records[n].f, n.row, n.col) in st.open)
  }

  /** Successor i of the closed cell `c` has been dealt with against c's final g:
      it is not the destination, and it is closed, not passable, or recorded with
      an f no larger than the one c would offer it. */
  ghost predicate SettledAt(pb: Problem, st: State, c: Coord, i: int)
    requires 0 <= i < |Offsets|
  {
    var n := Neighbour(c, i);
    && n != pb.dest
    && (|| n in st.closed
        || !IsPassable(pb.grid, n)
        || (n in st.records && st.records[n].f <= (Rec(st.records, c).g + 1) as real + pb.h(n, pb.dest)))
  }

  /** Every closed cell has all its successors settled, except that `cur` has
      only its first k settled. */
  ghost predicate Settled(pb: Problem, st: State, cur: Coord, k: int)
  {
    forall c, i | c in st.closed && 0 <= i < |Offsets| && (c != cur || i < k) :: SettledAt(pb, st, c, i)
  }

  /** Every successor of every closed cell is settled. */
  ghost predicate AllSettled(pb: Problem, st: State)
  {
    forall c, i | c in st.closed && 0 <= i < |Offsets| :: SettledAt(pb, st, c, i)
  }

  /** `st2` only improves on `st1`: same closed list, no record lost or worsened,
      closed records untouched, no queue entry dropped. */
  ghost predicate Improves(st1: State, st2: State)
  {
    && st2.closed == st1.closed
    && st1.records.Keys <= st2.records.Keys
    && (forall m | m in st1.records :: st2.records[m].f <= st1.records[m].f)
    && (forall c | c in st1.closed && c in st1.records :: st2.records[c] == st1.records[c])
    && (forall e | e in st1.open :: e in st2.open)
  }

  /** Improving twice is improving. */
  lemma ImprovesIsTransitive(st1: State, st2: State, st3: State)
    requires Improves(st1, st2) && Improves(st2, st3)
    ensures Improves(st1, st3)
  {
    forall m | m in st1.records
      ensures st3.records[m].f <= st1.records[m].f
    {
      assert st3.records[m].f <= st2.records[m].f;
    }
  }

  /** A record is rewritten only when the cell is off the closed list, passable,
      and either unvisited or offered a strictly smaller f; then it is queued
      with that f. Hence a record's f never grows and a closed record never
      changes. */
  lemma RelaxImproves(pb: Problem, st: State, cur: Coord, n: Coord)
    requires NonNegative(pb.h) && Invariant(pb, st)
    requires cur in st.closed
    ensures var st2 := Relax(pb, st, cur, n);
      && Improves(st, st2)
      && (forall m | m != n :: Rec(st2.records, m) == Rec(st.records, m))
      && (st2 != st ==>
            && n !in st.closed && IsPassable(pb.grid, n)
            && (n !in st.records || st2.records[n].f < st.records[n].f)
            && st2.records[n].parent == cur
            && st2.open == st.open + [Entry(st2.records[n].f, n.row, n.col)])
  {
    if n in st.records {
      assert Bookkept(pb, st.records, n);
    }
  }

  /** Settling is kept by every state change the search makes. */
  lemma SettledAtKept(pb: Problem, st1: State, st2: State, c: Coord, i: int)
    requires 0 <= i < |Offsets|
    requires st1.closed <= st2.closed && st1.records.Keys <= st2.records.Keys
    requires forall m | m in st1.records :: st2.records[m].f <= st1.records[m].f
    requires c in st1.records && c in st2.records && st2.records[c].g == st1.records[c].g
    requires SettledAt(pb, st1, c, i)
    ensures SettledAt(pb, st2, c, i)
  {
  }

  /** Rewriting one record leaves the bookkeeping of any other record intact,
      as long as that record's parent is not the rewritten one. */
  lemma OtherRecordKept(pb: Problem, records: Records, n: Coord, c: Cell, m: Coord)
    requires m in records && m != n && Bookkept(pb, records, m)
    requires m != pb.src ==> records[m].parent != n
    ensures Bookkept(pb, records[n := c], m)
  {
  }

  /** The record a successor step writes is bookkept: its parent is the
      expanded cell, one g-step closer to the source. */
  lemma RewrittenRecordKept(pb: Problem, st: State, cur: Coord, n: Coord)
    requires NonNegative(pb.h) && Invariant(pb, st)
    requires cur in st.closed && Adjacent(cur, n)
    requires Relax(pb, st, cur, n) != st
    ensures n in Relax(pb, st, cur, n).records && Bookkept(pb, Relax(pb, st, cur, n).records, n)
  {
    assert Bookkept(pb, st.records, cur);
    assert n != cur;
    assert n != pb.src by {
      assert Bookkept(pb, st.records, pb.src);
    }
  }

  /** A successor step that rewrites a record keeps the bookkeeping of every record. */
  lemma RelaxKeepsBookkeeping(pb: Problem, st: State, cur: Coord, n: Coord)
    requires NonNegative(pb.h) && Invariant(pb, st)
    requires cur in st.closed && Adjacent(cur, n)
    requires Relax(pb, st, cur, n) != st
    ensures var st2 := Relax(pb, st, cur, n);
      forall m {:trigger Bookkept(pb, st2.records, m)} | m in st2.records :: Bookkept(pb, st2.records, m)
  {
    var R2 := Relax(pb, st, cur, n).records;
    assert n !in st.closed;
    assert R2 == st.records[n := R2[n]];
    forall m | m in R2
      ensures Bookkept(pb, R2, m)
    {
      if m == n {
        RewrittenRecordKept(pb, st, cur, n);
      } else {
        assert Bookkept(pb, st.records, m);
        OtherRecordKept(pb, st.records, n, R2[n], m);
      }
    }
  }

  /** One successor step keeps the invariant. */
  lemma RelaxKeepsInvariant(pb: Problem, st: State, cur: Coord, n: Coord)
    requires NonNegative(pb.h) && Invariant(pb, st)
    requires cur in st.closed && Adjacent(cur, n) && n != pb.dest
    ensures Invariant(pb, Relax(pb, st, cur, n))
  {
    var st2 := Relax(pb, st, cur, n);
    RelaxImproves(pb, st, cur, n);
    if st2 != st {
      RelaxKeepsBookkeeping(pb, st, cur, n);
      var R2 := st2.records;
      forall e | e in st2.open
        ensures At(e) in R2 && R2[At(e)].f <= e.f
      {
        if e !in st.open {
          assert e == Entry(R2[n].f, n.row, n.col);
        }
      }
    }
  }

  /** One successor step settles that successor and unsettles nothing. */
  lemma RelaxSettles(pb: Problem, st: State, cur: Coord, k: nat)
    requires NonNegative(pb.h) && Invariant(pb, st)
    requires cur in st.closed && k < |Offsets| && Settled(pb, st, cur, k)
    requires Neighbour(cur, k) != pb.dest
    ensures Settled(pb, Relax(pb, st, cur, Neighbour(cur, k)), cur, k + 1)
  {
    var n := Neighbour(cur, k);
    var st2 := Relax(pb, st, cur, n);
    RelaxImproves(pb, st, cur, n);
    forall c, i | c in st2.closed && 0 <= i < |Offsets| && (c != cur || i < k + 1)
      ensures SettledAt(pb, st2, c, i)
    {
      if c == cur && i == k {
        if n !in st.closed && IsPassable(pb.grid, n) && n in st.records {
          assert Bookkept(pb, st.records, n);
        }
      } else {
        SettledAtKept(pb, st, st2, c, i);
      }
    }
  }

  /** One successor step keeps the invariant and settles that successor. */
  lemma RelaxStep(pb: Problem, st: State, cur: Coord, k: nat)
    requires NonNegative(pb.h) && Invariant(pb, st)
    requires cur in st.closed && k < |Offsets| && Settled(pb, st, cur, k)
    requires Neighbour(cur, k) != pb.dest
    ensures var st2 := Relax(pb, st, cur, Neighbour(cur, k));
      Invariant(pb, st2) && Settled(pb, st2, cur, k + 1) && Improves(st, st2)
  {
    RelaxImproves(pb, st, cur, Neighbour(cur, k));
    RelaxKeepsInvariant(pb, st, cur, Neighbour(cur, k));
    RelaxSettles(pb, st, cur, k);
  }

  /** What the records look like when the destination has been generated: the
      destination's parent is a closed cell adjacent to it, the destination is
      otherwise untouched (still unvisited unless it is the source), every other
      record keeps its bookkeeping and every parent written is closed. */
  ghost predicate ReachedBy(pb: Problem, st: State, records: Records)
  {
    && pb.dest in records
    && IsPassable(pb.grid, pb.dest)
    && var p := records[pb.dest].parent;
    && p in st.closed && p in records && Adjacent(p, pb.dest) && records[p].g >= 0
    && (pb.dest == pb.src ==> records[pb.dest] == Root(pb.src))
    && (pb.dest != pb.src ==> pb.dest !in st.closed && records[pb.dest].g < 0)
    && (forall n {:trigger Bookkept(pb, records, n)} | n in records && n != pb.dest :: Bookkept(pb, records, n))
    && (forall n | n in records && n != pb.src :: records[n].parent in st.closed)
  }

  /** What the expansion of a popped cell `cur` needs: the invariant, a
      passable destination, `cur` just closed, and the destination closed only
      when it is the source (and then `cur` is the source). */
  ghost predicate ReadyToExpand(pb: Problem, st: State, cur: Coord)
  {
    && NonNegative(pb.h) && Invariant(pb, st)
    && IsPassable(pb.grid, pb.dest)
    && cur in st.closed
    && (pb.dest == pb.src ==> cur == pb.src)
    && (pb.dest != pb.src ==> pb.dest !in st.closed)
  }

  /** Generating the destination from a closed cell leaves records that meet
      `ReachedBy`. */
  lemma DestinationGenerated(pb: Problem, st: State, cur: Coord, k: nat)
    requires ReadyToExpand(pb, st, cur)
    requires k < |Offsets| && Neighbour(cur, k) == pb.dest
    ensures ReachedBy(pb, st, st.records[pb.dest := Rec(st.records, pb.dest).(parent := cur)])
  {
    var records := st.records[pb.dest := Rec(st.records, pb.dest).(parent := cur)];
    assert Bookkept(pb, st.records, cur);
    assert Bookkept(pb, st.records, pb.src);
    forall m | m in records && m != pb.dest
      ensures Bookkept(pb, records, m)
    {
      assert Bookkept(pb, st.records, m);
      if m != pb.src {
        assert st.records[m].parent in st.closed;
      }
    }
  }

  /** An expansion that ends at the destination leaves records that meet
      `ReachedBy`, with the popped cell as the destination's parent. */
  lemma {:induction false} ExpandReaches(pb: Problem, st: State, cur: Coord, k: nat)
    requires ReadyToExpand(pb, st, cur) && k <= |Offsets|
    requires Expand(pb, st, cur, k).Reached?
    ensures var records := Expand(pb, st, cur, k).records;
      ReachedBy(pb, st, records) && records[pb.dest].parent == cur
    decreases |Offsets| - k
  {
    var n := Neighbour(cur, k);
    if n == pb.dest {
      DestinationGenerated(pb, st, cur, k);
    } else {
      RelaxKeepsInvariant(pb, st, cur, n);
      RelaxImproves(pb, st, cur, n);
      ExpandReaches(pb, Relax(pb, st, cur, n), cur, k + 1);
    }
  }

  /** An expansion that does not reach the destination keeps the invariant and
      settles every successor of the popped cell. */
  lemma {:induction false} ExpandSettles(pb: Problem, st: State, cur: Coord, k: nat)
    requires NonNegative(pb.h) && Invariant(pb, st)
    requires cur in st.closed && k <= |Offsets| && Settled(pb, st, cur, k)
    requires Expand(pb, st, cur, k).Expanded?
    ensures var st2 := Expand(pb, st, cur, k).state;
      Invariant(pb, st2) && Settled(pb, st2, cur, |Offsets|) && st2.closed == st.closed
    decreases |Offsets| - k
  {
    if k < |Offsets| {
      var n := Neighbour(cur, k);
      RelaxStep(pb, st, cur, k);
      ExpandSettles(pb, Relax(pb, st, cur, n), cur, k + 1);
    }
  }

  /** An expansion that does not reach the destination only improves the state:
      no record is lost or worsened, no closed record and no queue entry changes. */
  lemma {:induction false} ExpandImproves(pb: Problem, st: State, cur: Coord, k: nat)
    requires NonNegative(pb.h) && Invariant(pb, st)
    requires cur in st.closed && k <= |Offsets|
    requires Expand(pb, st, cur, k).Expanded?
    ensures Improves(st, Expand(pb, st, cur, k).state)
    decreases |Offsets| - k
  {
    if k < |Offsets| {
      var n := Neighbour(cur, k);
      var st2 := Relax(pb, st, cur, n);
      RelaxImproves(pb, st, cur, n);
      RelaxKeepsInvariant(pb, st, cur, n);
      ExpandImproves(pb, st2, cur, k + 1);
      ImprovesIsTransitive(st, st2, Expand(pb, st2, cur, k + 1).state);
    }
  }

  /** A settled cell generates itself (offset (0, 0)), so it is not the destination. */
  lemma SettledCellIsNotDestination(pb: Problem, st: State, c: Coord)
    requires c in st.closed && Settled(pb, st, c, |Offsets|)
    ensures c != pb.dest
  {
    assert Neighbour(c, 4) == c;
    assert SettledAt(pb, st, c, 4);
  }

  /** An expansion from the first successor that does not reach the
      destination keeps the invariant, settles the popped cell, only improves
      the state, and shows the popped cell is not the destination. */
  lemma FinishedExpansion(pb: Problem, st: State, cur: Coord)
    requires ReadyToExpand(pb, st, cur) && Settled(pb, st, cur, 0)
    requires Expand(pb, st, cur, 0).Expanded?
    ensures var st2 := Expand(pb, st, cur, 0).state;
      && Invariant(pb, st2) && Settled(pb, st2, cur, |Offsets|)
      && Improves(st, st2) && cur != pb.dest
  {
    ExpandSettles(pb, st, cur, 0);
    ExpandImproves(pb, st, cur, 0);
    var st2 := Expand(pb, st, cur, 0).state;
    SettledCellIsNotDestination(pb, st2, cur);
  }

  /** An expansion from the first successor that reaches the destination
      leaves records fit for the trace, with the popped cell as parent. */
  lemma ReachingExpansion(pb: Problem, st: State, cur: Coord)
    requires ReadyToExpand(pb, st, cur)
    requires Expand(pb, st, cur, 0).Reached?
    ensures ReachedBy(pb, st, Expand(pb, st, cur, 0).records)
    ensures Expand(pb, st, cur, 0).records[pb.dest].parent == cur
  {
    ExpandReaches(pb, st, cur, 0);
  }

  /** A settled successor of a closed cell is left alone by the successor step. */
  lemma SettledRelaxIsNoOp(pb: Problem, st: State, cur: Coord, k: nat)
    requires NonNegative(pb.h) && Invariant(pb, st)
    requires cur in st.closed && k < |Offsets| && SettledAt(pb, st, cur, k)
    ensures Relax(pb, st, cur, Neighbour(cur, k)) == st
  {
    var n := Neighbour(cur, k);
    if n !in st.closed && IsPassable(pb.grid, n) {
      assert Bookkept(pb, st.records, n);
    }
  }

  /** Popping a stale entry of a cell that is already closed and settled changes
      nothing: every successor is closed, not passable, or no better off. */
  lemma {:induction false} StaleExpansionIsNoOp(pb: Problem, st: State, cur: Coord, k: nat)
    requires NonNegative(pb.h) && Invariant(pb, st)
    requires cur in st.closed && k <= |Offsets| && Settled(pb, st, cur, |Offsets|)
    ensures Expand(pb, st, cur, k) == Expanded(st)
    decreases |Offsets| - k
  {
    if k < |Offsets| {
      assert SettledAt(pb, st, cur, k);
      SettledRelaxIsNoOp(pb, st, cur, k);
      StaleExpansionIsNoOp(pb, st, cur, k + 1);
    }
  }

  /** The two nested offset loops of `aStar` for one popped cell `cur`, which
      has just been closed. */
  method ExpandPopped(pb: Problem, st: State, cur: Coord) returns (step: Step)
    requires ReadyToExpand(pb, st, cur) && Settled(pb, st, cur, 0)
    ensures step.Reached? ==> ReachedBy(pb, st, step.records) && step.records[pb.dest].parent == cur
    ensures step.Expanded? ==>
      && Invariant(pb, step.state) && Settled(pb, step.state, cur, |Offsets|)
      && Improves(st, step.state) && cur != pb.dest
    ensures Settled(pb, st, cur, |Offsets|) ==> step == Expanded(st)
  {
    step := Expand(pb, st, cur, 0);
    if step.Reached? {
      ReachingExpansion(pb, st, cur);
    } else {
      FinishedExpansion(pb, st, cur);
    }
    if Settled(pb, st, cur, |Offsets|) {
      StaleExpansionIsNoOp(pb, st, cur, 0);
    }
  }
}
