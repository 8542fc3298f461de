/** `traceRoute`: following parent links from the destination back to the root. */
module Trace {
  import opened Grid
  import opened Search

  /** Every record with a non-negative g that is not its own parent points at a
      record whose g is non-negative and strictly smaller, so walks end. */
  ghost predicate Ranked(records: Records)
  {
    forall n | n in records && records[n].g >= 0 && records[n].parent != n ::
      records[n].parent in records && 0 <= records[records[n].parent].g < records[n].g
  }

  /** Each cell of `path` is recorded with its predecessor as parent. */
  ghost predicate ParentChain(records: Records, path: seq<Coord>)
  {
    && (forall i | 0 <= i < |path| :: path[i] in records)
    && (forall i | 0 < i < |path| :: records[path[i]].parent == path[i - 1])
  }

  /** A parent chain that starts at a self-parented record and meets no other. */
  ghost predicate RootedChain(records: Records, path: seq<Coord>)
  {
    && |path| >= 1
    && ParentChain(records, path)
    && records[path[0]].parent == path[0]
    && (forall i | 0 < i < |path| :: records[path[i]].parent != path[i])
  }

  /** The cells met walking parent links from `v` up to the first self-parented
      record, listed root first. */
  function Walk(records: Records, v: Coord): (w: seq<Coord>)
    requires Ranked(records) && v in records && records[v].g >= 0
    ensures RootedChain(records, w) && w[|w| - 1] == v
    decreases records[v].g
  {
    if records[v].parent == v then [v] else Walk(records, records[v].parent) + [v]
  }

  /** The walk is the only rooted chain that ends at `v`. */
  lemma {:induction false} RootedChainIsWalk(records: Records, v: Coord, path: seq<Coord>)
    requires Ranked(records) && v in records && records[v].g >= 0
    requires RootedChain(records, path) && path[|path| - 1] == v
    ensures path == Walk(records, v)
    decreases |path|
  {
    if |path| > 1 {
      var prefix := path[..|path| - 1];
      assert records[v].parent == prefix[|prefix| - 1] != v;
      RootedChainIsWalk(records, records[v].parent, prefix);
      assert path == prefix + [v];
    }
  }

  /** The do-while loop of `traceRoute`: pushes the destination's parent, then
      every cell from there up to (not including) the root, then the root. The
      destination is pushed only as its own parent (when it is the source), and
      its parent is pushed twice. The
      stack is kept with its top at index 0. */
  method PushChain(records: Records, dest: Coord) returns (stack: seq<Coord>)
    requires Ranked(records) && dest in records
    requires records[dest].parent in records && records[records[dest].parent].g >= 0
    ensures stack == Walk(records, records[dest].parent) + [records[dest].parent]
  {
    var v := records[dest].parent;
    ghost var w := Walk(records, v);
    stack := [];
    var cur := dest;
    var next := records[cur].parent;
    stack := [next] + stack;
    next := records[cur].parent;
    cur := next;
    ghost var j := |w| - 1;
    while records[cur].parent != next
      invariant 0 <= j < |w| && cur == w[j] && next == cur
      invariant stack == w[j + 1..] + [v]
      decreases j
    {
      assert j > 0;
      stack := [next] + stack;
      next := records[cur].parent;
      cur := next;
      j := j - 1;
    }
    assert j == 0;
    stack := [cur] + stack;
    assert stack == w + [v];
  }

  /** The popping loop of `traceRoute`: emits the stack top first and counts
      one step per entry, starting from -1. */
  method PopAll(stack: seq<Coord>) returns (emitted: seq<Coord>, steps: int)
    ensures emitted == stack
    ensures steps == |stack| - 1
  {
    var rest := stack;
    emitted := [];
    steps := -1;
    while rest != []
      invariant emitted + rest == stack
      invariant steps == |emitted| - 1
    {
      emitted := emitted + [rest[0]];
      rest := rest[1..];
      steps := steps + 1;
    }
  }

  /** `traceRoute`. The emitted cells are the rooted walk to the destination's
      parent followed by that parent once more; the step count is the length of
      the walk, so the destination is emitted only when it is the source. */
  method TraceRoute(records: Records, dest: Coord) returns (emitted: seq<Coord>, steps: int)
    requires Ranked(records) && dest in records
    requires records[dest].parent in records && records[records[dest].parent].g >= 0
    ensures steps >= 1 && |emitted| == steps + 1
    ensures RootedChain(records, emitted[..steps]) && ParentChain(records, emitted[..steps] + [dest])
    ensures emitted[steps - 1] == emitted[steps] == records[dest].parent
    ensures emitted == Walk(records, records[dest].parent) + [records[dest].parent]
  {
    var v := records[dest].parent;
    ghost var w := Walk(records, v);
    var stack := PushChain(records, dest);
    emitted, steps := PopAll(stack);
    assert steps == |w| && emitted[..steps] == w;
    assert emitted[steps] == v && emitted[steps - 1] == w[|w| - 1];
    assert emitted[..steps] + [dest] == w + [dest];
  }
}
