/** The open list: a min-priority queue of (f, row, col) tuples. */
module Frontier {
  import opened Grid

  /** One queue entry, the tuple (f, row, col); duplicates for one cell may coexist. */
  datatype Entry = Entry(f: real, row: int, col: int)

  /** The cell an entry stands for. */
  function At(e: Entry): Coord
  {
    Coord(e.row, e.col)
  }

  /** The tuple order: lexicographic on (f, row, col). The queue is built with
      `std::greater`, so its top is the least entry under this order. */
  predicate NoLater(a: Entry, b: Entry)
  {
    a.f < b.f || (a.f == b.f && (a.row < b.row || (a.row == b.row && a.col <= b.col)))
  }

  /** The tuple order is total and antisymmetric. */
  lemma TupleOrderIsTotal(a: Entry, b: Entry)
    ensures NoLater(a, b) || NoLater(b, a)
    ensures NoLater(a, b) && NoLater(b, a) ==> a == b
  {
  }

  /** Hence the least entry of a queue is unique. */
  lemma LeastEntryIsUnique(q: seq<Entry>, a: Entry, b: Entry)
    requires a in q && b in q
    requires forall x | x in q :: NoLater(a, x)
    requires forall x | x in q :: NoLater(b, x)
    ensures a == b
  {
    assert NoLater(a, b) && NoLater(b, a);
    TupleOrderIsTotal(a, b);
  }

  /** `top` followed by `pop`: removes one occurrence of the least entry. */
  method PopMin(q: seq<Entry>) returns (e: Entry, rest: seq<Entry>)
    requires q != []
    ensures e in q
    ensures forall x | x in q :: NoLater(e, x)
    ensures multiset(q) == multiset(rest) + multiset{e}
    ensures |rest| + 1 == |q|
    ensures forall x | x in q && x != e :: x in rest
    ensures forall x | x in rest :: x in q
  {
    var k := 0;
    var i := 1;
    while i < |q|
      invariant 0 <= k < i <= |q|
      invariant forall j | 0 <= j < i :: NoLater(q[k], q[j])
    {
      if !NoLater(q[k], q[i]) {
        k := i;
      }
      i := i + 1;
    }
    e := q[k];
    rest := q[..k] + q[k + 1..];
    assert q == q[..k] + [e] + q[k + 1..];
    forall x | x in q && x != e
      ensures x in rest
    {
      assert x in multiset(rest);
    }
    forall x | x in rest
      ensures x in q
    {
      assert x in multiset(q);
    }
  }
}
