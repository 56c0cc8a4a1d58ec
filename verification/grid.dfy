/**
  The multi-occupancy grid the simulation runs on: every cell holds a list of
  agent ids in placement order. Placing appends to the cell's list, removing
  drops the first occurrence, and moving is a removal followed by a placement,
  which is how a multi-grid keeps its cells.
 */
module Grid {

  /** A grid coordinate (x, y). */
  datatype Cell = Cell(x: int, y: int)

  /** Agent ids held by each cell; a cell absent from the map is empty. */
  type Grid = map<Cell, seq<nat>>

  /** True iff no element occurs twice in `s`. */
  predicate Distinct<T(==)>(s: seq<T>) {
    forall a, b :: 0 <= a < b < |s| ==> s[a] != s[b]
  }

  /** The agents on cell `c`, in placement order. */
  function Contents(g: Grid, c: Cell): seq<nat> {
    if c in g then g[c] else []
  }

  /** Puts agent `id` on cell `c`, behind the agents already there. */
  function Place(g: Grid, c: Cell, id: nat): (r: Grid)
    ensures Contents(r, c) == Contents(g, c) + [id]
    ensures forall d :: d != c ==> Contents(r, d) == Contents(g, d)
  {
    g[c := Contents(g, c) + [id]]
  }

  /** Drops the first occurrence of `id` from a cell list (a list's `remove`). */
  function RemoveFirst(s: seq<nat>, id: nat): (r: seq<nat>)
    ensures id in s ==> |r| == |s| - 1
    ensures id !in s ==> r == s
    ensures forall y :: y in r ==> y in s
  {
    if |s| == 0 then s
    else if s[0] == id then s[1..]
    else [s[0]] + RemoveFirst(s[1..], id)
  }

  /** Removal takes away exactly one copy of `id` when there is one, and nothing else. */
  lemma {:induction false} RemoveFirstCount(s: seq<nat>, id: nat)
    ensures multiset(RemoveFirst(s, id)) == if id in s then multiset(s) - multiset{id} else multiset(s)
  {
    if |s| > 0 {
      assert s == [s[0]] + s[1..];
      if s[0] != id {
        RemoveFirstCount(s[1..], id);
      }
    }
  }

  /** Takes agent `id` off cell `c`. */
  function Remove(g: Grid, c: Cell, id: nat): (r: Grid)
    ensures Contents(r, c) == RemoveFirst(Contents(g, c), id)
    ensures forall d :: d != c ==> Contents(r, d) == Contents(g, d)
  {
    g[c := RemoveFirst(Contents(g, c), id)]
  }

  /** Moves agent `id` from cell `from` to cell `to`: removal, then placement. */
  function MoveAgent(g: Grid, from: Cell, to: Cell, id: nat): (r: Grid)
    ensures Contents(r, to) == Contents(Remove(g, from, id), to) + [id]
    ensures forall d :: d != from && d != to ==> Contents(r, d) == Contents(g, d)
  {
    Place(Remove(g, from, id), to, id)
  }

  /** After a move every cell holds the moved agent or agents it held before. */
  lemma MoveAgentProvenance(g: Grid, from: Cell, to: Cell, id: nat)
    ensures forall d, y :: y in Contents(MoveAgent(g, from, to, id), d) ==> y == id || y in Contents(g, d)
  {
    forall d, y | y in Contents(MoveAgent(g, from, to, id), d)
      ensures y == id || y in Contents(g, d)
    {
      if d == to && y != id {
        assert y in Contents(Remove(g, from, id), d);
      }
    }
  }

  /** In a list without repetitions, removing `id` removes every copy of it and nothing else. */
  lemma {:induction false} RemoveFirstDistinct(s: seq<nat>, id: nat)
    requires Distinct(s)
    ensures Distinct(RemoveFirst(s, id))
    ensures forall y :: y in RemoveFirst(s, id) <==> y in s && y != id
  {
    if |s| == 0 {
    } else if s[0] == id {
      assert s == [s[0]] + s[1..];
      forall y | y in s[1..]
        ensures y != id
      {
        var k :| 0 <= k < |s[1..]| && s[1..][k] == y;
        assert s[k + 1] == y;
      }
    } else {
      RemoveFirstDistinct(s[1..], id);
      var t := RemoveFirst(s[1..], id);
      assert s == [s[0]] + s[1..];
      assert RemoveFirst(s, id) == [s[0]] + t;
      forall k | 0 <= k < |s[1..]|
        ensures s[1..][k] != s[0]
      {
        assert s[k + 1] == s[1..][k];
      }
      assert s[0] !in t;
      forall a, b | 0 <= a < b < |[s[0]] + t|
        ensures ([s[0]] + t)[a] != ([s[0]] + t)[b]
      {
        if a == 0 {
          assert ([s[0]] + t)[b] == t[b - 1];
        } else {
          assert ([s[0]] + t)[a] == t[a - 1];
          assert ([s[0]] + t)[b] == t[b - 1];
        }
      }
    }
  }
}
