/**
  Building the initial state of a run: the step budget, the robots stacked
  on cell (1, 1), and one dirt agent on each of a number of distinct cells
  drawn one after another from the cells not yet used.
 */
module Setup {
  import opened Grid
  import opened State
  import opened Simulation
  import opened Outcomes

  /** Why a configuration cannot produce a run. */
  datatype ConfigError =
    | BadDimensions     // a width or height that is not positive; a zero one makes the dirty percentage divide by zero
    | StartCellOutside  // robots start on (1, 1), which a grid one cell wide or high lacks
    | TooMuchDirt       // more dirt than cells: a draw from an empty list of free cells

  /** Two sequences without repetitions and without common elements concatenate to one without repetitions. */
  lemma DistinctConcat<T>(a: seq<T>, b: seq<T>)
    requires Distinct(a) && Distinct(b)
    requires forall u :: u in a ==> u !in b
    ensures Distinct(a + b)
  {
    forall i, j | 0 <= i < j < |a + b|
      ensures (a + b)[i] != (a + b)[j]
    {
      if i < |a| && j >= |a| {
        assert (a + b)[i] in a && (a + b)[j] == b[j - |a|];
      }
    }
  }

  /** Cells (x, y), (x, y + 1), ..., (x, height - 1). */
  function Column(x: int, y: int, height: int): (cs: seq<Cell>)
    requires 0 <= y <= height
    ensures |cs| == height - y
    ensures forall c :: c in cs <==> c.x == x && y <= c.y < height
    ensures Distinct(cs)
    decreases height - y
  {
    if y == height then []
    else
      var rest := Column(x, y + 1, height);
      DistinctConcat([Cell(x, y)], rest);
      [Cell(x, y)] + rest
  }

  /** The columns x, x + 1, ..., width - 1, one after the other. */
  function Columns(x: int, width: int, height: int): (cs: seq<Cell>)
    requires 0 <= x <= width && 0 <= height
    ensures |cs| == (width - x) * height
    ensures forall c :: c in cs <==> x <= c.x < width && 0 <= c.y < height
    ensures Distinct(cs)
    decreases width - x
  {
    if x == width then []
    else
      var col := Column(x, 0, height);
      var rest := Columns(x + 1, width, height);
      DistinctConcat(col, rest);
      assert (width - x) * height == height + (width - (x + 1)) * height;
      col + rest
  }

  /** Every cell of a `width` by `height` grid exactly once, column by column. */
  function AllCells(width: nat, height: nat): (cs: seq<Cell>)
    ensures |cs| == width * height && Distinct(cs)
    ensures forall c :: c in cs <==> 0 <= c.x < width && 0 <= c.y < height
  {
    Columns(0, width, height)
  }

  /** `cells` without its element at index `k`. */
  function RemoveAt(cells: seq<Cell>, k: nat): (r: seq<Cell>)
    requires k < |cells| && Distinct(cells)
    ensures |r| == |cells| - 1 && Distinct(r)
    ensures forall c :: c in r <==> c in cells && c != cells[k]
  {
    var r := cells[..k] + cells[k + 1..];
    assert forall c :: c in r <==> c in cells && c != cells[k] by {
      assert cells == cells[..k] + [cells[k]] + cells[k + 1..];
      forall c | c in cells && c != cells[k]
        ensures c in r
      {
        var j :| 0 <= j < |cells| && cells[j] == c;
        if j < k { assert r[j] == c; } else { assert r[j - 1] == c; }
      }
    }
    assert Distinct(r) by {
      forall i, j | 0 <= i < j < |r|
        ensures r[i] != r[j]
      {
        var i' := if i < k then i else i + 1;
        var j' := if j < k then j else j + 1;
        assert r[i] == cells[i'] && r[j] == cells[j'];
      }
    }
    r
  }

  /**
    Draws one cell per pick from `cells`, removing each drawn cell before the
    next draw; pick `p` chooses the element at `p` modulo the number of cells
    still free, as a uniform draw from the remaining list would.
   */
  function PickCells(cells: seq<Cell>, picks: seq<nat>): (chosen: seq<Cell>)
    requires |picks| <= |cells| && Distinct(cells)
    ensures |chosen| == |picks| && Distinct(chosen)
    ensures forall c :: c in chosen ==> c in cells
  {
    if |picks| == 0 then []
    else
      var k := picks[0] % |cells|;
      var rest := PickCells(RemoveAt(cells, k), picks[1..]);
      DistinctConcat([cells[k]], rest);
      [cells[k]] + rest
  }

  /** The agents of a fresh run: `robots` idle robots on (1, 1), then one uncleaned dirt agent per chosen cell. */
  function Population(robots: nat, spots: seq<Cell>, dirtCount: int): (s: seq<Agent>)
    ensures |s| == robots + |spots|
    ensures forall i :: 0 <= i < robots ==> s[i] == Agent(Robot, IDLE, Cell(1, 1), 0, dirtCount)
    ensures forall i :: robots <= i < |s| ==> s[i] == Agent(Dirt, DIRTY, spots[i - robots], 0, dirtCount)
  {
    seq(robots, _ => Agent(Robot, IDLE, Cell(1, 1), 0, dirtCount))
      + seq(|spots|, k requires 0 <= k < |spots| => Agent(Dirt, DIRTY, spots[k], 0, dirtCount))
  }

  /** The grid after placing agents 0, ..., k - 1 on their cells in id order. */
  function Layout(agents: seq<Agent>, k: nat): (g: Grid)
    requires k <= |agents|
    ensures forall c, y: nat {:trigger y in Contents(g, c)} :: y in Contents(g, c) <==> y < k && agents[y].pos == c
    ensures forall c :: Distinct(Contents(g, c))
  {
    if k == 0 then map[]
    else
      var g := Layout(agents, k - 1);
      var g' := Place(g, agents[k - 1].pos, k - 1);
      PlaceNext(agents, k - 1, g, g');
      g'
  }

  /** Placing agent `id` on a grid that holds agents 0, ..., id - 1 gives one that holds agents 0, ..., id. */
  lemma PlaceNext(agents: seq<Agent>, id: nat, g: Grid, g': Grid)
    requires id < |agents| && g' == Place(g, agents[id].pos, id)
    requires forall c, y: nat {:trigger y in Contents(g, c)} :: y in Contents(g, c) <==> y < id && agents[y].pos == c
    requires forall c :: Distinct(Contents(g, c))
    ensures forall c, y: nat {:trigger y in Contents(g', c)} :: y in Contents(g', c) <==> y <= id && agents[y].pos == c
    ensures forall c :: Distinct(Contents(g', c))
  {
    var p := agents[id].pos;
    forall c, y: nat
      ensures y in Contents(g', c) <==> y <= id && agents[y].pos == c
    {
      if c == p {
        assert Contents(g', c) == Contents(g, c) + [id];
      }
    }
    forall c
      ensures Distinct(Contents(g', c))
    {
      if c == p {
        AppendDistinct(Contents(g, p), id);
      }
    }
  }

  /**
    Builds the initial state, or the error the configuration runs into
    first. `steps` is the per-robot number of steps, `dirtCount` the number
    of dirt agents and `picks` the random draws of their cells.
   */
  function NewModel(width: int, height: int, robots: nat, dirtCount: nat, steps: int, picks: seq<nat>)
    : (r: Result<World, ConfigError>)
    requires |picks| == dirtCount
    ensures r.Failure? <==>
              width <= 0 || height <= 0 || (robots > 0 && (width < 2 || height < 2)) || dirtCount > width * height
    ensures r == Failure(BadDimensions) <==> width <= 0 || height <= 0
    ensures r == Failure(StartCellOutside) <==> width > 0 && height > 0 && robots > 0 && (width < 2 || height < 2)
    ensures r == Failure(TooMuchDirt) <==>
              width > 0 && height > 0 && !(robots > 0 && (width < 2 || height < 2)) && dirtCount > width * height
    ensures r.Success? ==>
              && r.value.width == width && r.value.height == height
              && r.value.stepBudget == steps * robots
              && r.value.dirtLeft == dirtCount
              && r.value.movements == 0
              && |r.value.agents| == robots + dirtCount
              && (forall i :: 0 <= i < robots ==> r.value.agents[i] == Agent(Robot, IDLE, Cell(1, 1), 0, dirtCount))
              && (forall i :: robots <= i < |r.value.agents| ==> IsDirty(r.value.agents[i]))
              && r.value.percentDirty == PercentDirty(dirtCount, width * height)
  {
    if width <= 0 || height <= 0 then Failure(BadDimensions)
    else if robots > 0 && (width < 2 || height < 2) then Failure(StartCellOutside)
    else if dirtCount > width * height then Failure(TooMuchDirt)
    else
      var spots := PickCells(AllCells(width, height), picks);
      var agents := Population(robots, spots, dirtCount);
      Success(World(width, height, agents, Layout(agents, |agents|), steps * robots, dirtCount, 0,
                    PercentDirty(dirtCount, width * height)))
  }

  /** A fresh population holds `|s| - n` dirt agents, all uncleaned, and no movement yet. */
  lemma {:induction false} FreshCounts(s: seq<Agent>, n: nat)
    requires n <= |s|
    requires forall i :: 0 <= i < n ==> s[i].kind == Robot && s[i].moves == 0
    requires forall i :: n <= i < |s| ==> IsDirty(s[i]) && s[i].moves == 0
    ensures DirtTotal(s) == |s| - n && DirtyCount(s) == |s| - n && TotalMoves(s) == 0
  {
    if |s| > 0 {
      FreshCounts(s[1..], if n == 0 then 0 else n - 1);
    }
  }

  /** Placing every agent in id order makes grid and positions agree. */
  lemma LayoutConsistent(agents: seq<Agent>)
    ensures Consistent(agents, Layout(agents, |agents|))
    ensures var g := Layout(agents, |agents|);
      forall c, k :: c in g && 0 <= k < |g[c]| ==> g[c][k] < |agents|
  {
    var g := Layout(agents, |agents|);
    forall c, k | c in g && 0 <= k < |g[c]|
      ensures g[c][k] < |agents|
    {
      assert g[c][k] in Contents(g, c);
    }
  }

  /** A fresh population is well typed, lies on the grid and keeps its dirt on distinct cells. */
  lemma PopulationShape(w: World, robots: nat, spots: seq<Cell>)
    requires robots > 0 ==> w.width >= 2 && w.height >= 2
    requires Distinct(spots) && forall c :: c in spots ==> 0 <= c.x < w.width && 0 <= c.y < w.height
    requires w.agents == Population(robots, spots, w.dirtLeft)
    ensures forall i :: 0 <= i < |w.agents| ==> WellTyped(w.agents[i]) && InGrid(w, w.agents[i].pos)
    ensures DirtApart(w.agents)
  {
    var s := w.agents;
    forall i | robots <= i < |s|
      ensures s[i].pos == spots[i - robots] && s[i].pos in spots
    {
    }
    forall i, j | 0 <= i < |s| && 0 <= j < |s| && i != j && s[i].kind == Dirt && s[j].kind == Dirt
      ensures s[i].pos != s[j].pos
    {
      assert s[i].pos == spots[i - robots] && s[j].pos == spots[j - robots];
    }
  }

  /** The state a construction assembles from distinct dirt cells on the grid satisfies the run invariant. */
  lemma FreshInvariant(w: World, robots: nat, spots: seq<Cell>)
    requires w.width > 0 && w.height > 0 && (robots > 0 ==> w.width >= 2 && w.height >= 2)
    requires Distinct(spots) && forall c :: c in spots ==> 0 <= c.x < w.width && 0 <= c.y < w.height
    requires |spots| == w.dirtLeft <= w.width * w.height && w.movements == 0
    requires w.agents == Population(robots, spots, w.dirtLeft) && w.grid == Layout(w.agents, |w.agents|)
    ensures Invariant(w)
  {
    assert DirtTotal(w.agents) == |w.agents| - robots && DirtyCount(w.agents) == |w.agents| - robots &&
           TotalMoves(w.agents) == 0 by {
      FreshCounts(w.agents, robots);
    }
    assert WellFormed(w) && Consistent(w.agents, w.grid) by {
      LayoutConsistent(w.agents);
    }
    assert (forall i :: 0 <= i < |w.agents| ==> WellTyped(w.agents[i]) && InGrid(w, w.agents[i].pos)) &&
           DirtApart(w.agents) by {
      PopulationShape(w, robots, spots);
    }
  }

  /**
    A successful construction yields a state satisfying the run invariant:
    grid and positions agree, dirt agents sit on distinct cells of the grid,
    and the dirt and movement counters agree with the agents.
   */
  lemma NewModelInvariant(width: int, height: int, robots: nat, dirtCount: nat, steps: int, picks: seq<nat>)
    requires |picks| == dirtCount
    ensures var r := NewModel(width, height, robots, dirtCount, steps, picks);
      r.Success? ==> Invariant(r.value)
  {
    var r := NewModel(width, height, robots, dirtCount, steps, picks);
    if r.Success? {
      var spots := PickCells(AllCells(width, height), picks);
      var agents := Population(robots, spots, dirtCount);
      assert r.value == World(width, height, agents, Layout(agents, |agents|), steps * robots, dirtCount, 0,
                              PercentDirty(dirtCount, width * height));
      assert forall c :: c in spots ==> 0 <= c.x < width && 0 <= c.y < height;
      FreshInvariant(r.value, robots, spots);
    }
  }
}
