/**
  The state of one cleaning run: the agents (robots and dirt), the grid that
  places them, and the model's three counters. Agents are kept in a sequence
  indexed by their unique id, which is also the order in which the scheduler
  activates them.
 */
module State {
  import opened Grid

  /** Status tags shared by both agent classes. */
  const DIRTY: int := 0     // dirt not yet cleaned
  const IDLE: int := 1      // robot in its normal state
  const CLEANING: int := 3  // robot that cleaned on its last activation
  const CLEANED: int := 4   // dirt that a robot has cleaned

  /** The class of an agent: only robots act when scheduled. */
  datatype Kind = Robot | Dirt

  /**
    One agent. `tag` is the integer status, `moves` the agent's own
    movement counter and `cachedDirt` its copy of the model's remaining-dirt
    counter, refreshed when a robot is activated.
   */
  datatype Agent = Agent(kind: Kind, tag: int, pos: Cell, moves: nat, cachedDirt: int)

  /**
    The model. `stepBudget` is the remaining number of robot activations,
    `dirtLeft` the global count of dirt still to clean, `movements` the total
    of accepted moves and `percentDirty` the dirty percentage computed at the
    end of the last tick.
   */
  datatype World = World(
    width: int,
    height: int,
    agents: seq<Agent>,
    grid: Grid,
    stepBudget: int,
    dirtLeft: int,
    movements: nat,
    percentDirty: int)

  /** A run is over once the budget is spent or no dirt remains. */
  predicate Terminal(w: World) {
    w.stepBudget <= 0 || w.dirtLeft <= 0
  }

  /** True iff the agent is dirt that has not been cleaned. */
  predicate IsDirty(a: Agent) {
    a.kind == Dirt && a.tag == DIRTY
  }

  /** True iff the agent is a robot in its idle state: the only occupant a robot will not join. */
  predicate IsIdleRobot(a: Agent) {
    a.kind == Robot && a.tag == IDLE
  }

  /** The tags each class can carry, and dirt never moves. */
  predicate WellTyped(a: Agent) {
    && (a.kind == Robot ==> a.tag == IDLE || a.tag == CLEANING)
    && (a.kind == Dirt ==> (a.tag == DIRTY || a.tag == CLEANED) && a.moves == 0)
  }

  /** The number of uncleaned dirt agents. */
  function DirtyCount(s: seq<Agent>): (n: nat)
    ensures n <= |s|
  {
    if |s| == 0 then 0 else (if IsDirty(s[0]) then 1 else 0) + DirtyCount(s[1..])
  }

  /** The number of dirt agents, cleaned or not. */
  function DirtTotal(s: seq<Agent>): (n: nat)
    ensures DirtyCount(s) <= n <= |s|
  {
    if |s| == 0 then 0 else (if s[0].kind == Dirt then 1 else 0) + DirtTotal(s[1..])
  }

  /** The sum of every agent's own movement counter. */
  function TotalMoves(s: seq<Agent>): nat {
    if |s| == 0 then 0 else s[0].moves + TotalMoves(s[1..])
  }

  /** True iff `c` lies on a `width` by `height` grid. */
  predicate InGrid(w: World, c: Cell) {
    0 <= c.x < w.width && 0 <= c.y < w.height
  }

  /** The least a state needs for the operations to be defined: a non-empty grid whose lists hold known ids. */
  predicate WellFormed(w: World) {
    && w.width > 0
    && w.height > 0
    && forall c, k :: c in w.grid && 0 <= k < |w.grid[c]| ==> w.grid[c][k] < |w.agents|
  }

  /** The grid and the agents' own positions describe the same placement. */
  ghost predicate Consistent(agents: seq<Agent>, g: Grid) {
    && (forall i :: 0 <= i < |agents| ==> i in Contents(g, agents[i].pos))
    && (forall c, y: nat {:trigger y in Contents(g, c)} :: y in Contents(g, c) ==> y < |agents| && agents[y].pos == c)
    && (forall c :: Distinct(Contents(g, c)))
  }

  /** No two dirt agents share a cell. */
  ghost predicate DirtApart(s: seq<Agent>) {
    forall i, j :: 0 <= i < |s| && 0 <= j < |s| && i != j && s[i].kind == Dirt && s[j].kind == Dirt ==>
      s[i].pos != s[j].pos
  }

  /** What holds of every state a run reaches, between activations. */
  ghost predicate Invariant(w: World) {
    && WellFormed(w)
    && Consistent(w.agents, w.grid)
    && (forall i :: 0 <= i < |w.agents| ==> WellTyped(w.agents[i]) && InGrid(w, w.agents[i].pos))
    && DirtApart(w.agents)
    && DirtTotal(w.agents) <= w.width * w.height
    && w.dirtLeft == DirtyCount(w.agents)
    && w.movements == TotalMoves(w.agents)
  }

  /** Replacing one agent changes the dirty count by the difference it makes. */
  lemma {:induction false} DirtyCountUpdate(s: seq<Agent>, i: nat, a: Agent)
    requires i < |s|
    ensures DirtyCount(s[i := a]) ==
            DirtyCount(s) - (if IsDirty(s[i]) then 1 else 0) + (if IsDirty(a) then 1 else 0)
  {
    if i == 0 {
      assert s[i := a][1..] == s[1..];
    } else {
      DirtyCountUpdate(s[1..], i - 1, a);
      assert s[i := a][1..] == s[1..][i - 1 := a];
    }
  }

  /** Replacing one agent with one of the same class keeps the dirt total. */
  lemma {:induction false} DirtTotalUpdate(s: seq<Agent>, i: nat, a: Agent)
    requires i < |s| && a.kind == s[i].kind
    ensures DirtTotal(s[i := a]) == DirtTotal(s)
  {
    if i == 0 {
      assert s[i := a][1..] == s[1..];
    } else {
      DirtTotalUpdate(s[1..], i - 1, a);
      assert s[i := a][1..] == s[1..][i - 1 := a];
    }
  }

  /** Replacing one agent changes the movement total by the difference of the two counters. */
  lemma {:induction false} TotalMovesUpdate(s: seq<Agent>, i: nat, a: Agent)
    requires i < |s|
    ensures TotalMoves(s[i := a]) == TotalMoves(s) - s[i].moves + a.moves
  {
    if i == 0 {
      assert s[i := a][1..] == s[1..];
    } else {
      TotalMovesUpdate(s[1..], i - 1, a);
      assert s[i := a][1..] == s[1..][i - 1 := a];
    }
  }

  /** Replacing one agent's record by one on the same cell keeps grid and positions in agreement. */
  lemma ReplaceConsistent(agents: seq<Agent>, g: Grid, i: nat, a: Agent)
    requires Consistent(agents, g) && i < |agents| && a.pos == agents[i].pos
    ensures Consistent(agents[i := a], g)
  {
    forall c, y: nat | y in Contents(g, c)
      ensures y < |agents[i := a]| && agents[i := a][y].pos == c
    {
      assert agents[y].pos == c;
    }
  }

  /** Replacing one agent by a well-typed one of the same class on the same cell keeps typing, bounds and the dirt layout. */
  lemma ReplaceShape(w: World, i: nat, a: Agent, s: seq<Agent>)
    requires i < |w.agents| && s == w.agents[i := a]
    requires forall j :: 0 <= j < |w.agents| ==> WellTyped(w.agents[j]) && InGrid(w, w.agents[j].pos)
    requires DirtApart(w.agents)
    requires a.kind == w.agents[i].kind && a.pos == w.agents[i].pos && WellTyped(a)
    ensures forall j :: 0 <= j < |s| ==> WellTyped(s[j]) && InGrid(w, s[j].pos)
    ensures DirtApart(s)
  {
  }

  /**
    Replacing one agent by one with the same class, cell and movement
    counter keeps the invariant, once the dirt counter absorbs the difference
    the replacement makes to the number of uncleaned dirt agents.
   */
  lemma ReplaceKeepsInvariant(w: World, i: nat, a: Agent)
    requires Invariant(w) && i < |w.agents|
    requires a.kind == w.agents[i].kind && a.pos == w.agents[i].pos && a.moves == w.agents[i].moves
    requires WellTyped(a)
    ensures Invariant(w.(agents := w.agents[i := a],
                         dirtLeft := w.dirtLeft - (if IsDirty(w.agents[i]) then 1 else 0)
                                                + (if IsDirty(a) then 1 else 0)))
  {
    var w' := w.(agents := w.agents[i := a],
                 dirtLeft := w.dirtLeft - (if IsDirty(w.agents[i]) then 1 else 0) + (if IsDirty(a) then 1 else 0));
    assert Consistent(w'.agents, w'.grid) by {
      ReplaceConsistent(w.agents, w.grid, i, a);
    }
    assert (forall j :: 0 <= j < |w'.agents| ==> WellTyped(w'.agents[j]) && InGrid(w', w'.agents[j].pos))
           && DirtApart(w'.agents) by {
      ReplaceShape(w, i, a, w'.agents);
    }
    assert DirtTotal(w'.agents) <= w'.width * w'.height by {
      DirtTotalUpdate(w.agents, i, a);
    }
    assert w'.dirtLeft == DirtyCount(w'.agents) by {
      DirtyCountUpdate(w.agents, i, a);
    }
    assert w'.movements == TotalMoves(w'.agents) by {
      TotalMovesUpdate(w.agents, i, a);
    }
  }

  /** Giving robot `r` a new record of the same class keeps typing, bounds and the dirt layout. */
  lemma RobotUpdateShape(w: World, r: nat, a: Agent, s: seq<Agent>)
    requires r < |w.agents| && w.agents[r].kind == Robot
    requires forall i :: 0 <= i < |w.agents| ==> WellTyped(w.agents[i]) && InGrid(w, w.agents[i].pos)
    requires DirtApart(w.agents)
    requires a.kind == Robot && WellTyped(a) && InGrid(w, a.pos)
    requires s == w.agents[r := a]
    ensures forall i :: 0 <= i < |s| ==> WellTyped(s[i]) && InGrid(w, s[i].pos)
    ensures DirtApart(s)
  {
  }

  /** The robot leaves its cell for `target`; both movement counters go up by one. */
  function Relocate(w: World, r: nat, target: Cell): (w': World)
    requires WellFormed(w) && r < |w.agents|
    ensures WellFormed(w') && |w'.agents| == |w.agents|
    ensures w'.agents[r].pos == target && w'.agents[r].moves == w.agents[r].moves + 1
    ensures w'.agents[r].(pos := w.agents[r].pos, moves := w.agents[r].moves) == w.agents[r]
    ensures forall j :: 0 <= j < |w.agents| && j != r ==> w'.agents[j] == w.agents[j]
    ensures w'.movements == w.movements + 1
    ensures w'.(grid := w.grid, agents := w.agents, movements := w.movements) == w
  {
    var a := w.agents[r];
    var g := MoveAgent(w.grid, a.pos, target, r);
    assert forall c, k :: c in g && 0 <= k < |g[c]| ==> g[c][k] < |w.agents| by {
      MoveAgentProvenance(w.grid, a.pos, target, r);
      forall c, k | c in g && 0 <= k < |g[c]|
        ensures g[c][k] < |w.agents|
      {
        assert g[c][k] in Contents(g, c);
      }
    }
    w.(grid := g,
       agents := w.agents[r := a.(pos := target, moves := a.moves + 1)],
       movements := w.movements + 1)
  }

  /**
    A state `w'` that gives robot `r` a new record one move further on,
    together with a grid that agrees with the new positions, keeps the
    invariant when its movement total is one higher.
   */
  lemma RobotMovedKeepsInvariant(w: World, r: nat, a: Agent, w': World)
    requires r < |w.agents| && w.agents[r].kind == Robot
    requires forall i :: 0 <= i < |w.agents| ==> WellTyped(w.agents[i]) && InGrid(w, w.agents[i].pos)
    requires DirtApart(w.agents) && DirtTotal(w.agents) <= w.width * w.height
    requires w.dirtLeft == DirtyCount(w.agents) && w.movements == TotalMoves(w.agents)
    requires a.kind == Robot && WellTyped(a) && InGrid(w, a.pos) && a.moves == w.agents[r].moves + 1
    requires w'.width == w.width && w'.height == w.height && w'.agents == w.agents[r := a]
    requires w'.dirtLeft == w.dirtLeft && w'.movements == w.movements + 1
    requires WellFormed(w') && Consistent(w'.agents, w'.grid)
    ensures Invariant(w')
  {
    assert (forall i :: 0 <= i < |w'.agents| ==> WellTyped(w'.agents[i]) && InGrid(w', w'.agents[i].pos))
           && DirtApart(w'.agents) by {
      RobotUpdateShape(w, r, a, w'.agents);
    }
    assert DirtTotal(w'.agents) <= w'.width * w'.height by {
      DirtTotalUpdate(w.agents, r, a);
    }
    assert w'.dirtLeft == DirtyCount(w'.agents) by {
      DirtyCountUpdate(w.agents, r, a);
    }
    assert w'.movements == TotalMoves(w'.agents) by {
      TotalMovesUpdate(w.agents, r, a);
    }
  }

  /** A relocation keeps the invariant: grid and positions agree, and both movement totals rise together. */
  lemma RelocateKeepsInvariant(w: World, r: nat, target: Cell)
    requires Invariant(w) && r < |w.agents| && w.agents[r].kind == Robot && InGrid(w, target)
    ensures Invariant(Relocate(w, r, target))
  {
    var a := w.agents[r];
    var a' := a.(pos := target, moves := a.moves + 1);
    var w' := Relocate(w, r, target);
    assert w'.agents == w.agents[r := a'] && w'.grid == MoveAgent(w.grid, a.pos, target, r);
    assert Consistent(w'.agents, w'.grid) by {
      ConsistentAfterMove(w.agents, w.grid, r, a');
    }
    RobotMovedKeepsInvariant(w, r, a', w');
  }

  /** Taking agent `r` off its own cell leaves every list without repetitions and without `r`. */
  lemma RemoveFromOwnCell(agents: seq<Agent>, g: Grid, r: nat)
    requires Consistent(agents, g) && r < |agents|
    ensures forall c, y :: y in Contents(Remove(g, agents[r].pos, r), c) <==> y in Contents(g, c) && y != r
    ensures forall c :: Distinct(Contents(Remove(g, agents[r].pos, r), c))
  {
    var p := agents[r].pos;
    RemoveFirstDistinct(Contents(g, p), r);
    forall c, y
      ensures y in Contents(Remove(g, p, r), c) <==> y in Contents(g, c) && y != r
    {
    }
  }

  /** Appending `r` to a list that lacks it keeps the list free of repetitions. */
  lemma AppendDistinct(xs: seq<nat>, r: nat)
    requires Distinct(xs) && r !in xs
    ensures Distinct(xs + [r])
  {
    forall u, v | 0 <= u < v < |xs + [r]|
      ensures (xs + [r])[u] != (xs + [r])[v]
    {
      if v == |xs| {
        assert (xs + [r])[u] == xs[u];
      }
    }
  }

  /** After agent `r` moves to `t`, a cell holds `r` exactly when it is `t`, and everything else stays put. */
  lemma MoveMembership(agents: seq<Agent>, g: Grid, r: nat, t: Cell)
    requires Consistent(agents, g) && r < |agents|
    ensures forall c, y :: y in Contents(MoveAgent(g, agents[r].pos, t, r), c) <==>
                             (y in Contents(g, c) && y != r) || (c == t && y == r)
    ensures forall c :: Distinct(Contents(MoveAgent(g, agents[r].pos, t, r), c))
  {
    var g1 := Remove(g, agents[r].pos, r);
    var g2 := Place(g1, t, r);
    RemoveFromOwnCell(agents, g, r);
    forall c, y
      ensures y in Contents(g2, c) <==> (y in Contents(g, c) && y != r) || (c == t && y == r)
    {
      if c == t {
        assert Contents(g2, c) == Contents(g1, c) + [r];
      } else {
        assert Contents(g2, c) == Contents(g1, c);
      }
    }
    forall c
      ensures Distinct(Contents(g2, c))
    {
      if c == t {
        AppendDistinct(Contents(g1, t), r);
      } else {
        assert Contents(g2, c) == Contents(g1, c);
      }
    }
  }

  /**
    Moving agent `r` on the grid while giving it its new record `a` (whose
    cell is the destination) keeps grid and positions in agreement.
   */
  lemma ConsistentAfterMove(agents: seq<Agent>, g: Grid, r: nat, a: Agent)
    requires Consistent(agents, g) && r < |agents|
    ensures Consistent(agents[r := a], MoveAgent(g, agents[r].pos, a.pos, r))
  {
    var g2 := MoveAgent(g, agents[r].pos, a.pos, r);
    var agents' := agents[r := a];
    MoveMembership(agents, g, r, a.pos);
    forall i | 0 <= i < |agents'|
      ensures i in Contents(g2, agents'[i].pos)
    {
      if i != r {
        assert i in Contents(g, agents[i].pos);
      }
    }
    forall c, y: nat | y in Contents(g2, c)
      ensures y < |agents'| && agents'[y].pos == c
    {
      if y != r {
        assert y in Contents(g, c);
      } else {
        assert c == a.pos;
      }
    }
  }
}
