/**
  One tick of the model: every scheduled agent is activated once, in id
  order, over the live shared state, after which the dirty percentage is
  recomputed. Also the two reducers that report on a state.
 */
module Simulation {
  import opened Grid
  import opened State
  import opened Robot
  import opened Outcomes

  /** Multiplying by a non-negative number keeps the order. */
  lemma MulMonotone(a: int, b: int, c: int)
    requires a <= b && c >= 0
    ensures a * c <= b * c
  {
    assert b * c - a * c == (b - a) * c;
  }

  /** The dirty percentage: floor of `num * 100 / area`, as integer floor division. */
  function PercentDirty(num: int, area: int): (p: int)
    requires area > 0
    ensures p * area <= num * 100 < (p + 1) * area
    ensures 0 <= num <= area ==> 0 <= p <= 100
  {
    var p := (num * 100) / area;
    assert p * area <= num * 100 < p * area + area by {
      assert num * 100 == p * area + (num * 100) % area;
    }
    assert (p + 1) * area == p * area + area;
    assert 0 <= num <= area ==> 0 <= p <= 100 by {
      if 0 <= num <= area {
        MulMonotone(num, area, 100);
        if p < 0 {
          MulMonotone(p + 1, 0, area);
        }
        if p > 100 {
          MulMonotone(101, p, area);
        }
      }
    }
    p
  }

  /** Activation of agent `i`: a robot steps, dirt keeps the do-nothing step of a plain agent. */
  function Activate(w: World, i: nat, target: Cell): (w': World)
    requires WellFormed(w) && i < |w.agents|
    ensures WellFormed(w') && |w'.agents| == |w.agents|
    ensures w'.width == w.width && w'.height == w.height
    ensures w'.stepBudget == w.stepBudget - (if w.agents[i].kind == Robot && !Terminal(w) then 1 else 0)
  {
    if w.agents[i].kind == Robot then Step(w, i, target) else w
  }

  /**
    Activates agents `i`, `i + 1`, ... in order, each seeing what the ones
    before it did; `targets[j]` is the cell agent `j` would pick. At most one
    budget unit is spent per activation, and a non-negative budget stays so.
   */
  function Schedule(w: World, i: nat, targets: seq<Cell>): (w': World)
    requires WellFormed(w) && |targets| == |w.agents| && i <= |w.agents|
    ensures WellFormed(w') && |w'.agents| == |w.agents|
    ensures w'.width == w.width && w'.height == w.height
    ensures w.stepBudget - (|w.agents| - i) <= w'.stepBudget <= w.stepBudget
    ensures w.stepBudget >= 0 ==> w'.stepBudget >= 0
    decreases |w.agents| - i
  {
    if i == |w.agents| then w else Schedule(Activate(w, i, targets[i]), i + 1, targets)
  }

  /** One model tick: the schedule over all agents, then the dirty percentage of the result. */
  function Tick(w: World, targets: seq<Cell>): (w': World)
    requires WellFormed(w) && |targets| == |w.agents|
    ensures WellFormed(w') && |w'.agents| == |w.agents|
    ensures w'.width == w.width && w'.height == w.height
    ensures w'.percentDirty * (w.width * w.height) <= w'.dirtLeft * 100
                                                   < (w'.percentDirty + 1) * (w.width * w.height)
    ensures w.stepBudget - |w.agents| <= w'.stepBudget <= w.stepBudget
    ensures w.stepBudget >= 0 ==> w'.stepBudget >= 0
  {
    var w1 := Schedule(w, 0, targets);
    w1.(percentDirty := PercentDirty(w1.dirtLeft, w1.width * w1.height))
  }

  /** The total of every agent's own movement counter, summed from the last agent back to the first. */
  method CalculateMovements(w: World) returns (total: nat)
    ensures total == TotalMoves(w.agents)
    ensures Invariant(w) ==> total == w.movements
  {
    total := 0;
    var i := |w.agents|;
    while i > 0
      invariant 0 <= i <= |w.agents|
      invariant total == TotalMoves(w.agents[i..])
    {
      i := i - 1;
      assert w.agents[i..][1..] == w.agents[i + 1..];
      total := total + w.agents[i].moves;
    }
    assert w.agents[0..] == w.agents;
  }

  /** The cached remaining-dirt counter of the first scheduled agent; nothing for an empty schedule. */
  function CalculateDirty(w: World): (r: Option<int>)
    ensures r.None? <==> |w.agents| == 0
    ensures r.Some? ==> r.value == w.agents[0].cachedDirt
  {
    if |w.agents| == 0 then None else Some(w.agents[0].cachedDirt)
  }

  /** Every target lies on the grid, as a neighbourhood on the torus always does. */
  predicate TargetsInGrid(w: World, targets: seq<Cell>) {
    forall k :: 0 <= k < |targets| ==> InGrid(w, targets[k])
  }

  /** One activation keeps the invariant, advances the state and touches no other robot. */
  lemma ActivateKeepsInvariant(w: World, i: nat, target: Cell)
    requires Invariant(w) && i < |w.agents| && InGrid(w, target)
    ensures Invariant(Activate(w, i, target)) && Advances(w, Activate(w, i, target))
    ensures Activate(w, i, target).percentDirty == w.percentDirty
    ensures forall j :: 0 <= j < |w.agents| && j != i && w.agents[j].kind == Robot ==>
              Activate(w, i, target).agents[j] == w.agents[j]
  {
    if w.agents[i].kind == Robot {
      StepKeepsInvariant(w, i, target);
    }
  }

  /** One activation followed by the rest of the schedule: what each keeps, the two keep together. */
  lemma ActivationsCompose(w: World, w1: World, x: World, i: nat)
    requires i < |w.agents| == |w1.agents| == |x.agents|
    requires Advances(w, w1) && Advances(w1, x)
    requires w1.percentDirty == w.percentDirty && x.percentDirty == w1.percentDirty
    requires forall j :: 0 <= j < |w.agents| && j != i && w.agents[j].kind == Robot ==> w1.agents[j] == w.agents[j]
    requires forall j :: 0 <= j < i + 1 && w1.agents[j].kind == Robot ==> x.agents[j] == w1.agents[j]
    ensures Advances(w, x) && x.percentDirty == w.percentDirty
    ensures forall j :: 0 <= j < i && w.agents[j].kind == Robot ==> x.agents[j] == w.agents[j]
  {
    AdvancesTrans(w, w1, x);
  }

  /**
    The schedule keeps the invariant and only advances the state; it leaves
    the dirty percentage alone and never touches a robot already activated.
   */
  lemma {:induction false} ScheduleKeepsInvariant(w: World, i: nat, targets: seq<Cell>)
    requires Invariant(w) && |targets| == |w.agents| && i <= |w.agents| && TargetsInGrid(w, targets)
    ensures Invariant(Schedule(w, i, targets))
    ensures Advances(w, Schedule(w, i, targets))
    ensures Schedule(w, i, targets).percentDirty == w.percentDirty
    ensures forall j :: 0 <= j < i && w.agents[j].kind == Robot ==> Schedule(w, i, targets).agents[j] == w.agents[j]
    decreases |w.agents| - i
  {
    if i < |w.agents| {
      var w1 := Activate(w, i, targets[i]);
      ActivateKeepsInvariant(w, i, targets[i]);
      ScheduleKeepsInvariant(w1, i + 1, targets);
      ActivationsCompose(w, w1, Schedule(w1, i + 1, targets), i);
    }
  }

  /**
    A tick keeps the invariant: the dirt counter still equals the number of
    uncleaned dirt agents (so it never rose and is not negative), the
    movement counter still equals the sum the movement reducer computes,
    dirt only went from DIRTY to CLEANED in place, and the step budget never
    rose.
   */
  lemma TickPreservesInvariant(w: World, targets: seq<Cell>)
    requires Invariant(w) && |targets| == |w.agents| && TargetsInGrid(w, targets)
    ensures var w' := Tick(w, targets);
      && Invariant(w') && Advances(w, w')
      && 0 <= w'.dirtLeft == DirtyCount(w'.agents) <= w.dirtLeft
      && w'.movements == TotalMoves(w'.agents) >= w.movements
  {
    ScheduleKeepsInvariant(w, 0, targets);
  }

  /** Percentages stay in [0, 100] in every state the invariant describes. */
  lemma PercentInRange(w: World, targets: seq<Cell>)
    requires Invariant(w) && |targets| == |w.agents| && TargetsInGrid(w, targets)
    ensures 0 <= Tick(w, targets).percentDirty <= 100
  {
    ScheduleKeepsInvariant(w, 0, targets);
  }

  /**
    A schedule run from a terminal state only refreshes the cached counter of
    each robot it activates; everything else stays as it was.
   */
  lemma {:induction false} ScheduleWhenTerminal(w: World, i: nat, targets: seq<Cell>)
    requires WellFormed(w) && Terminal(w) && |targets| == |w.agents| && i <= |w.agents|
    ensures var w' := Schedule(w, i, targets);
      && w' == w.(agents := w'.agents)
      && forall j :: 0 <= j < |w.agents| ==>
           w'.agents[j] == (if i <= j && w.agents[j].kind == Robot then w.agents[j].(cachedDirt := w.dirtLeft)
                            else w.agents[j])
    decreases |w.agents| - i
  {
    if i < |w.agents| {
      var w1 := Activate(w, i, targets[i]);
      if w.agents[i].kind == Robot {
        StepWhenTerminal(w, i, targets[i]);
      }
      assert w1 == w.(agents := w1.agents);
      ScheduleWhenTerminal(w1, i + 1, targets);
    }
  }

  /**
    The terminal state is absorbing: a tick from it moves nothing, cleans
    nothing and spends nothing; it only brings every robot's cached counter
    up to the model's counter, and any further tick is the identity.
   */
  lemma TerminalTickAbsorbing(w: World, targets: seq<Cell>, targets': seq<Cell>)
    requires WellFormed(w) && Terminal(w) && |targets| == |w.agents| && |targets'| == |w.agents|
    ensures var w' := Tick(w, targets);
      && Terminal(w')
      && w'.grid == w.grid && w'.stepBudget == w.stepBudget
      && w'.dirtLeft == w.dirtLeft && w'.movements == w.movements
      && (forall j :: 0 <= j < |w.agents| ==>
            && w'.agents[j].tag == w.agents[j].tag && w'.agents[j].pos == w.agents[j].pos
            && w'.agents[j].moves == w.agents[j].moves
            && w'.agents[j].cachedDirt == (if w.agents[j].kind == Robot then w.dirtLeft else w.agents[j].cachedDirt))
      && Tick(w', targets') == w'
  {
    var w' := Tick(w, targets);
    ScheduleWhenTerminal(w, 0, targets);
    var w'' := Schedule(w', 0, targets');
    ScheduleWhenTerminal(w', 0, targets');
    assert w''.agents == w'.agents;
  }

  /**
    After a tick in which agent 0 is a robot, the dirt reducer reports the
    counter as it stood at the start of the tick: robot 0 refreshes its copy
    before anyone acts and no later activation touches it.
   */
  lemma CalculateDirtyAfterTick(w: World, targets: seq<Cell>)
    requires Invariant(w) && |targets| == |w.agents| && TargetsInGrid(w, targets)
    requires |w.agents| > 0 && w.agents[0].kind == Robot
    ensures CalculateDirty(Tick(w, targets)) == Some(w.dirtLeft)
  {
    var w1 := Activate(w, 0, targets[0]);
    StepKeepsInvariant(w, 0, targets[0]);
    ScheduleKeepsInvariant(w1, 1, targets);
    assert w1.agents[0].cachedDirt == w.dirtLeft by {
      if Terminal(w) {
        StepWhenTerminal(w, 0, targets[0]);
      } else if d :| 0 <= d < |w.agents| && IsDirty(w.agents[d]) && w.agents[d].pos == w.agents[0].pos {
        StepCleans(w, 0, targets[0], d);
      } else {
        StepMoveRule(w, 0, targets[0]);
      }
    }
  }

  /** One robot and one uncleaned dirt agent on cell (1, 1) of a 2 by 2 grid, with one step left. */
  function LagWorld(): World {
    World(2, 2,
          [Agent(Robot, IDLE, Cell(1, 1), 0, 1), Agent(Dirt, DIRTY, Cell(1, 1), 0, 1)],
          map[Cell(1, 1) := [0, 1]], 1, 1, 0, 25)
  }

  lemma LagWorldInvariant()
    ensures Invariant(LagWorld())
  {
    var w := LagWorld();
    assert Consistent(w.agents, w.grid) by {
      forall c, y: nat | y in Contents(w.grid, c)
        ensures y < |w.agents| && w.agents[y].pos == c
      {
        assert c == Cell(1, 1);
      }
    }
    assert w.agents[1..] == [w.agents[1]] && w.agents[1..][1..] == [];
  }

  /**
    The reducer lags: the robot cleans the last dirt of the example world
    during the tick, yet the reducer still reports one dirty cell.
   */
  lemma CalculateDirtyLags()
    ensures var w' := Tick(LagWorld(), [Cell(0, 0), Cell(0, 0)]);
      w'.dirtLeft == 0 && CalculateDirty(w') == Some(1)
  {
    var w := LagWorld();
    var targets := [Cell(0, 0), Cell(0, 0)];
    LagWorldInvariant();
    StepCleans(w, 0, targets[0], 1);
    var w1 := Activate(w, 0, targets[0]);
    assert Schedule(w1, 1, targets) == w1 by {
      assert w1.agents[1].kind == Dirt;
    }
  }
}
