/**
  One activation of a cleaning robot. The robot first copies the global
  remaining-dirt counter; if the run is not over it scans its own cell,
  cleaning every uncleaned dirt agent there, and only when it cleaned
  nothing does it try to move to the cell the random choice picked. The
  picked cell is an argument here.
 */
module Robot {
  import opened Grid
  import opened State

  /** The outcome of scanning the robot's own cell. */
  datatype Sweep = Sweep(agents: seq<Agent>, dirtLeft: int, cleaned: bool)

  /** The robot copies the model's remaining-dirt counter. */
  function Refresh(w: World, r: nat): (w': World)
    requires r < |w.agents|
    ensures |w'.agents| == |w.agents|
    ensures w'.agents[r].cachedDirt == w.dirtLeft
    ensures w'.agents[r].(cachedDirt := w.agents[r].cachedDirt) == w.agents[r]
    ensures forall j :: 0 <= j < |w.agents| && j != r ==> w'.agents[j] == w.agents[j]
    ensures w'.(agents := w.agents) == w
  {
    w.(agents := w.agents[r := w.agents[r].(cachedDirt := w.dirtLeft)])
  }

  /**
    The scan of the robot's cell, agent by agent in the cell's order: an
    uncleaned dirt agent is cleaned (the counter drops, the robot turns
    CLEANING, the dirt turns CLEANED); a cleaned dirt agent turns the robot
    back to IDLE; anything else is passed over.
   */
  function SweepCell(agents: seq<Agent>, dirtLeft: int, r: nat, ids: seq<nat>, cleaned: bool): (s: Sweep)
    requires r < |agents|
    requires forall k :: 0 <= k < |ids| ==> ids[k] < |agents|
    ensures |s.agents| == |agents|
    ensures s.dirtLeft <= dirtLeft
    ensures s.cleaned <==> cleaned || s.dirtLeft < dirtLeft
    ensures forall j :: 0 <= j < |agents| ==>
              && s.agents[j].kind == agents[j].kind
              && s.agents[j].pos == agents[j].pos
              && s.agents[j].moves == agents[j].moves
              && s.agents[j].cachedDirt == agents[j].cachedDirt
    decreases |ids|
  {
    if |ids| == 0 then Sweep(agents, dirtLeft, cleaned)
    else
      var i := ids[0];
      if agents[i].tag == DIRTY then
        var withRobot := agents[r := agents[r].(tag := CLEANING)];
        SweepCell(withRobot[i := withRobot[i].(tag := CLEANED)], dirtLeft - 1, r, ids[1..], true)
      else if agents[i].tag == CLEANED then
        SweepCell(agents[r := agents[r].(tag := IDLE)], dirtLeft, r, ids[1..], cleaned)
      else
        SweepCell(agents, dirtLeft, r, ids[1..], cleaned)
  }

  /**
    The acceptance rule for the chosen cell: join it when it is empty, or
    when its single occupant does not carry the IDLE tag; otherwise stay.
   */
  function TryMove(w: World, r: nat, target: Cell): (w': World)
    requires WellFormed(w) && r < |w.agents|
    ensures WellFormed(w') && |w'.agents| == |w.agents|
    ensures w' == w || w' == Relocate(w, r, target)
    ensures w'.dirtLeft == w.dirtLeft && w'.stepBudget == w.stepBudget
  {
    var there := Contents(w.grid, target);
    if |there| == 1 then
      if w.agents[there[0]].tag != IDLE then Relocate(w, r, target) else w
    else if |there| == 0 then
      Relocate(w, r, target)
    else
      w
  }

  /** The scan of the robot's own cell, whose contents always include the robot itself. */
  function Scan(w: World, r: nat): (s: Sweep)
    requires WellFormed(w) && r < |w.agents|
    ensures |s.agents| == |w.agents|
    ensures s.dirtLeft <= w.dirtLeft
    ensures s.cleaned <==> s.dirtLeft < w.dirtLeft
    ensures forall j :: 0 <= j < |w.agents| ==>
              && s.agents[j].kind == w.agents[j].kind
              && s.agents[j].pos == w.agents[j].pos
              && s.agents[j].moves == w.agents[j].moves
              && s.agents[j].cachedDirt == w.agents[j].cachedDirt
  {
    var cellmates := Contents(w.grid, w.agents[r].pos);
    assert forall k :: 0 <= k < |cellmates| ==> cellmates[k] < |w.agents|;
    if |cellmates| != 0 then SweepCell(w.agents, w.dirtLeft, r, cellmates, false)
    else Sweep(w.agents, w.dirtLeft, false)
  }

  /** The body of a non-terminal activation: scan the own cell, and move only if nothing was cleaned. */
  function Move(w: World, r: nat, target: Cell): (w': World)
    requires WellFormed(w) && r < |w.agents|
    ensures WellFormed(w') && |w'.agents| == |w.agents|
    ensures w'.stepBudget == w.stepBudget
    ensures w'.dirtLeft <= w.dirtLeft
    ensures w'.movements == w.movements || w'.movements == w.movements + 1
    ensures w'.movements == w.movements || w'.dirtLeft == w.dirtLeft
    ensures w'.agents[r].cachedDirt == w.dirtLeft
  {
    var w1 := Refresh(w, r);
    var cellmates := Contents(w1.grid, w1.agents[r].pos);
    var s := Scan(w1, r);
    var w2 := w1.(agents := s.agents, dirtLeft := s.dirtLeft);
    if |cellmates| == 0 || !s.cleaned then TryMove(w2, r, target) else w2
  }

  /**
    One activation of robot `r`, with `target` the neighbour cell the random
    choice would pick. A non-terminal activation spends one unit of the step
    budget; a terminal one spends nothing.
   */
  function Step(w: World, r: nat, target: Cell): (w': World)
    requires WellFormed(w) && r < |w.agents|
    ensures WellFormed(w') && |w'.agents| == |w.agents|
    ensures w'.width == w.width && w'.height == w.height
    ensures Terminal(w) ==> w'.stepBudget == w.stepBudget
    ensures !Terminal(w) ==> w'.stepBudget == w.stepBudget - 1
  {
    var w1 := Refresh(w, r);
    if w1.stepBudget > 0 && w1.dirtLeft > 0 then
      var w2 := Move(w1, r, target);
      w2.(stepBudget := w2.stepBudget - 1)
    else
      w1
  }

  /**
    The acceptance rule stated on the agents themselves: the chosen cell is
    empty, or its only occupant is not an idle robot.
   */
  predicate Accepts(w: World, target: Cell) {
    var there := Contents(w.grid, target);
    |there| == 0 || (|there| == 1 && there[0] < |w.agents| && !IsIdleRobot(w.agents[there[0]]))
  }

  /** True iff some dirt agent, cleaned or not, lies on cell `c`. */
  ghost predicate DirtOn(w: World, c: Cell) {
    exists d :: 0 <= d < |w.agents| && w.agents[d].kind == Dirt && w.agents[d].pos == c
  }

  /** A scan over cell members that are all robots changes nothing: robots carry neither dirt tag. */
  lemma {:induction false} SweepRobotsOnly(agents: seq<Agent>, dirtLeft: int, r: nat, ids: seq<nat>, cleaned: bool)
    requires r < |agents|
    requires forall k :: 0 <= k < |ids| ==>
               ids[k] < |agents| && agents[ids[k]].kind == Robot && WellTyped(agents[ids[k]])
    ensures SweepCell(agents, dirtLeft, r, ids, cleaned) == Sweep(agents, dirtLeft, cleaned)
    decreases |ids|
  {
    if |ids| > 0 {
      SweepRobotsOnly(agents, dirtLeft, r, ids[1..], cleaned);
    }
  }

  /**
    A scan over a cell holding exactly one dirt agent `d` among robots: an
    uncleaned `d` is cleaned, turning the robot CLEANING; an already cleaned
    `d` turns the robot IDLE and nothing else happens.
   */
  lemma {:induction false} SweepOneDirt(agents: seq<Agent>, dirtLeft: int, r: nat, ids: seq<nat>, cleaned: bool, k: nat)
    requires r < |agents| && agents[r].kind == Robot && WellTyped(agents[r])
    requires k < |ids|
    requires forall m :: 0 <= m < |ids| ==> ids[m] < |agents| && WellTyped(agents[ids[m]])
    requires agents[ids[k]].kind == Dirt
    requires forall m :: 0 <= m < |ids| && m != k ==> agents[ids[m]].kind == Robot
    ensures SweepCell(agents, dirtLeft, r, ids, cleaned) ==
              if agents[ids[k]].tag == DIRTY then
                Sweep(agents[r := agents[r].(tag := CLEANING)][ids[k] := agents[ids[k]].(tag := CLEANED)],
                      dirtLeft - 1, true)
              else
                Sweep(agents[r := agents[r].(tag := IDLE)], dirtLeft, cleaned)
    decreases |ids|
  {
    var d := ids[k];
    if k == 0 {
      if agents[d].tag == DIRTY {
        var after := agents[r := agents[r].(tag := CLEANING)][d := agents[d].(tag := CLEANED)];
        SweepRobotsOnly(after, dirtLeft - 1, r, ids[1..], true);
      } else {
        var after := agents[r := agents[r].(tag := IDLE)];
        SweepRobotsOnly(after, dirtLeft, r, ids[1..], cleaned);
      }
    } else {
      SweepOneDirt(agents, dirtLeft, r, ids[1..], cleaned, k - 1);
    }
  }

  /**
    The robot's own cell always holds the robot itself, so the branch for an
    empty own cell can never be taken.
   */
  lemma OwnCellHoldsRobot(w: World, r: nat)
    requires Invariant(w) && r < |w.agents|
    ensures r in Contents(w.grid, w.agents[r].pos)
    ensures |Contents(w.grid, w.agents[r].pos)| != 0
  {
  }

  /** Every member of the robot's own cell stands on that cell, and no member is listed twice. */
  lemma OwnCellMembers(w: World, r: nat)
    requires Invariant(w) && r < |w.agents|
    ensures var own := Contents(w.grid, w.agents[r].pos);
      && Distinct(own)
      && forall m :: 0 <= m < |own| ==> own[m] < |w.agents| && w.agents[own[m]].pos == w.agents[r].pos
  {
    var own := Contents(w.grid, w.agents[r].pos);
    forall m | 0 <= m < |own|
      ensures own[m] < |w.agents| && w.agents[own[m]].pos == w.agents[r].pos
    {
      assert own[m] in own;
    }
  }

  /**
    Scanning a cell that holds dirt agent `d`: an uncleaned `d` is cleaned
    and the robot turns CLEANING; an already cleaned `d` only turns the robot
    IDLE.
   */
  lemma ScanWithDirt(w: World, r: nat, d: nat)
    requires Invariant(w) && r < |w.agents| && w.agents[r].kind == Robot
    requires d < |w.agents| && w.agents[d].kind == Dirt && w.agents[d].pos == w.agents[r].pos
    ensures Scan(w, r) ==
              if w.agents[d].tag == DIRTY then
                Sweep(w.agents[r := w.agents[r].(tag := CLEANING)][d := w.agents[d].(tag := CLEANED)],
                      w.dirtLeft - 1, true)
              else
                Sweep(w.agents[r := w.agents[r].(tag := IDLE)], w.dirtLeft, false)
  {
    var own := Contents(w.grid, w.agents[r].pos);
    OwnCellMembers(w, r);
    assert d in own;
    var k :| 0 <= k < |own| && own[k] == d;
    forall m | 0 <= m < |own| && m != k
      ensures w.agents[own[m]].kind == Robot
    {
      assert own[m] != own[k];
    }
    SweepOneDirt(w.agents, w.dirtLeft, r, own, false, k);
  }

  /** Scanning a cell without dirt changes nothing. */
  lemma ScanWithoutDirt(w: World, r: nat)
    requires Invariant(w) && r < |w.agents| && w.agents[r].kind == Robot
    requires !DirtOn(w, w.agents[r].pos)
    ensures Scan(w, r) == Sweep(w.agents, w.dirtLeft, false)
  {
    var own := Contents(w.grid, w.agents[r].pos);
    OwnCellMembers(w, r);
    forall m | 0 <= m < |own|
      ensures w.agents[own[m]].kind == Robot
    {
      assert w.agents[own[m]].pos == w.agents[r].pos;
    }
    SweepRobotsOnly(w.agents, w.dirtLeft, r, own, false);
  }

  /**
    What any activation may do to the state: dimensions, population and
    classes stay, dirt stays on its cell and can only go from DIRTY to
    CLEANED, and the three counters move in one direction only.
   */
  ghost predicate Advances(w: World, w': World) {
    && w'.width == w.width && w'.height == w.height
    && |w'.agents| == |w.agents|
    && w'.dirtLeft <= w.dirtLeft
    && w'.movements >= w.movements
    && w'.stepBudget <= w.stepBudget
    && (forall j :: 0 <= j < |w.agents| ==> w'.agents[j].kind == w.agents[j].kind)
    && (forall j :: 0 <= j < |w.agents| && w.agents[j].kind == Dirt ==>
          && w'.agents[j].pos == w.agents[j].pos
          && (w'.agents[j].tag == w.agents[j].tag || (w.agents[j].tag == DIRTY && w'.agents[j].tag == CLEANED)))
  }

  /** Advancing is transitive, so it carries over a whole tick. */
  lemma AdvancesTrans(w0: World, w1: World, w2: World)
    requires Advances(w0, w1) && Advances(w1, w2)
    ensures Advances(w0, w2)
  {
  }

  /** The move attempt keeps the invariant and moves nobody but the robot. */
  lemma TryMoveKeepsInvariant(w: World, r: nat, target: Cell)
    requires Invariant(w) && r < |w.agents| && w.agents[r].kind == Robot && InGrid(w, target)
    ensures Invariant(TryMove(w, r, target))
    ensures Advances(w, TryMove(w, r, target))
    ensures TryMove(w, r, target).dirtLeft == w.dirtLeft
    ensures forall j :: 0 <= j < |w.agents| && j != r ==> TryMove(w, r, target).agents[j] == w.agents[j]
  {
    RelocateKeepsInvariant(w, r, target);
  }

  /** Cleaning dirt agent `d` from robot `r`'s cell keeps the invariant and advances the state, with one dirt fewer. */
  lemma CleanKeepsInvariant(w: World, r: nat, d: nat)
    requires Invariant(w) && r < |w.agents| && w.agents[r].kind == Robot
    requires d < |w.agents| && IsDirty(w.agents[d])
    ensures var x := w.(agents := w.agents[r := w.agents[r].(tag := CLEANING)][d := w.agents[d].(tag := CLEANED)],
                        dirtLeft := w.dirtLeft - 1);
      && Invariant(x) && Advances(w, x)
      && forall j :: 0 <= j < |w.agents| && j != r && w.agents[j].kind == Robot ==> x.agents[j] == w.agents[j]
  {
    var w1 := w.(agents := w.agents[r := w.agents[r].(tag := CLEANING)]);
    ReplaceKeepsInvariant(w, r, w.agents[r].(tag := CLEANING));
    ReplaceKeepsInvariant(w1, d, w1.agents[d].(tag := CLEANED));
  }

  /** Refreshing the cached counter keeps the invariant and is idempotent. */
  lemma RefreshKeepsInvariant(w: World, r: nat)
    requires Invariant(w) && r < |w.agents|
    ensures Invariant(Refresh(w, r))
    ensures Refresh(Refresh(w, r), r) == Refresh(w, r)
  {
    ReplaceKeepsInvariant(w, r, w.agents[r].(cachedDirt := w.dirtLeft));
  }

  /** Turning robot `r` IDLE keeps the invariant and advances the state. */
  lemma IdleKeepsInvariant(w: World, r: nat)
    requires Invariant(w) && r < |w.agents| && w.agents[r].kind == Robot
    ensures Invariant(w.(agents := w.agents[r := w.agents[r].(tag := IDLE)]))
    ensures Advances(w, w.(agents := w.agents[r := w.agents[r].(tag := IDLE)]))
  {
    ReplaceKeepsInvariant(w, r, w.agents[r].(tag := IDLE));
  }

  /** On a cell with uncleaned dirt `d` the robot cleans it and does not try to move. */
  lemma MoveCleans(w: World, r: nat, target: Cell, d: nat)
    requires Invariant(w) && r < |w.agents| && w.agents[r].kind == Robot
    requires d < |w.agents| && IsDirty(w.agents[d]) && w.agents[d].pos == w.agents[r].pos
    ensures var w1 := Refresh(w, r);
      Move(w, r, target) ==
        w1.(agents := w1.agents[r := w1.agents[r].(tag := CLEANING)][d := w1.agents[d].(tag := CLEANED)],
            dirtLeft := w1.dirtLeft - 1)
  {
    RefreshKeepsInvariant(w, r);
    ScanWithDirt(Refresh(w, r), r, d);
  }

  /** On a cell whose dirt `d` is already cleaned the robot turns IDLE and tries to move. */
  lemma MoveAfterCleanedDirt(w: World, r: nat, target: Cell, d: nat)
    requires Invariant(w) && r < |w.agents| && w.agents[r].kind == Robot
    requires d < |w.agents| && w.agents[d].kind == Dirt && w.agents[d].tag != DIRTY
    requires w.agents[d].pos == w.agents[r].pos
    ensures var w1 := Refresh(w, r);
      Move(w, r, target) == TryMove(w1.(agents := w1.agents[r := w1.agents[r].(tag := IDLE)]), r, target)
  {
    RefreshKeepsInvariant(w, r);
    ScanWithDirt(Refresh(w, r), r, d);
    OwnCellHoldsRobot(Refresh(w, r), r);
  }

  /** On a cell without dirt the robot only tries to move. */
  lemma MoveWithoutDirt(w: World, r: nat, target: Cell)
    requires Invariant(w) && r < |w.agents| && w.agents[r].kind == Robot
    requires !DirtOn(w, w.agents[r].pos)
    ensures Move(w, r, target) == TryMove(Refresh(w, r), r, target)
  {
    RefreshKeepsInvariant(w, r);
    ScanWithoutDirt(Refresh(w, r), r);
  }

  /** The cleaning case of an activation keeps the invariant and advances the state. */
  lemma StepCleanCase(w: World, r: nat, target: Cell, d: nat)
    requires Invariant(w) && r < |w.agents| && w.agents[r].kind == Robot && !Terminal(w)
    requires d < |w.agents| && IsDirty(w.agents[d]) && w.agents[d].pos == w.agents[r].pos
    ensures Invariant(Step(w, r, target)) && Advances(w, Step(w, r, target))
    ensures Step(w, r, target).percentDirty == w.percentDirty
    ensures forall j :: 0 <= j < |w.agents| && j != r && w.agents[j].kind == Robot ==>
              Step(w, r, target).agents[j] == w.agents[j]
  {
    var w1 := Refresh(w, r);
    var x := w1.(agents := w1.agents[r := w1.agents[r].(tag := CLEANING)][d := w1.agents[d].(tag := CLEANED)],
                 dirtLeft := w1.dirtLeft - 1);
    assert Step(w, r, target) == x.(stepBudget := x.stepBudget - 1) by {
      RefreshKeepsInvariant(w, r);
      MoveCleans(w1, r, target, d);
    }
    assert && Invariant(x) && Advances(w1, x) && x.percentDirty == w1.percentDirty && x.stepBudget == w1.stepBudget
           && forall j :: 0 <= j < |w1.agents| && j != r && w1.agents[j].kind == Robot ==> x.agents[j] == w1.agents[j]
    by {
      RefreshKeepsInvariant(w, r);
      CleanKeepsInvariant(w1, r, d);
    }
    SpendOne(w, w1, x, r);
  }

  /**
    Spending one unit of budget after robot `r` acted (taking `w0` to `x`)
    keeps what the activation established.
   */
  lemma SpendOne(w0: World, w1: World, x: World, r: nat)
    requires r < |w0.agents| && w1 == Refresh(w0, r)
    requires Invariant(x) && Advances(w1, x) && x.percentDirty == w1.percentDirty
    requires x.stepBudget == w1.stepBudget
    requires forall j :: 0 <= j < |w1.agents| && j != r && w1.agents[j].kind == Robot ==> x.agents[j] == w1.agents[j]
    ensures var x' := x.(stepBudget := x.stepBudget - 1);
      && Invariant(x') && Advances(w0, x') && x'.percentDirty == w0.percentDirty
      && forall j :: 0 <= j < |w0.agents| && j != r && w0.agents[j].kind == Robot ==> x'.agents[j] == w0.agents[j]
  {
  }

  /** An activation on a cell whose dirt is already cleaned keeps the invariant and advances the state. */
  lemma StepCleanedDirtCase(w: World, r: nat, target: Cell, d: nat)
    requires Invariant(w) && r < |w.agents| && w.agents[r].kind == Robot && !Terminal(w) && InGrid(w, target)
    requires d < |w.agents| && w.agents[d].kind == Dirt && w.agents[d].tag != DIRTY
    requires w.agents[d].pos == w.agents[r].pos
    ensures Invariant(Step(w, r, target)) && Advances(w, Step(w, r, target))
    ensures Step(w, r, target).percentDirty == w.percentDirty
    ensures forall j :: 0 <= j < |w.agents| && j != r && w.agents[j].kind == Robot ==>
              Step(w, r, target).agents[j] == w.agents[j]
  {
    var w1 := Refresh(w, r);
    var w2 := w1.(agents := w1.agents[r := w1.agents[r].(tag := IDLE)]);
    var x := TryMove(w2, r, target);
    assert Step(w, r, target) == x.(stepBudget := x.stepBudget - 1) by {
      RefreshKeepsInvariant(w, r);
      MoveAfterCleanedDirt(w1, r, target, d);
    }
    assert && Invariant(x) && Advances(w1, x) && x.percentDirty == w1.percentDirty && x.stepBudget == w1.stepBudget
           && forall j :: 0 <= j < |w1.agents| && j != r && w1.agents[j].kind == Robot ==> x.agents[j] == w1.agents[j]
    by {
      RefreshKeepsInvariant(w, r);
      IdleKeepsInvariant(w1, r);
      TryMoveKeepsInvariant(w2, r, target);
      AdvancesTrans(w1, w2, x);
    }
    SpendOne(w, w1, x, r);
  }

  /** An activation on a cell without dirt keeps the invariant and advances the state. */
  lemma StepNoDirtCase(w: World, r: nat, target: Cell)
    requires Invariant(w) && r < |w.agents| && w.agents[r].kind == Robot && !Terminal(w) && InGrid(w, target)
    requires !DirtOn(w, w.agents[r].pos)
    ensures Invariant(Step(w, r, target)) && Advances(w, Step(w, r, target))
    ensures Step(w, r, target).percentDirty == w.percentDirty
    ensures forall j :: 0 <= j < |w.agents| && j != r && w.agents[j].kind == Robot ==>
              Step(w, r, target).agents[j] == w.agents[j]
  {
    var w1 := Refresh(w, r);
    var x := TryMove(w1, r, target);
    assert Step(w, r, target) == x.(stepBudget := x.stepBudget - 1) by {
      RefreshKeepsInvariant(w, r);
      assert !DirtOn(w1, w1.agents[r].pos);
      MoveWithoutDirt(w1, r, target);
    }
    assert && Invariant(x) && Advances(w1, x) && x.percentDirty == w1.percentDirty && x.stepBudget == w1.stepBudget
           && forall j :: 0 <= j < |w1.agents| && j != r && w1.agents[j].kind == Robot ==> x.agents[j] == w1.agents[j]
    by {
      RefreshKeepsInvariant(w, r);
      TryMoveKeepsInvariant(w1, r, target);
    }
    SpendOne(w, w1, x, r);
  }

  /**
    One robot activation keeps the invariant (in particular the dirt counter
    still counts the uncleaned dirt agents and the movement total still sums
    the agents' own counters), advances the state, and leaves every other
    robot as it was.
   */
  lemma StepKeepsInvariant(w: World, r: nat, target: Cell)
    requires Invariant(w) && r < |w.agents| && w.agents[r].kind == Robot && InGrid(w, target)
    ensures Invariant(Step(w, r, target))
    ensures Advances(w, Step(w, r, target))
    ensures Step(w, r, target).percentDirty == w.percentDirty
    ensures forall j :: 0 <= j < |w.agents| && j != r && w.agents[j].kind == Robot ==>
              Step(w, r, target).agents[j] == w.agents[j]
  {
    if Terminal(w) {
      RefreshKeepsInvariant(w, r);
    } else if d :| 0 <= d < |w.agents| && w.agents[d].kind == Dirt && w.agents[d].pos == w.agents[r].pos {
      if w.agents[d].tag == DIRTY {
        StepCleanCase(w, r, target, d);
      } else {
        StepCleanedDirtCase(w, r, target, d);
      }
    } else {
      StepNoDirtCase(w, r, target);
    }
  }

  /**
    A terminal activation changes nothing but the robot's cached copy of the
    remaining-dirt counter: no move, no cleaning, no budget spent.
   */
  lemma StepWhenTerminal(w: World, r: nat, target: Cell)
    requires WellFormed(w) && r < |w.agents| && Terminal(w)
    ensures var w' := Step(w, r, target);
      && w'.grid == w.grid
      && w'.stepBudget == w.stepBudget && w'.dirtLeft == w.dirtLeft
      && w'.movements == w.movements && w'.percentDirty == w.percentDirty
      && Terminal(w')
      && w'.agents[r] == w.agents[r].(cachedDirt := w.dirtLeft)
      && forall j :: 0 <= j < |w.agents| && j != r ==> w'.agents[j] == w.agents[j]
  {
  }

  /**
    A non-terminal activation on a cell holding uncleaned dirt `d`: `d` turns
    CLEANED, the robot turns CLEANING, the dirt counter drops by one, and the
    robot does not move.
   */
  lemma StepCleans(w: World, r: nat, target: Cell, d: nat)
    requires Invariant(w) && r < |w.agents| && w.agents[r].kind == Robot && !Terminal(w)
    requires d < |w.agents| && IsDirty(w.agents[d]) && w.agents[d].pos == w.agents[r].pos
    ensures var w' := Step(w, r, target);
      && w'.agents[d] == w.agents[d].(tag := CLEANED)
      && w'.agents[r] == w.agents[r].(tag := CLEANING, cachedDirt := w.dirtLeft)
      && w'.grid == w.grid
      && w'.movements == w.movements
      && w'.dirtLeft == w.dirtLeft - 1
      && w'.stepBudget == w.stepBudget - 1
      && forall j :: 0 <= j < |w.agents| && j != r && j != d ==> w'.agents[j] == w.agents[j]
  {
    RefreshKeepsInvariant(w, r);
    MoveCleans(Refresh(w, r), r, target, d);
  }

  /** The move attempt relocates the robot exactly when the target cell accepts it. */
  lemma TryMoveRule(w: World, r: nat, target: Cell)
    requires WellFormed(w) && r < |w.agents| && forall i :: 0 <= i < |w.agents| ==> WellTyped(w.agents[i])
    ensures Accepts(w, target) ==> TryMove(w, r, target) == Relocate(w, r, target)
    ensures !Accepts(w, target) ==> TryMove(w, r, target) == w
  {
    var there := Contents(w.grid, target);
    if |there| == 1 {
      assert target in w.grid && there[0] == w.grid[target][0];
    }
  }

  /**
    Turning the robot IDLE on a cell that also holds dirt does not change
    whether a target accepts it: the robot alone can never be the single
    occupant of that cell.
   */
  lemma AcceptsAfterIdle(w: World, r: nat, target: Cell, d: nat)
    requires Consistent(w.agents, w.grid) && r < |w.agents| && w.agents[r].kind == Robot
    requires d < |w.agents| && w.agents[d].kind == Dirt && w.agents[d].pos == w.agents[r].pos
    ensures Accepts(w.(agents := w.agents[r := w.agents[r].(tag := IDLE)]), target) <==> Accepts(w, target)
  {
    var own := Contents(w.grid, w.agents[r].pos);
    var there := Contents(w.grid, target);
    assert d in own && r in own;
    assert |own| != 1;
    assert r in there ==> target == w.agents[r].pos;
    assert |there| == 1 ==> there[0] in there;
  }

  /** The move attempt, field by field: only the robot's cell and counter change, and only on acceptance. */
  lemma TryMoveOutcome(w: World, r: nat, target: Cell)
    requires WellFormed(w) && r < |w.agents| && forall i :: 0 <= i < |w.agents| ==> WellTyped(w.agents[i])
    ensures var x := TryMove(w, r, target);
      && x.dirtLeft == w.dirtLeft && x.stepBudget == w.stepBudget
      && x.agents[r].tag == w.agents[r].tag && x.agents[r].cachedDirt == w.agents[r].cachedDirt
      && (forall j :: 0 <= j < |w.agents| && j != r ==> x.agents[j] == w.agents[j])
      && (Accepts(w, target) ==>
            x.agents[r].pos == target && x.agents[r].moves == w.agents[r].moves + 1 && x.movements == w.movements + 1)
      && (!Accepts(w, target) ==> x == w)
  {
    TryMoveRule(w, r, target);
  }

  /** On a cell whose dirt is already cleaned, the activation is the move attempt of the refreshed, idle robot. */
  lemma StepPastCleanedDirt(w: World, r: nat, target: Cell, d: nat)
    requires Invariant(w) && r < |w.agents| && w.agents[r].kind == Robot && !Terminal(w)
    requires d < |w.agents| && w.agents[d].kind == Dirt && w.agents[d].tag != DIRTY
    requires w.agents[d].pos == w.agents[r].pos
    ensures var w1 := Refresh(w, r);
      var w2 := w1.(agents := w1.agents[r := w1.agents[r].(tag := IDLE)]);
      && Step(w, r, target) == TryMove(w2, r, target).(stepBudget := w.stepBudget - 1)
      && (Accepts(w2, target) <==> Accepts(w, target))
  {
    var w1 := Refresh(w, r);
    RefreshKeepsInvariant(w, r);
    MoveAfterCleanedDirt(w1, r, target, d);
    AcceptsAfterIdle(w1, r, target, d);
  }

  /** The movement rule on a cell whose dirt is already cleaned: the robot turns IDLE, then tries to move. */
  lemma StepMovesPastCleanedDirt(w: World, r: nat, target: Cell, d: nat)
    requires Invariant(w) && r < |w.agents| && w.agents[r].kind == Robot && !Terminal(w)
    requires d < |w.agents| && w.agents[d].kind == Dirt && w.agents[d].tag != DIRTY
    requires w.agents[d].pos == w.agents[r].pos
    ensures var w' := Step(w, r, target); var a := w.agents[r];
      && w'.dirtLeft == w.dirtLeft && w'.stepBudget == w.stepBudget - 1
      && w'.agents[r].tag == (if DirtOn(w, a.pos) then IDLE else a.tag)
      && w'.agents[r].cachedDirt == w.dirtLeft
      && (forall j :: 0 <= j < |w.agents| && j != r ==> w'.agents[j] == w.agents[j])
      && (Accepts(w, target) <==> w'.agents[r].moves == a.moves + 1)
      && (Accepts(w, target) ==> w'.agents[r].pos == target && w'.movements == w.movements + 1)
      && (!Accepts(w, target) ==>
            w'.agents[r].pos == a.pos && w'.agents[r].moves == a.moves &&
            w'.movements == w.movements && w'.grid == w.grid)
  {
    var w1 := Refresh(w, r);
    var w2 := w1.(agents := w1.agents[r := w1.agents[r].(tag := IDLE)]);
    StepPastCleanedDirt(w, r, target, d);
    TryMoveOutcome(w2, r, target);
    assert DirtOn(w, w.agents[r].pos);
  }

  /** The movement rule on a cell without dirt. */
  lemma StepMovesFromCleanCell(w: World, r: nat, target: Cell)
    requires Invariant(w) && r < |w.agents| && w.agents[r].kind == Robot && !Terminal(w)
    requires !DirtOn(w, w.agents[r].pos)
    ensures var w' := Step(w, r, target); var a := w.agents[r];
      && w'.dirtLeft == w.dirtLeft && w'.stepBudget == w.stepBudget - 1
      && w'.agents[r].tag == (if DirtOn(w, a.pos) then IDLE else a.tag)
      && w'.agents[r].cachedDirt == w.dirtLeft
      && (forall j :: 0 <= j < |w.agents| && j != r ==> w'.agents[j] == w.agents[j])
      && (Accepts(w, target) <==> w'.agents[r].moves == a.moves + 1)
      && (Accepts(w, target) ==> w'.agents[r].pos == target && w'.movements == w.movements + 1)
      && (!Accepts(w, target) ==>
            w'.agents[r].pos == a.pos && w'.agents[r].moves == a.moves &&
            w'.movements == w.movements && w'.grid == w.grid)
  {
    var w1 := Refresh(w, r);
    RefreshKeepsInvariant(w, r);
    assert !DirtOn(w1, w1.agents[r].pos);
    MoveWithoutDirt(w1, r, target);
    TryMoveOutcome(w1, r, target);
  }

  /**
    A non-terminal activation on a cell without uncleaned dirt: nothing is
    cleaned, and the robot moves to the target (both movement counters up by
    one) if and only if the target is empty or its single occupant is not an
    idle robot; otherwise it stays. No other agent changes.
   */
  lemma StepMoveRule(w: World, r: nat, target: Cell)
    requires Invariant(w) && r < |w.agents| && w.agents[r].kind == Robot && !Terminal(w)
    requires forall d :: 0 <= d < |w.agents| && w.agents[d].pos == w.agents[r].pos ==> !IsDirty(w.agents[d])
    ensures var w' := Step(w, r, target); var a := w.agents[r];
      && w'.dirtLeft == w.dirtLeft && w'.stepBudget == w.stepBudget - 1
      && w'.agents[r].tag == (if DirtOn(w, a.pos) then IDLE else a.tag)
      && w'.agents[r].cachedDirt == w.dirtLeft
      && (forall j :: 0 <= j < |w.agents| && j != r ==> w'.agents[j] == w.agents[j])
      && (Accepts(w, target) <==> w'.agents[r].moves == a.moves + 1)
      && (Accepts(w, target) ==> w'.agents[r].pos == target && w'.movements == w.movements + 1)
      && (!Accepts(w, target) ==>
            w'.agents[r].pos == a.pos && w'.agents[r].moves == a.moves &&
            w'.movements == w.movements && w'.grid == w.grid)
  {
    if d :| 0 <= d < |w.agents| && w.agents[d].kind == Dirt && w.agents[d].pos == w.agents[r].pos {
      StepMovesPastCleanedDirt(w, r, target, d);
    } else {
      StepMovesFromCleanCell(w, r, target);
    }
  }
}
