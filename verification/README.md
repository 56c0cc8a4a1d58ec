# Cleaning-robot simulation in Dafny

This project models the cleaning-robot simulation in `RobotLimpia.py`.
Robots (`RobotLimpiezaAgent`) and dirt (`SuciedadAgent`) share a grid whose
cells can hold several agents. Each agent carries an integer status tag
(`tipo`):

| tag | meaning |
|---|---|
| 0 | dirt |
| 4 | cleaned dirt |
| 1 | idle robot |
| 3 | cleaning robot |

The model (`LimpiezaModel`) keeps three counters:

- the remaining step budget (`steps_max`);
- the remaining dirt (`numSuciedad`);
- the total number of moves (`movimientos`).

It also keeps the dirty percentage (`porcentajeSuciasFinal`).

A model tick activates every agent once, in id order, over the live state.
On each activation a robot does the following:

1. It copies the dirt counter into its own `suciedad`.
2. If the run is over, it stops there.
3. Otherwise it scans its own cell and cleans every uncleaned dirt agent there.
4. Only when it cleaned nothing does it try to move to the neighbour cell chosen at random. The move is accepted only when that cell is empty, or holds a single agent whose tag is not 1.

After the fold, the tick recomputes the percentage.

## Modules

- `grid.dfy` (`Grid`): cells as lists of agent ids.
  - Placing an agent appends it to the list.
  - Removing an agent drops its first occurrence.
  - Moving is a removal followed by a placement.
- `state.dfy` (`State`):
  - the agent and world records;
  - the tag constants;
  - the run invariant, which says:
    - grid and positions agree;
    - every agent is well typed and lies on the grid;
    - no two dirt agents share a cell;
    - `dirtLeft` counts the uncleaned dirt agents;
    - `movements` is the sum of the agents' own move counters.
  - the lemmas that keep the invariant across one-agent updates and across a robot's relocation.
- `robot.dfy` (`Robot`):
  - one robot activation (`Step`), split into the counter refresh, the scan of the own cell (`SweepCell`) and the move attempt (`TryMove`);
  - the properties of each branch.
- `simulation.dfy` (`Simulation`):
  - the percentage computed by floor division;
  - the schedule fold (`Schedule`) and the tick (`Tick`);
  - the two reducers `calculateMovements` and `calculateDirty`;
  - the tick-level properties.
- `setup.dfy` (`Setup`): the construction of the initial state.
  - Robots are stacked on (1, 1).
  - Dirt goes on distinct cells, drawn one after another from the list of free cells in `coord_iter` order.
  - A configuration that makes the source fail yields a `ConfigError`.
- `outcomes.dfy` (`Outcomes`): `Option` and `Result`.

## Random choices and library behaviour

Random choices are parameters:

- `Step` takes the target cell the robot would pick.
- `Tick` takes one target per agent id. Entries for dirt agents are ignored.
- `NewModel` takes one pick per dirt agent. A pick chooses the free cell at its value modulo the number of cells still free.

The behaviour of the mesa library that the code relies on is written out:

- `MultiGrid` cells are lists: `place_agent` appends, and `move_agent` removes the first occurrence, then appends.
- `SimultaneousActivation.step` calls `step()` on each agent in insertion order, which is id order. The base `advance()` does nothing.
- Dirt agents inherit the do-nothing `step()`.

## Where the code and its comments disagree

The model follows the code in each case:

- **One agent per cell.** The comment at line 10 of `RobotLimpia.py` says `SingleGrid` forces one agent per cell. The code uses `MultiGrid`, whose cells hold lists, so robots share (1, 1) and robots share cells with dirt.
- **Simultaneous activation.** The comment at line 13 says all agents are activated simultaneously. The only phase that does anything is `step()`, because `advance()` is the library's no-op. Agents therefore act one after another in id order, and each sees the live state its predecessors left (`Simulation.Schedule`).
- **Initial robot state.** The docstring at line 24 says a robot starts in a random state, 0 or 1. Line 29 always sets `tipo = 1`, so every robot starts IDLE (`Setup.Population`).

## Behaviours worth knowing

- **Dirt on the start cell.** Dirt can be placed on the robots' start cell (1, 1). `celdas` still contains it when the draws begin.
- **`running`.** `running` is never set to false. Once the run is over, the next tick still refreshes every robot's cached counter, because line 67 copies `numSuciedad` before the terminal test at line 69. So `calculateDirty` can still drop to the true count on that tick. Every later tick changes nothing (`Simulation.TerminalTickAbsorbing`).
- **Where cleaning happens.** A robot cleans only dirt on its own cell.
- **Neighbourhood.** The neighbourhood is taken on a torus (`MultiGrid(width, height, True)`). Every chosen target is therefore a cell of the grid (`Simulation.TargetsInGrid`).
- **A one-cell grid.** A 1×1 grid with one robot cannot be built. Placing the robot on (1, 1) at line 116 of `RobotLimpia.py` fails with an `IndexError` on a grid one cell wide. The model returns `StartCellOutside` (`Setup.NewModel`).
- **`calculateDirty`.** `calculateDirty` reports robot 0's copy of the counter. That copy is taken at the start of robot 0's activation, so it can lag cleanings later in the same tick (`Simulation.CalculateDirtyLags`).

## Model

| member | source | states |
|---|---|---|
| Grid.RemoveFirst | RobotLimpia.py:58 | removing an id drops one element when the id is present and returns the list unchanged otherwise; nothing new appears |
| Grid.RemoveFirstCount | RobotLimpia.py:58 | removal takes away exactly one copy of the id, as a multiset, and nothing else |
| Grid.MoveAgentProvenance | RobotLimpia.py:58 | after a move every cell holds only the mover or agents it held before |
| State.MoveMembership | RobotLimpia.py:58 | when the lists agree with the positions, after moving agent r a cell holds r exactly when it is the target, holds every other former member, and still lists nobody twice |
| State.ConsistentAfterMove | RobotLimpia.py:58-60 | moving the robot on the grid while updating its recorded cell keeps grid and positions in agreement |
| State.ReplaceKeepsInvariant | RobotLimpia.py:45-51 | changing one agent's tag (or cached counter) keeps the invariant once the dirt counter absorbs the change in the number of uncleaned dirt agents |
| State.Relocate | RobotLimpia.py:58-64 | after a move the robot stands on the target with its own move counter up by one, the model's counter is up by one, and no other agent, field or counter changes |
| State.RelocateKeepsInvariant | RobotLimpia.py:58-64 | an accepted move keeps the invariant: the model's and the robot's movement counters each rise by one and grid and positions still agree |
| Robot.Refresh | RobotLimpia.py:34 | the robot's cached counter becomes the model's remaining-dirt counter; every other field of the robot, every other agent, the grid and all model counters stay as they were |
| Robot.RefreshKeepsInvariant | RobotLimpia.py:34 | refreshing keeps the invariant and refreshing twice is the same as once |
| Robot.SweepCell | RobotLimpia.py:44-51 | the scan never raises the dirt counter, reports cleaning exactly when the counter dropped (or an earlier part of the scan cleaned), and changes no agent's class, cell, move counter or cached copy |
| Robot.SweepOneDirt | RobotLimpia.py:44-51 | on a cell whose only dirt is d: uncleaned d becomes tag 4, the robot tag 3 and the counter drops by one; cleaned d only turns the robot to tag 1 |
| Robot.Scan | RobotLimpia.py:40-51 | the scan of the own cell never raises the dirt counter and reports cleaning exactly when the counter dropped; it changes only tags, never an agent's class, cell, move counter or cached copy |
| Robot.OwnCellHoldsRobot | RobotLimpia.py:40-43 | the robot's own cell always lists the robot, so the `len(cellmates) == 0` tests at lines 43 and 53 never hold |
| Robot.ScanWithDirt | RobotLimpia.py:40-51 | scanning a cell with dirt d: uncleaned d is cleaned and the robot turns CLEANING; cleaned d only turns the robot IDLE |
| Robot.ScanWithoutDirt | RobotLimpia.py:40-53 | scanning a cell without dirt changes nothing and reports no cleaning, so the robot goes on to the move attempt |
| Robot.TryMove | RobotLimpia.py:53-64 | the move attempt either leaves the state as it was or is exactly the relocation of the robot to the target; it never touches the dirt counter or the budget |
| Robot.TryMoveRule | RobotLimpia.py:53-64 | the move attempt relocates the robot exactly when the target is empty or its single occupant is not an idle robot, and otherwise leaves the state unchanged |
| Robot.TryMoveOutcome | RobotLimpia.py:53-64 | field by field: on acceptance only the robot's cell and the two movement counters change (each by one); on refusal nothing changes; no other agent is touched |
| Robot.AcceptsAfterIdle | RobotLimpia.py:50-57 | turning the robot IDLE on a cell that also holds dirt cannot change whether a target accepts it |
| Robot.CleanKeepsInvariant | RobotLimpia.py:45-48 | cleaning one dirt agent keeps the invariant with one dirt fewer, and dirt only goes from tag 0 to tag 4 in place |
| Robot.Move | RobotLimpia.py:33-64 | a call of `move` leaves the budget alone, never raises the dirt counter, raises the movement counter by at most one, and never both cleans and moves; the robot's cached counter is the counter it saw on entry |
| Robot.Step | RobotLimpia.py:66-73 | a non-terminal activation spends exactly one unit of step budget, a terminal one spends nothing |
| Robot.StepWhenTerminal | RobotLimpia.py:66-73 | once the budget is spent or no dirt remains, an activation changes nothing but the robot's cached counter: no move, no cleaning, no budget change |
| Robot.StepCleans | RobotLimpia.py:43-53 | on a cell with uncleaned dirt d, d becomes tag 4, the robot tag 3, the counter drops by one, the budget by one, and the robot does not move; no other agent changes |
| Robot.StepMoveRule | RobotLimpia.py:50-71 | on a cell without uncleaned dirt nothing is cleaned; the robot moves to the target (both movement counters up by one) if and only if the target accepts it, and otherwise keeps its cell, its counter and the grid; it turns IDLE exactly when its cell holds cleaned dirt |
| Robot.StepKeepsInvariant | RobotLimpia.py:33-73 | every activation keeps the invariant, only lets counters move in one direction, keeps dirt in place with tags going from 0 to 4 only, and touches no other robot |
| Simulation.PercentDirty | RobotLimpia.py:102 | the percentage is the floor of `num * 100 / area`, and lies in [0, 100] when `0 <= num <= area` |
| Simulation.Activate | RobotLimpia.py:142 | activating an agent spends one budget unit exactly when it is a robot in a non-terminal state |
| Simulation.Schedule | RobotLimpia.py:142 | the fold spends at most one budget unit per agent and never raises the budget; a non-negative budget stays non-negative |
| Simulation.Tick | RobotLimpia.py:141-145 | after a tick the percentage is the floor of `dirtLeft * 100 / (width * height)` and the budget fell by at most the number of agents |
| Simulation.ScheduleKeepsInvariant | RobotLimpia.py:142 | the fold keeps the invariant, only advances the state, keeps the percentage, and never touches a robot already activated |
| Simulation.TickPreservesInvariant | RobotLimpia.py:141-145 | after a tick the dirt counter still counts the uncleaned dirt agents (so it is non-negative and never rose) and the movement counter still equals the reducer's sum (so it never fell) |
| Simulation.PercentInRange | RobotLimpia.py:145 | in every state the invariant describes, the percentage after a tick lies in [0, 100] |
| Simulation.TerminalTickAbsorbing | RobotLimpia.py:66-73 | a tick from a terminal state moves nothing, cleans nothing and spends nothing, and only sets every robot's cached counter to the model's counter; any further tick is the identity |
| Simulation.CalculateMovements | RobotLimpia.py:129-134 | the reducer returns the sum of all agents' own move counters, which equals the model's `movimientos` whenever the invariant holds |
| Simulation.CalculateDirty | RobotLimpia.py:136-139 | the reducer returns nothing exactly when the schedule is empty, so the loop never runs, and otherwise the first agent's cached counter |
| Simulation.CalculateDirtyAfterTick | RobotLimpia.py:136-139 | when agent 0 is a robot, the reducer after a tick reports the dirt counter as it was at the start of the tick |
| Simulation.CalculateDirtyLags | RobotLimpia.py:136-139 | on a one-robot, one-dirt world, the tick cleans the last dirt but the reducer still reports one |
| Setup.AllCells | RobotLimpia.py:118-119 | the free-cell list holds every cell of the grid exactly once |
| Setup.RemoveAt | RobotLimpia.py:127 | removing a drawn cell shortens the list by one and leaves every other cell in it |
| Setup.PickCells | RobotLimpia.py:121-127 | the draws yield one cell per dirt agent, all distinct and all from the grid |
| Setup.Population | RobotLimpia.py:113-123 | the fresh agents are `robots` idle robots on (1, 1) followed by one uncleaned dirt agent per drawn cell, in id order |
| Setup.Layout | RobotLimpia.py:116 | placing agents 0 .. k-1 in id order gives a grid whose cells list exactly the agents standing on them, each once |
| Setup.NewModel | RobotLimpia.py:90-127 | construction fails exactly on non-positive dimensions, on robots with no cell (1, 1), or on more dirt than cells, and each error is returned exactly when no earlier one applies, in the order of lines 102, 116 and 125; otherwise the budget is `steps * robots`, the dirt counter is the dirt count, no moves are recorded, robots are idle on (1, 1), all dirt is uncleaned, and the percentage is the floor of `dirt * 100 / area` |
| Setup.NewModelInvariant | RobotLimpia.py:113-127 | every successfully built state satisfies the run invariant, so dirt sits on distinct cells and the counters agree with the agents |

## Left out

- The visualiser (`RobotLimpia_Viz.py`), the `DataCollector`s and every `print` are not modelled. They only present state.
- The neighbourhood enumeration (`get_neighborhood` with Moore radius 8 on a torus) is not modelled. The chosen target is an input, and the tick-level lemmas require it to lie on the grid, as a torus neighbourhood always does.
- `self.random.choice` is not modelled as randomness. The movement target and the dirt-cell draws are inputs, with the draw as an index modulo the number of free cells.
- `round(width * height * dirty)` is float arithmetic with banker's rounding and is not modelled. The initial dirt count is an integer parameter.
- Setup.NewModel: robot and dirt counts are natural numbers. Negative counts, which `range` in the source turns into empty loops, are not modelled.
- Setup.NewModel: a negative width or height is reported as `BadDimensions`. The source rejects only a zero area, through the division at line 102. A negative width or height gives a grid with no cells. With no robots and no dirt the source then builds a run, whose percentage is a floor division by the possibly negative area. With dirt and no robots it fails on `random.choice` of the empty cell list at line 125. The model does not follow runs on a grid without cells.
- The fields `pasos`, `porcentajeSucias` and `numAgents` are not kept in the state. They are read only while building the run (lines 96, 97, 113 and 121), and the model keeps what they produce: the budget, the dirt count and the robots. `running` is set at line 100 and never changed by the code, so it is not modelled.
- Grid.RemoveFirst: an id missing from the list leaves it unchanged. Python's `list.remove`, which `move_agent` uses at line 58, raises `ValueError` instead. Under `State.Invariant` the robot is always on its own cell's list (`Robot.OwnCellHoldsRobot`), so the case cannot arise in a run. But `Robot.Step` and `State.Relocate` require only `WellFormed`, and on such states the model does not raise this error.
- Simulation.Schedule: the budget bound counts every agent, not only robots. The exact spend is one unit per robot activated in a non-terminal state, which `Simulation.Activate` states.
- `SimultaneousActivation`'s `advance()` phase is not modelled, because no agent class overrides it.
