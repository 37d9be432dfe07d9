# Evolvable-threshold Game of Life, modelled in Dafny

This project models the simulation engine of an evolvable variant of
Conway's Game of Life. It also models the classic fixed-rule game that the
engine reduces to.

In the evolvable variant, every cell carries three thresholds:

- `lonely`: the fewest live neighbours a live cell needs to survive.
- `born`: the neighbour count at which a dead cell comes alive.
- `crowded`: the most live neighbours a live cell can have and survive.

A newborn cell copies the thresholds of a randomly chosen live neighbour,
its parent. With probability `mutation_rate`, one of the three copied
thresholds is then moved by `mutation_magnitude` times a normal sample and
clipped to [0, 8]. Only interior cells are updated; the one-cell border of
every new board is dead.

A run stops early when the board reaches a steady state:

- The first engine stops at the first generation that leaves the board
  unchanged.
- The later engines stop once the board has stayed unchanged for ten
  generations in a row.

The radiation engine adds an integer damage field. By its design, live
cells take a dose every fourth generation, damage decays in every
generation, and on generations with (gen + 2) % 4 == 0 a live cell with
positive damage dies whatever its neighbour count. As the code is written,
the decay at radiation_function.py:78 overwrites the dose stored at line 75.
Damage therefore stays 0 and radiation never kills (see Findings). A run of
the model chooses either reading through `Radiation.asWritten`;
`Radiation.strength` is `rad_strength`.

The modules follow the source files:

| module | file | content |
|---|---|---|
| `Grid` | shared | Boards and fields as `seq<seq<_>>`, the 3 x 3 neighbour count, the live-neighbour list, the population (`np.sum`). |
| `Inheritance` | shared | Parent choice, Python's `round`, `np.clip`, truncation into integer arrays, the one-threshold mutation. All random draws come from an explicit `Oracle` input. |
| `SteadyState` | shared | The counter of consecutive unchanged generations, and where a run with that counter stops. |
| `ClassicLife` | `base_functions.py`, and `functions.py`, its comment-free copy | The classic game. Its loops are methods, proved equal to the functions that specify them. |
| `MutationLife` | `mutation_functions.py` | The first engine, with integer thresholds. |
| `MutationLifeV3` | `mutation_functionv3.py` | Float thresholds, a `born = -1` sentinel on death, and births when `n >= ` the parent's rounded `born`. |
| `RadiationLife` | `radiation_function.py` | Float thresholds plus radiation damage. Births happen when `n ==` the parent's rounded `born`. |

Every engine is structured the same way:

- A per-cell rule, `NextCell`.
- A specification of one generation, `Next`. It is characterised cell by cell: interior cells follow `NextCell`, and border cells are dead and keep their other fields.
- The generation loop body, `Step`: nested `while` loops writing into fresh copies. It is proved equal to `Next`, so the in-place writes never let one cell see another cell's new value.
- `Run`: the state after k generations.
- The driver method. It is proved to return what `Run` and the steady-state functions determine.

The source's stochastic inputs become parameters. `Oracle` maps
(generation, row, column) to the draws made at that cell:

- the index that `random.choice` picks among the live neighbours;
- `random.random()`;
- the threshold name that `random.choice` picks;
- the normal sample.

Details of the code that the model keeps:

- In `mutation_functions.py`, a dead cell is born when `n` equals its *own* `born`, not its parent's. Dead cells always hold the default 3, so births there are classic (`MutationLife.BirthNeedsThree`).
- `mutation_functionv3.py` compares `n >= ` the parent's rounded `born`; `radiation_function.py` compares `n ==`. Each engine keeps its own comparator.
- A dying cell gets thresholds (2, 3, 3) in the first engine and (2.0, -1, 3.0) in the later ones.
- The radiation period and check offset are the constants 4 and 2 of radiation_function.py:74 and :79.
- Damage is stored in an integer NumPy array, so it is an `int` and each decay result is truncated toward zero.
- The radiation engine starts `born` at 2.0; the other engines start it at 3.
- The later engines count `gen` from 1 and return `gen + 1` on steady state, one more than the number of generations run. The model returns the same.

## Model

| member | source | states |
|---|---|---|
| `ClassicLife.InitializeBoard` | base_functions.py:3-14 | The board has the requested shape and every cell is dead. The copy at functions.py:3-4 is the same code. |
| `ClassicLife.InField` | base_functions.py:88-100 | True exactly for positions inside the board, judged against the first row's length. On a rectangular board, exactly the positions that may be indexed. The copy at functions.py:37-38 is the same code. |
| `ClassicLife.LiveNeighborCount` | base_functions.py:68-86 | The count of live on-board cells of the 3 x 3 window, centre excluded, is at most 8. |
| `ClassicLife.CountLiveNeighbors` | base_functions.py:80-86 | The nested loops with the bounds check and centre skip compute exactly `LiveNeighborCount`. The copy at functions.py:28-35 is the same code. |
| `ClassicLife.UpdateCell` | base_functions.py:16-32 | A live cell lives on iff it has 2 or 3 live neighbours. A dead cell comes alive iff it has exactly 3. The copy at functions.py:6-11 is the same code. |
| `ClassicLife.NextBoard` | base_functions.py:34-50 | The next board has the old board's shape, and every cell, border included, is `UpdateCell` of the old board. |
| `ClassicLife.UpdateBoard` | base_functions.py:44-50 | Filling a fresh board cell by cell yields exactly the synchronous update `NextBoard`. The copy at functions.py:13-20 is the same code. |
| `ClassicLife.PlayGameOfLife` | base_functions.py:52-66 | Returns num_gens + 1 boards. The first is the initial board; every board has the initial shape; each later board is `NextBoard` of its predecessor. The copy at functions.py:22-26 is the same code. |
| `ClassicLife.CountIgnoresCentre` | base_functions.py:83 | Setting a cell to live or dead never changes its own neighbour count. |
| `ClassicLife.AllDeadStaysDead` | base_functions.py:28-32 | An empty board (population 0) stays empty: no cell finds the 3 neighbours a birth needs. |
| `ClassicLife.CountMatchesWindow` | base_functions.py:80-86 | On interior cells, the bounds-checked count equals the engines' window-sum-minus-centre count. |
| `Grid.Filled` | mutation_functions.py:25-27 | `np.full`: the given shape, with every entry the given value. |
| `Grid.NeighborCount` | mutation_functions.py:46-47 | The window sum minus the cell itself is at most 8. |
| `Grid.Around` | mutation_functions.py:73-74 | The two `range`s minus `(x != i or y != j)` enumerate exactly the eight Moore neighbours. |
| `Grid.LiveAmong` | mutation_functions.py:73-74 | The filter `board[x, y] == 1` keeps exactly the live candidates, one entry per live cell. |
| `Grid.AroundCount` | mutation_functions.py:46-47 | Counting the live cells among the eight neighbours gives the window sum minus the cell itself. |
| `Grid.LiveNeighbors` | mutation_functions.py:73-74 | The comprehension of live neighbours has one entry per live Moore neighbour, and a position is in it iff it is a Moore neighbour and live. |
| `Grid.Population` | mutation_functions.py:207-218 | `np.sum(board)`, the number of live cells, is zero iff every cell is dead. The same sum is taken at mutation_functionv3.py:141 and radiation_function.py:129. |
| `Inheritance.Choose` | mutation_functions.py:76-78 | The parent picked is always one of the live neighbours. |
| `Inheritance.ChooseReachesAll` | mutation_functions.py:78 | Every live neighbour is picked by some draw. |
| `Inheritance.Parent` | mutation_functionv3.py:108-111 | The chosen parent is a live Moore neighbour of the newborn. |
| `Inheritance.Round` | mutation_functionv3.py:90-92 | Python's `round`: within 0.5 of x, and even on exact halves. |
| `Inheritance.Clip` | mutation_functionv3.py:131-137 | `np.clip(x, 0, 8)`: the result is in [0, 8]. It is x inside the range, 0 below it and 8 above it. |
| `Inheritance.Trunc` | mutation_functions.py:91-97 | Storing a float into an integer array truncates toward zero, by less than one. |
| `Inheritance.Mutated` | mutation_functionv3.py:124-137 | No mutation when the draw is not below the rate. Otherwise, only the named threshold moves, by magnitude times noise, then clipped. The other two are kept, and thresholds in range stay in range. |
| `Inheritance.MutatedInt` | mutation_functions.py:84-97 | As `Mutated`, but the clipped value is truncated into the integer array and lands in [0, 8]. Range is preserved. |
| `Inheritance.Inherit` | mutation_functionv3.py:119-122 | A newborn copies the parent's `lonely` and `crowded` and gets its `born` rounded to an integer within 0.5. Range is preserved. |
| `SteadyState.Streak` | mutation_functionv3.py:143-149 | The counter after generation n never exceeds n. |
| `SteadyState.StreakCountsRepeats` | mutation_functionv3.py:143-149 | The counter is at least k iff each of the last k generations left the board unchanged. |
| `SteadyState.StopPoint` | mutation_functionv3.py:143-149 | Where a run with this counter stops, scanning from generation k: never before k, never past the last generation. `StopPointIsFirst` characterises it. |
| `SteadyState.StopPointIsFirst` | mutation_functionv3.py:144-147 | The stop point is the first generation whose counter reaches ten, or the last generation when none does. |
| `SteadyState.StreakAdvances` | radiation_function.py:131-137 | One loop pass grows the counter on a repeat and resets it otherwise. The run stops at that generation exactly when the counter reaches ten. |
| `MutationLife.Init` | mutation_functions.py:21-27 | The initial state holds the given board, and every cell has thresholds (2, 3, 3). |
| `MutationLife.NextCell` | mutation_functions.py:45-97 | A live cell survives iff lonely <= n <= crowded, keeping its thresholds, and otherwise dies with the defaults. A dead cell is born iff n equals its own `born`. A newborn with a live neighbour takes the parent's thresholds, possibly mutated; with none, it keeps its own. |
| `MutationLife.Next` | mutation_functions.py:33-97 | A generation keeps the shape. Every interior cell is `NextCell` of the previous state; every border cell is dead and keeps its thresholds. |
| `MutationLife.BorderDies` | mutation_functions.py:33-43 | Border cells of every new board are dead with unchanged thresholds. |
| `MutationLife.Step` | mutation_functions.py:32-97 | The loop over the interior, writing into a zeroed board and copied threshold arrays, yields exactly `Next`. |
| `MutationLife.Run` | mutation_functions.py:30-108 | The state after k generations, each `Next` of the previous one with the draws of loop index k - 1. Every generation keeps the initial shape. |
| `MutationLife.Repeats` | mutation_functions.py:99-100 | The driver's test that a generation left the board unchanged. It holds iff the generation left the whole state unchanged. |
| `MutationLife.StopFrom` | mutation_functions.py:99-111 | The count the driver returns when scanning from loop index k lies between k and `num_gens`. `StopAtFirstRepeat` characterises it. |
| `MutationLife.StopAtFirstRepeat` | mutation_functions.py:99-111 | The returned count is one past the first loop index whose generation repeats the board, or `num_gens` if none does. |
| `MutationLife.PlayGameOfLifeWithMutation` | mutation_functions.py:6-111 | The driver returns exactly that stopping count. |
| `MutationLife.SimulatePopulationWithMutation` | mutation_functions.py:113-218 | Returns the population of the board of the generation at which the same run stops. |
| `MutationLife.NextKeepsSound` | mutation_functions.py:55-97 | A generation keeps all thresholds in [0, 8], and keeps the defaults on every dead and every border cell. |
| `MutationLife.RunKeepsSound` | mutation_functions.py:25-27 | A run from `Init` stays sound in every generation. |
| `MutationLife.BirthNeedsThree` | mutation_functions.py:67-71 | In any run, a dead interior cell is born iff it has exactly 3 live neighbours. |
| `MutationLife.BoardIgnoresDraws` | mutation_functions.py:55-82 | Which cells live next never depends on the random draws, the generation or the mutation parameters. |
| `MutationLife.RepeatIsFixedPoint` | mutation_functions.py:99-108 | A generation that leaves the board unchanged leaves the whole state unchanged, under any draws. |
| `MutationLife.StopIsFinal` | mutation_functions.py:99-102 | After a repeat, every later generation is the same state, so stopping loses nothing. |
| `MutationLife.MatchesClassic` | mutation_functions.py:55-71 | An interior cell with default thresholds evolves as `ClassicLife.UpdateCell` says. |
| `MutationLife.ClassicRegression` | mutation_functions.py:84-97 | With mutation never firing, every cell keeps the defaults forever. Each generation is the classic rule on the interior, with a dead border. |
| `MutationLifeV3.Init` | mutation_functionv3.py:58-61 | The initial state holds the given board, and every cell has thresholds (2.0, 3.0, 3.0). |
| `MutationLifeV3.NextCell` | mutation_functionv3.py:85-137 | A live cell survives iff round(lonely) <= n <= round(crowded), and otherwise dies with `born` set to -1. A dead cell with no live neighbour stays as it is. With a live neighbour, it is born iff n >= the parent's rounded `born`, and a newborn takes the parent's thresholds, `born` rounded, possibly mutated. |
| `MutationLifeV3.Next` | mutation_functionv3.py:72-137 | Interior cells follow `NextCell`; border cells are dead and keep their thresholds. |
| `MutationLifeV3.BorderDies` | mutation_functionv3.py:73-83 | Border cells of every new board are dead with unchanged thresholds. |
| `MutationLifeV3.Step` | mutation_functionv3.py:72-137 | The loop over the interior yields exactly `Next`. |
| `MutationLifeV3.Run` | mutation_functionv3.py:69-155 | The state after k generations, each `Next` of the previous one with generation number k. Every generation keeps the initial shape. |
| `MutationLifeV3.History` | mutation_functionv3.py:140 | The board history has one board per generation after the initial one. |
| `MutationLifeV3.HistoryAt` | mutation_functionv3.py:140 | Entry k of the history is the board of generation k. |
| `MutationLifeV3.NextKeepsLiveInRange` | mutation_functionv3.py:95-137 | A generation keeps every live cell's thresholds in [0, 8]. |
| `MutationLifeV3.RunKeepsLiveInRange` | mutation_functionv3.py:59-61 | A run from `Init` keeps live thresholds in range in every generation. |
| `MutationLifeV3.UnchangedBoardFixesState` | mutation_functionv3.py:144-145 | A generation that leaves the board unchanged leaves every threshold unchanged. |
| `MutationLifeV3.SteadyMeansTenRepeats` | mutation_functionv3.py:143-149 | The counter reaches ten at generation n iff each of the ten generations up to n left the board unchanged. |
| `MutationLifeV3.Turn` | mutation_functionv3.py:69-155 | One loop pass advances the state by one generation. It appends the new board and its population and updates the counter, keeping the driver's bookkeeping. |
| `MutationLifeV3.PlayGameOfLife` | mutation_functionv3.py:33-158 | The recorded boards are generations 1 to the stop point, with matching populations. The final state and its population are those of that generation. The count is the stop point plus one on steady state, and `num_gens` otherwise. |
| `RadiationLife.Init` | radiation_function.py:30-34 | The initial state holds the given board, thresholds (2.0, 2.0, 3.0) and zero damage everywhere. |
| `RadiationLife.Dosed` | radiation_function.py:74-75 | `rad_strength` is added on generations divisible by 4, and a nonzero dose changes the damage on no other generation. |
| `RadiationLife.DecayAsWritten` | radiation_function.py:74-78 | The damage kept as written is never negative, and never above the old damage, so the dose is never counted. |
| `RadiationLife.Decay` | radiation_function.py:74-78 | The damage kept after the dose is added and born/20 recovered is non-negative. It is at most the dosed damage, and when `born` <= 20 it is at most one unit below it. |
| `RadiationLife.Kept` | radiation_function.py:74-78 | The damage a surviving cell keeps, under the reading the run chooses, is never negative. |
| `RadiationLife.RadiationDeath` | radiation_function.py:79-81 | Radiation kills iff the new damage is positive on a check generation, which falls two generations after one dose generation and two before the next. |
| `RadiationLife.DoseLostAsWritten` | radiation_function.py:74-81 | As written, for one cell and one generation, an undamaged cell stays undamaged and radiation does not kill it. Concretely, a dose of 5 on generation 4 yields 0, where the corrected decay yields 4. |
| `RadiationLife.DoseForcesDeath` | radiation_function.py:74-83 | With the dose kept, a dose of at least 4 makes a cell still alive at the next check generation die by radiation. |
| `RadiationLife.NextCell` | radiation_function.py:62-125 | A live cell survives iff round(lonely) <= n <= round(crowded) and radiation does not kill it. A survivor keeps its thresholds and takes the damage `Kept` computes under the run's reading. A dying cell gets `born` -1 and damage 0. A dead cell with a live neighbour is born iff n equals the parent's rounded `born`, inheriting thresholds (`born` rounded, possibly mutated) and the parent's damage. |
| `RadiationLife.Next` | radiation_function.py:47-125 | Interior cells follow `NextCell`; border cells are dead and keep thresholds and damage. |
| `RadiationLife.BorderDies` | radiation_function.py:48-59 | Border cells of every new board are dead with unchanged thresholds and damage. |
| `RadiationLife.Step` | radiation_function.py:47-125 | The loop over the interior yields exactly `Next`. |
| `RadiationLife.Run` | radiation_function.py:42-144 | The state after k generations, each `Next` of the previous one with generation number k. Every generation keeps the initial shape. |
| `RadiationLife.History` | radiation_function.py:128 | The board history has one board per generation after the initial one. |
| `RadiationLife.HistoryAt` | radiation_function.py:128 | Entry k of the history is the board of generation k. |
| `RadiationLife.NextKeepsSound` | radiation_function.py:73-110 | A generation keeps live thresholds in [0, 8] and all damage non-negative. |
| `RadiationLife.RunKeepsSound` | radiation_function.py:31-34 | A run from `Init` stays sound in every generation. |
| `RadiationLife.NextKeepsUndamagedAsWritten` | radiation_function.py:73-110 | As written, a generation of a sound state with zero damage in every cell leaves zero damage in every cell. |
| `RadiationLife.RunUndamagedAsWritten` | radiation_function.py:31-34 | As written, every generation of a run from `Init` has zero damage in every cell, whatever the dose. |
| `RadiationLife.RadiationNeverKillsAsWritten` | radiation_function.py:73-92 | As written, in every generation of a run from `Init`, a live interior cell survives iff round(lonely) <= n <= round(crowded). Radiation never kills. |
| `RadiationLife.Turn` | radiation_function.py:42-144 | One loop pass advances by one generation and keeps the driver's bookkeeping. |
| `RadiationLife.PlayGameOfLifeWithRadiation` | radiation_function.py:5-147 | The recorded boards are generations 1 to the stop point, with matching populations. The final state is that generation's. The count is the stop point plus one on steady state, and `num_gens` otherwise. |

## Left out

- Randomness: `random.choice`, `random.random` and `np.random.normal` become an `Oracle` input giving independent draws per generation and cell. The source consumes one shared stream in scan order; the model says nothing about the distributions or the stream order.
- Floating point: thresholds, noise and the mutation step are exact reals. Rounding error in `born / 20` and in `np.clip` is not modelled.
- Board values other than 0 and 1: a board is boolean. A NumPy input holding other integers is not modelled.
- Board shape: the engines require a non-empty, rectangular board (`Rect`), as NumPy's `board.shape` unpacking does. Ragged lists are not modelled.
- The threshold means (`np.mean`) that the later engines return are left out of `Outcome`, because they need real averaging over the grid. The final state, which they summarise, is returned instead.
- `RadiationLife.Outcome`: the source returns only the board and `born` of the final state, and `mutation_functionv3.py` returns the board, `born` and `crowded`. The model returns the whole final state.
- `print(gen)` at radiation_function.py:44 is output only and is not modelled.
- `rad_strength` is modelled as an integer. A fractional dose added into the integer damage array is not modelled.
- Default arguments: `num_gens`, `mutation_rate`, `mutation_magnitude` and `rad_strength` have defaults in the source; here every one is a required parameter. `num_gens` is a `nat`. The negative `num_gens` the source accepts is not modelled: there, the mutation engine returns it unchanged (mutation_functions.py:111) and the classic game returns `[initial]` (base_functions.py:63-66).
- draw.py and io_utils.py (rendering and file input) are not part of this model.

## Findings

| source | as written | input that shows it | evidently intended | confidence | as-written member | corrected member |
|---|---|---|---|---|---|---|
| radiation_function.py:74-78 | Line 75 stores `damage + rad_strength`, but line 78 recomputes the damage from the old `damage` and overwrites it, so the dose is lost. Every run from the initial state keeps damage 0 (`RunUndamagedAsWritten`), and radiation never kills. | A live cell with damage 0 and born 2.0 on generation 4 with `rad_strength` 5 keeps damage 0 instead of 4. | The decay is applied to the dosed damage, so a large enough dose kills at the next check generation. The run chooses this reading with `asWritten` false. | not executed | `RadiationLife.RadiationNeverKillsAsWritten` | `RadiationLife.DoseForcesDeath` |
