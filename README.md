# Conway's Game of Life on a torus, in Dafny

This project models the simulation core of CellularElysium. The program comes in two
variants:

- a windowed game (`conways_game_of_life.py`), seeded with an R-pentomino, which stops
  when a grid repeats one of the grids it remembers after generation 20;
- a screensaver (`screensaver_conways_game_of_life.py`), seeded with three 3x3
  patterns, which stops once ten generations in a row have left the grid unchanged.

Both step the same B3/S23 rule on a grid whose rows and columns wrap around.

The modules follow that structure:

- `Modular`: the wrap-around of an index that is at most one lap outside the grid, and
  proof that it is the remainder `x % n` (Python's and Dafny's agree for a positive
  modulus).
- `Life`: the engine shared by both variants.
  - A grid is a list of rows of integer cells (`seq<seq<int>>`).
  - `At`, `BlockSum` and `Neighbors` give the wrapped neighbour count
    (conways_game_of_life.py:57). `BlockSum` sums the nine terms of the program's
    generator in its own order.
  - `NextCell` is the rule (conways_game_of_life.py:58-63). `Step` is a whole
    generation (conways_game_of_life.py:53-65, screensaver_conways_game_of_life.py:86-97),
    and `Iterate` gives the generations.
  - `Stamp` is the 3x3 pattern stamp (conways_game_of_life.py:36,
    screensaver_conways_game_of_life.py:36-38).
  - Two nested-loop methods are proved equal to these functions.
    - `NextGeneration` runs the loops of `update_grid` and fills a fresh grid cell by
      cell.
    - `StampPattern` runs the screensaver's stamping loops and overwrites the nine
      cells of the box in the grid it is given.
  - The lemmas cover the rule, locality, the still-life and cycle facts, and the fact
    that stepping commutes with translation on the torus.
- `Patterns`: the 10x10 boards the test suite builds (a block, a horizontal blinker, a
  vertical line), with what each test asserts of one or two steps.
- `Conway`: the windowed variant.
  - The seed.
  - The history of remembered grids: `Remember`, one tick's check
    (conways_game_of_life.py:91-100), and `Evict`, which drops the oldest entry
    (conways_game_of_life.py:99-100).
  - `Simulate`, the whole run as a function of the starting grid and the frame in which
    the window is closed (conways_game_of_life.py:68-103).
  - The class `GameOfLife`, whose `Tick` and `RunSimulation` update `grid` and
    `generation` in place. `RunSimulation` is proved to end in the state `Simulate`
    describes.
- `Screensaver`: the screensaver variant.
  - The three patterns and the seed.
  - `Settle`, the whole run (screensaver_conways_game_of_life.py:99-120).
  - The class `GameOfLifeScreensaver`, whose `Tick` and `RunSimulation` update `grid`
    in place and are proved against `Settle`.

The closing of the window is the only input the run loops read. It is modelled as a
parameter `quitFrame`: the number of the frame, counted from 0, in which the close
request arrives.

- In the windowed variant, that frame still computes its generation and then the loop
  stops.
- In the screensaver, the program exits at once.

Grids are values. `update_grid` builds a fresh list and never writes to the old grid,
and `self.grid` is replaced as a whole, so nothing is aliased.

The history of the windowed variant stores `str` of each grid. The model compares the
grids themselves, written as `Listed(grid)`. Its first entry is `str` of the initial
numpy array, which is laid out differently from the text of a list of lists. It is
the constant `ArrayText`, which equals no later entry.

## Model

| member | source | states |
|---|---|---|
| `Modular.WrapIsMod` | conways_game_of_life.py:57 | reducing an index at most one lap off the grid gives its remainder `x % n`, the value Python computes |
| `Life.AtIsRemainder` | conways_game_of_life.py:57 | the wrapped read of (r, c) is `grid[r % ROWS][c % COLS]`, with both remainders inside the grid |
| `Life.NeighborsExplicit` | conways_game_of_life.py:57 | the generator's sum over i, j in -1..1, minus the centre cell, is the sum of the eight wrapped neighbours |
| `Life.NeighborsByRows` | conways_game_of_life.py:57 | the neighbour count is the sum of three wrapped horizontal triples, from the rows above, at and below, minus the centre cell |
| `Life.NeighborsRange` | conways_game_of_life.py:57 | on a 0/1 grid every neighbour count is between 0 and 8 |
| `Life.StepIsLocal` | conways_game_of_life.py:53-65 | a cell's next value depends only on the wrapped 3x3 block around it in the old grid |
| `Life.NeighborsShift` | conways_game_of_life.py:57 | the neighbour count of a translated grid is the count of the original grid at the translated position |
| `Life.StepCommutesWithShift` | conways_game_of_life.py:57 | wrapping on both axes makes every position alike: stepping a translated grid gives the translated step |
| `Life.NextGeneration` | conways_game_of_life.py:53-65 | the nested loops that fill a fresh all-zero grid produce exactly the next generation `Step` of the old grid |
| `Life.BirthSurvival` | conways_game_of_life.py:58-63 | on a 0/1 grid a cell lives next exactly when it has 3 neighbours, or is alive with 2, and is dead otherwise |
| `Life.StepKeepsBinary` | conways_game_of_life.py:58-63 | a 0/1 grid steps to a 0/1 grid |
| `Life.StillLifeForever` | test_conways_game_of_life.py:23-46 | a grid that one step leaves unchanged stays unchanged for any number of steps |
| `Life.CycleRepeats` | conways_game_of_life.py:91-95 | once generation i + p equals generation i, generation k + p equals generation k for every k >= i |
| `Life.FixedPointPersists` | screensaver_conways_game_of_life.py:112-115 | once some generation is a fixed point, every later generation equals it |
| `Life.StampPattern` | screensaver_conways_game_of_life.py:36-38 | the two nested loops copying a 3x3 pattern cell by cell produce `Stamp`: the box overwritten, zeros included, and every other cell kept |
| `Life.StampedLiveCells` | conways_game_of_life.py:36 | stamping a pattern into the all-dead grid makes alive exactly the pattern's live cells moved to the anchor |
| `Patterns.BlockIsStillLife` | test_conways_game_of_life.py:23-46 | one step leaves the 2x2 block at rows and columns 2-3 of the 10x10 board unchanged |
| `Patterns.BlockStaysIntact` | test_conways_game_of_life.py:32-46 | after any number of steps the block is still there |
| `Patterns.BlinkerTurnsVertical` | test_conways_game_of_life.py:48-57 | one step turns the horizontal blinker at row 2, columns 1-3 into the vertical line at column 2, rows 1-3 |
| `Patterns.LineTurnsHorizontal` | test_conways_game_of_life.py:109-135 | one step turns that vertical line into the horizontal blinker |
| `Patterns.BlinkerHasPeriodTwo` | test_conways_game_of_life.py:48-60 | the blinker differs from its start after one step and equals it after two |
| `Patterns.VerticalLineRotates` | test_conways_game_of_life.py:109-135 | after one step of the vertical line, (2,1), (2,2) and (2,3) are alive and (1,2) and (3,2) are dead |
| `Conway.RPentominoEntries` | conways_game_of_life.py:30-34 | the live entries of the R-pentomino matrix, placed at an anchor, are exactly its five cells |
| `Conway.RPentominoLiveCells` | conways_game_of_life.py:29-36 | the R-pentomino stamped into the all-dead grid leaves alive exactly its five cells |
| `Conway.GameOfLife.InitializeGrid` | conways_game_of_life.py:27-37 | the seed is a ROWS x COLS 0/1 grid, dead outside the box at (ROWS // 2, COLS // 2 - 3), whose live cells are exactly the five of the R-pentomino there |
| `Conway.GameOfLife.constructor` | conways_game_of_life.py:6-17 | ROWS = height // cell_size, COLS = width // cell_size, generation 0, and the grid is the seed |
| `Conway.GameOfLife.UpdateGrid` | conways_game_of_life.py:53-65 | returns the next generation without changing the object |
| `Conway.EvictLimitsHistory` | conways_game_of_life.py:99-100 | the history is limited to ten entries with the oldest going first: one at most one over the limit comes back within it, at most one entry is dropped, the kept entries are the newest in their order, and a history within the limit is kept whole |
| `Conway.RememberReportsRepeat` | conways_game_of_life.py:91-95 | a tick reports a periodic state exactly when the generation is past 20 and the new grid is in the history |
| `Conway.RememberUpdatesHistory` | conways_game_of_life.py:91-100 | up to generation 20 the history is untouched; afterwards a new grid is appended and a repeated one is not, then the oldest is dropped past ten |
| `Conway.RememberDropsOldest` | conways_game_of_life.py:96-100 | a full history of ten that gets a new grid becomes its last nine entries followed by the new grid |
| `Conway.RememberKeepsBound` | conways_game_of_life.py:91-100 | a history of at most ten distinct entries stays one after a tick, so one eviction per tick is enough |
| `Conway.GameOfLife.Tick` | conways_game_of_life.py:88-103 | the grid becomes its next generation, the generation counter grows by exactly one, and the periodic flag and history are those of `Remember` |
| `Conway.GameOfLife.RunSimulation` | conways_game_of_life.py:68-103 | the loop ends with the grid, generation and ending that `Simulate` gives for the starting grid and generation, the initial history and the closing frame. Throughout the run the history holds at most ten entries, all different. |
| `Conway.SimulateFollowsEvolution` | conways_game_of_life.py:68-103 | from any point of a run, the run follows the evolution of its starting grid; a reported periodic state repeats an earlier generation; a run ending by quitting computed one generation per frame |
| `Conway.RunIsSound` | conways_game_of_life.py:68-103 | a run from the initial history reports a periodic state only past generation 21 and only when its last grid equals an earlier one; if it ends by quitting, it computed a generation in every frame up to the closing one |
| `Conway.PeriodicMeansCycle` | conways_game_of_life.py:91-95 | a reported periodic state means the evolution of the starting grid is periodic from some generation on |
| `Conway.StillLifeReportedPeriodic` | conways_game_of_life.py:91-103 | a still life started at generation 0 is reported as a periodic state at generation 23 |
| `Conway.OscillatorReportedPeriodic` | conways_game_of_life.py:91-103 | a period-2 oscillator started at generation 0 is reported as a periodic state at generation 24, back in its starting phase |
| `Conway.BlockReportedPeriodic` | test_conways_game_of_life.py:23-46 | the test board's block ends the windowed run as a periodic state at generation 23, still in place |
| `Conway.BlinkerReportedPeriodic` | test_conways_game_of_life.py:48-60 | the test board's blinker ends the windowed run as a periodic state at generation 24 |
| `Screensaver.InitialGridCells` | screensaver_conways_game_of_life.py:26-62 | the seed is a 0/1 grid. Each cell is the glider's if in its box, else the second pattern's, else the first pattern's, else dead. |
| `Screensaver.GameOfLifeScreensaver.InitializeGrid` | screensaver_conways_game_of_life.py:26-62 | the three stamping loops build the seed. It is the stamps at (ROWS // 3, 2 * COLS // 3), (2 * ROWS // 3, 2 * COLS // 3) and (ROWS // 2, COLS // 2), with later stamps overwriting earlier ones. |
| `Screensaver.GameOfLifeScreensaver.constructor` | screensaver_conways_game_of_life.py:6-23 | ROWS = height // cell_size, COLS = width // cell_size, and the grid is the seed |
| `Screensaver.GameOfLifeScreensaver.UpdateGrid` | screensaver_conways_game_of_life.py:86-97 | returns the next generation without changing the object |
| `Screensaver.GameOfLifeScreensaver.Tick` | screensaver_conways_game_of_life.py:110-117 | the grid becomes its next generation; the counter grows by one if that left it unchanged and restarts at 0 otherwise |
| `Screensaver.GameOfLifeScreensaver.RunSimulation` | screensaver_conways_game_of_life.py:99-120 | the loop ends with the grid and ending that `Settle` gives for the starting grid and the closing frame |
| `Screensaver.SettleEnding` | screensaver_conways_game_of_life.py:100-118 | a run computes at most one generation per frame. It ends as stable exactly when the counter has reached ten, and the counter never passes ten. A quit ending means every frame was used. |
| `Screensaver.SettleFollowsEvolution` | screensaver_conways_game_of_life.py:110-117 | the run follows the evolution of its starting grid: its last grid is the generation numbered by the ticks computed |
| `Screensaver.UnchangedRunStep` | screensaver_conways_game_of_life.py:112-115 | one more generation extends the current run of unchanged generations when it equals the last one, and starts an empty run otherwise |
| `Screensaver.SettleKeepsCount` | screensaver_conways_game_of_life.py:100-118 | a counter that starts as the length of the current run of unchanged generations is still that length when the run ends |
| `Screensaver.RunIsConstant` | screensaver_conways_game_of_life.py:112-115 | every generation in the current run of unchanged generations equals the last one |
| `Screensaver.NoFixedPointBeforeRun` | screensaver_conways_game_of_life.py:112-115 | no generation before the current run of unchanged generations is a fixed point |
| `Screensaver.UnchangedRunOfTen` | screensaver_conways_game_of_life.py:101-115 | ten unchanged generations in a row mean the grid is a fixed point and no generation before the last ten was one |
| `Screensaver.ShortRunMeansNoEarlyFixedPoint` | screensaver_conways_game_of_life.py:101-115 | a current run shorter than ten means no generation ten or more steps back was a fixed point |
| `Screensaver.RunIsSound` | screensaver_conways_game_of_life.py:99-120 | a stable ending means the last eleven grids are equal and the last is a fixed point, reached first at that moment; a quit ending means no earlier fixed point could give ten unchanged steps |
| `Screensaver.StillLifeSettles` | screensaver_conways_game_of_life.py:100-118 | a still life is reported stable after exactly ten generations |
| `Screensaver.OscillatorNeverSettles` | screensaver_conways_game_of_life.py:100-118 | a period-2 oscillator never settles; the run lasts until the window is closed |
| `Screensaver.BlockSettles` | test_conways_game_of_life.py:23-46 | the test board's block reaches a count of ten after ten steps, still in place |
| `Screensaver.BlinkerNeverSettles` | test_conways_game_of_life.py:48-60 | the test board's blinker never reaches a stable ending |

## Left out

- Rendering: `draw_grid`, fonts, the generation caption, `pygame.display` and the enumeration of several monitors. These are user interface only.
- Events and pacing: event polling, `clock.tick`, `fps` and the wait for Enter or Space after a run. The only event the model keeps is the close request, whose arrival is the parameter `quitFrame`.
- `update_neighbor_counts` (conways_game_of_life.py:46-51): a call into scipy whose result is never used. It is a foreign library; the loop in `update_grid` is the rule.
- The "Stable state" branch (conways_game_of_life.py:76-82). Its `stable_count` starts at 0 and is never changed, so the branch cannot run. The windowed variant therefore detects a still life only as a periodic state.
- The end-of-run report (conways_game_of_life.py:110-114). After a close request without a repeat, `end_reason` is never assigned and the report fails. The model ends such a run with `QuitRequested` instead.
- The `print` of the periodic generation (conways_game_of_life.py:93): output only.
- Conway.Simulate: compares grids as values rather than as their `str` texts. The two agree only if NumPy scalars print as plain integers, as in NumPy 1.x. The seed is a NumPy integer array (conways_game_of_life.py:28), and line 63 copies its scalars into later lists, while lines 59 and 61 write plain integers. Under NumPy 2 a scalar prints as `np.int64(0)`, so two equal grids can have different texts, and the program can report a repeat one period later than the model does. The first history entry is the text of a numpy array and is modelled as an entry that matches nothing.
- Conway.GameOfLife.constructor: requires the R-pentomino's box to fit (at least 5 rows and 6 columns). The slice assignment fails on a smaller grid.
- Screensaver.GameOfLifeScreensaver.constructor: requires all three boxes to fit, because the stamping loops index past the grid otherwise.
- The screensaver's `pygame.quit()` and `sys.exit()`: modelled as the run returning `QuitRequested` in the frame the close request arrives.
- Cell ages and saving or loading grids: the tests use them, but the program has no such code. The age assertions of the vertical-line test are left out and its liveness assertions are kept.
