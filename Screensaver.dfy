/** The screensaver variant of the program (`screensaver_conways_game_of_life.py`):
    three 3x3 patterns stamped cell by cell into an all-dead grid, one generation
    per frame, and a run that ends once ten generations in a row have left the grid
    unchanged, or when the window is closed. */
module Screensaver {
  import opened Life
  import Patterns

  // ---------------------------------------------------------------------------
  // The seed

  /** The first pattern, "A Star is Born". */
  function StarIsBorn(): (p: Grid)
    ensures IsGrid(p, 3, 3) && IsBinary(p)
  {
    [[0, 0, 1],
     [1, 0, 1],
     [0, 1, 1]]
  }

  /** The second pattern, "Celestial Harmony". */
  function CelestialHarmony(): (p: Grid)
    ensures IsGrid(p, 3, 3) && IsBinary(p)
  {
    [[1, 1, 1],
     [1, 0, 1],
     [1, 1, 1]]
  }

  /** The third pattern, a glider. */
  function Glider(): (p: Grid)
    ensures IsGrid(p, 3, 3) && IsBinary(p)
  {
    [[1, 0, 0],
     [0, 1, 1],
     [1, 1, 0]]
  }

  /** All three boxes lie inside the grid: the stamping loops neither wrap nor
      check bounds, so an index past the last row or column would fail. The boxes
      start at (ROWS // 3, 2 * COLS // 3), (2 * ROWS // 3, 2 * COLS // 3) and
      (ROWS // 2, COLS // 2). */
  predicate PatternsFit(rows: nat, cols: nat)
  {
    rows / 3 + 3 <= rows && 2 * cols / 3 + 3 <= cols
    && 2 * rows / 3 + 3 <= rows
    && rows / 2 + 3 <= rows && cols / 2 + 3 <= cols
  }

  /** The seed grid: the three patterns stamped in order into the all-dead grid. */
  function InitialGrid(rows: nat, cols: nat): (g: Grid)
    requires PatternsFit(rows, cols)
    ensures IsGrid(g, rows, cols)
  {
    var g1 := Stamp(Zero(rows, cols), rows, cols, StarIsBorn(), rows / 3, 2 * cols / 3);
    var g2 := Stamp(g1, rows, cols, CelestialHarmony(), 2 * rows / 3, 2 * cols / 3);
    Stamp(g2, rows, cols, Glider(), rows / 2, cols / 2)
  }

  /** The seed cell by cell: a cell in the glider's box takes the glider's value;
      otherwise one in the second box the second pattern's; otherwise one in the
      first box the first pattern's; every other cell is dead. Later stamps win, and
      zeros of a pattern are copied too. */
  function SeedCell(rows: nat, cols: nat, r: int, c: int): int
  {
    if InBlock(r, c, rows / 2, cols / 2) then Glider()[r - rows / 2][c - cols / 2]
    else if InBlock(r, c, 2 * rows / 3, 2 * cols / 3) then CelestialHarmony()[r - 2 * rows / 3][c - 2 * cols / 3]
    else if InBlock(r, c, rows / 3, 2 * cols / 3) then StarIsBorn()[r - rows / 3][c - 2 * cols / 3]
    else 0
  }

  /** The seed grid agrees with the cell-by-cell description, and is a 0/1 grid. */
  lemma InitialGridCells(rows: nat, cols: nat)
    requires PatternsFit(rows, cols)
    ensures IsBinary(InitialGrid(rows, cols))
    ensures forall r, c :: 0 <= r < rows && 0 <= c < cols ==> InitialGrid(rows, cols)[r][c] == SeedCell(rows, cols, r, c)
  {
    var g1 := Stamp(Zero(rows, cols), rows, cols, StarIsBorn(), rows / 3, 2 * cols / 3);
    var g2 := Stamp(g1, rows, cols, CelestialHarmony(), 2 * rows / 3, 2 * cols / 3);
    var g3 := Stamp(g2, rows, cols, Glider(), rows / 2, cols / 2);
    forall r, c | 0 <= r < rows && 0 <= c < cols
      ensures g3[r][c] == SeedCell(rows, cols, r, c) && (g3[r][c] == 0 || g3[r][c] == 1)
    {
      assert g1[r][c] == if InBlock(r, c, rows / 3, 2 * cols / 3) then StarIsBorn()[r - rows / 3][c - 2 * cols / 3] else 0;
      assert g2[r][c] == if InBlock(r, c, 2 * rows / 3, 2 * cols / 3) then CelestialHarmony()[r - 2 * rows / 3][c - 2 * cols / 3] else g1[r][c];
    }
  }

  // ---------------------------------------------------------------------------
  // A whole run

  /** How a run ends: ten unchanged generations in a row, or a closed window. */
  datatype Ending = StableState | QuitRequested

  /** The end of a run: the last grid, the number of generations computed, the
      counter of unchanged generations as the run left it, and the reason. */
  datatype Finish = Finish(grid: Grid, ticks: nat, stableCount: nat, ending: Ending)

  /** The run from grid `g` with the counter of unchanged generations at
      `stableCount`, when the window is closed `framesLeft` frames after the current
      one. The counter is checked before each frame; the close request is handled
      before the frame's generation is computed, and ends the program at once. */
  function Settle(g: Grid, rows: nat, cols: nat, stableCount: nat, framesLeft: nat): (f: Finish)
    requires IsGrid(g, rows, cols)
    ensures IsGrid(f.grid, rows, cols)
    decreases framesLeft
  {
    if stableCount >= 10 then Finish(g, 0, stableCount, StableState)
    else if framesLeft == 0 then Finish(g, 0, stableCount, QuitRequested)
    else
      var s := Step(g, rows, cols);
      var f := Settle(s, rows, cols, if s == g then stableCount + 1 else 0, framesLeft - 1);
      Finish(f.grid, f.ticks + 1, f.stableCount, f.ending)
  }

  /** After m generations of g0 the last `count` steps have left the grid
      unchanged, and the step before those (if any) changed it: `count` is the
      length of the current run of unchanged generations. The run starts at
      generation m - count, which is then a fixed point (when count > 0) and differs
      from the generation before it (when there is one). */
  predicate UnchangedRun(g0: Grid, rows: nat, cols: nat, m: nat, count: nat)
    requires IsGrid(g0, rows, cols)
  {
    count <= m
    && (count > 0 ==> Step(Iterate(g0, rows, cols, m - count), rows, cols) == Iterate(g0, rows, cols, m - count))
    && (m - count > 0 ==> Iterate(g0, rows, cols, m - count - 1) != Iterate(g0, rows, cols, m - count))
  }

  /** Every generation of the current run of unchanged generations is the last. */
  lemma RunIsConstant(g0: Grid, rows: nat, cols: nat, m: nat, count: nat, k: nat)
    requires IsGrid(g0, rows, cols) && UnchangedRun(g0, rows, cols, m, count)
    requires m - count <= k <= m
    ensures Iterate(g0, rows, cols, k) == Iterate(g0, rows, cols, m)
  {
    if count > 0 {
      FixedPointPersists(g0, rows, cols, m - count, k);
      FixedPointPersists(g0, rows, cols, m - count, m);
    }
  }

  /** No generation before the current run of unchanged generations is a fixed
      point: it would have made the run start earlier. */
  lemma NoFixedPointBeforeRun(g0: Grid, rows: nat, cols: nat, m: nat, count: nat, k: nat)
    requires IsGrid(g0, rows, cols) && UnchangedRun(g0, rows, cols, m, count)
    requires k < m - count
    ensures Step(Iterate(g0, rows, cols, k), rows, cols) != Iterate(g0, rows, cols, k)
  {
    if Step(Iterate(g0, rows, cols, k), rows, cols) == Iterate(g0, rows, cols, k) {
      FixedPointPersists(g0, rows, cols, k, m - count - 1);
      assert false;
    }
  }

  /** One more generation extends the current run of unchanged generations when
      it equals the last one, and starts a new, empty run otherwise. */
  lemma UnchangedRunStep(g0: Grid, rows: nat, cols: nat, m: nat, count: nat)
    requires IsGrid(g0, rows, cols) && UnchangedRun(g0, rows, cols, m, count)
    ensures UnchangedRun(g0, rows, cols, m + 1,
      if Iterate(g0, rows, cols, m + 1) == Iterate(g0, rows, cols, m) then count + 1 else 0)
  {
    if Iterate(g0, rows, cols, m + 1) == Iterate(g0, rows, cols, m) {
      assert m + 1 - (count + 1) == m - count;
    }
  }

  /** A run computes at most one generation per frame. It stops as stable exactly
      when the counter has reached ten, which it cannot pass from ten or below, and
      otherwise only when every frame has been used. */
  lemma {:induction false} SettleEnding(g: Grid, rows: nat, cols: nat, stableCount: nat, framesLeft: nat)
    requires IsGrid(g, rows, cols)
    ensures var f := Settle(g, rows, cols, stableCount, framesLeft);
      f.ticks <= framesLeft
      && (f.ending == StableState <==> f.stableCount >= 10)
      && (f.ending == QuitRequested ==> f.ticks == framesLeft)
      && (stableCount <= 10 ==> f.stableCount <= 10)
    decreases framesLeft
  {
    if stableCount < 10 && framesLeft > 0 {
      var s := Step(g, rows, cols);
      SettleEnding(s, rows, cols, if s == g then stableCount + 1 else 0, framesLeft - 1);
    }
  }

  /** A run that has made m steps from g0 goes on along the evolution of g0: its
      last grid is generation m + ticks. */
  lemma {:induction false} SettleFollowsEvolution(g0: Grid, rows: nat, cols: nat, m: nat,
      g: Grid, stableCount: nat, framesLeft: nat)
    requires IsGrid(g0, rows, cols) && g == Iterate(g0, rows, cols, m)
    ensures var f := Settle(g, rows, cols, stableCount, framesLeft);
      f.grid == Iterate(g0, rows, cols, m + f.ticks)
    decreases framesLeft
  {
    if stableCount < 10 && framesLeft > 0 {
      var s := Step(g, rows, cols);
      SettleFollowsEvolution(g0, rows, cols, m + 1, s, if s == g then stableCount + 1 else 0, framesLeft - 1);
    }
  }

  /** A run that starts with the counter at the length of the current run of
      unchanged generations leaves it so. */
  lemma {:induction false} SettleKeepsCount(g0: Grid, rows: nat, cols: nat, m: nat,
      g: Grid, stableCount: nat, framesLeft: nat)
    requires IsGrid(g0, rows, cols) && g == Iterate(g0, rows, cols, m)
    requires UnchangedRun(g0, rows, cols, m, stableCount)
    ensures var f := Settle(g, rows, cols, stableCount, framesLeft);
      UnchangedRun(g0, rows, cols, m + f.ticks, f.stableCount)
    decreases framesLeft
  {
    if stableCount < 10 && framesLeft > 0 {
      var s := Step(g, rows, cols);
      assert s == Iterate(g0, rows, cols, m + 1);
      UnchangedRunStep(g0, rows, cols, m, stableCount);
      SettleKeepsCount(g0, rows, cols, m + 1, s, if s == g then stableCount + 1 else 0, framesLeft - 1);
    }
  }

  /** A run of ten unchanged generations means the grid is a fixed point and that
      no earlier generation was one (else the run would have reached ten sooner). */
  lemma UnchangedRunOfTen(g0: Grid, rows: nat, cols: nat, n: nat)
    requires IsGrid(g0, rows, cols) && UnchangedRun(g0, rows, cols, n, 10)
    ensures n >= 10
    ensures forall k :: n - 10 <= k <= n ==> Iterate(g0, rows, cols, k) == Iterate(g0, rows, cols, n)
    ensures Step(Iterate(g0, rows, cols, n), rows, cols) == Iterate(g0, rows, cols, n)
    ensures forall k :: 0 <= k < n - 10 ==> Step(Iterate(g0, rows, cols, k), rows, cols) != Iterate(g0, rows, cols, k)
  {
    forall k | n - 10 <= k <= n
      ensures Iterate(g0, rows, cols, k) == Iterate(g0, rows, cols, n)
    {
      RunIsConstant(g0, rows, cols, n, 10, k);
    }
    forall k | 0 <= k < n - 10
      ensures Step(Iterate(g0, rows, cols, k), rows, cols) != Iterate(g0, rows, cols, k)
    {
      NoFixedPointBeforeRun(g0, rows, cols, n, 10, k);
    }
  }

  /** A run of fewer than ten unchanged generations after n steps means no
      generation up to n - 10 was a fixed point. */
  lemma ShortRunMeansNoEarlyFixedPoint(g0: Grid, rows: nat, cols: nat, n: nat, c: nat)
    requires IsGrid(g0, rows, cols) && c < 10 && UnchangedRun(g0, rows, cols, n, c)
    ensures forall k :: 0 <= k && k + 10 <= n ==> Step(Iterate(g0, rows, cols, k), rows, cols) != Iterate(g0, rows, cols, k)
  {
    forall k | 0 <= k && k + 10 <= n
      ensures Step(Iterate(g0, rows, cols, k), rows, cols) != Iterate(g0, rows, cols, k)
    {
      NoFixedPointBeforeRun(g0, rows, cols, n, c, k);
    }
  }

  /** The run as the program starts it, with the counter at 0: it stops as stable
      only on a fixed point reached by ten unchanged generations in a row, at the
      first moment that happens; and if the window is closed first, every frame
      computed a generation and no fixed point was reached early enough to count
      ten unchanged generations. */
  lemma RunIsSound(g: Grid, rows: nat, cols: nat, quitFrame: nat)
    requires IsGrid(g, rows, cols)
    ensures var f := Settle(g, rows, cols, 0, quitFrame);
      f.ticks <= quitFrame && f.grid == Iterate(g, rows, cols, f.ticks)
      && (f.ending == StableState ==>
            f.ticks >= 10
            && Step(f.grid, rows, cols) == f.grid
            && (forall k :: f.ticks - 10 <= k <= f.ticks ==> Iterate(g, rows, cols, k) == f.grid)
            && (forall k :: 0 <= k < f.ticks - 10 ==> Step(Iterate(g, rows, cols, k), rows, cols) != Iterate(g, rows, cols, k)))
      && (f.ending == QuitRequested ==>
            f.ticks == quitFrame
            && forall k :: 0 <= k && k + 10 <= f.ticks ==> Step(Iterate(g, rows, cols, k), rows, cols) != Iterate(g, rows, cols, k))
  {
    var f := Settle(g, rows, cols, 0, quitFrame);
    SettleEnding(g, rows, cols, 0, quitFrame);
    SettleFollowsEvolution(g, rows, cols, 0, g, 0, quitFrame);
    assert UnchangedRun(g, rows, cols, 0, 0);
    SettleKeepsCount(g, rows, cols, 0, g, 0, quitFrame);
    if f.ending == StableState {
      UnchangedRunOfTen(g, rows, cols, f.ticks);
    } else {
      ShortRunMeansNoEarlyFixedPoint(g, rows, cols, f.ticks, f.stableCount);
    }
  }

  /** A still life is reported stable after exactly ten generations, if the window
      stays open that long. */
  lemma StillLifeSettles(g: Grid, rows: nat, cols: nat, quitFrame: nat)
    requires IsGrid(g, rows, cols) && Step(g, rows, cols) == g && quitFrame >= 10
    ensures Settle(g, rows, cols, 0, quitFrame) == Finish(g, 10, 10, StableState)
  {
    StillLifeSettlesFrom(g, rows, cols, 0, quitFrame);
  }

  /** With the counter at any value up to ten, a still life is reported stable once
      the counter has climbed to ten, one generation per frame. */
  lemma {:induction false} StillLifeSettlesFrom(g: Grid, rows: nat, cols: nat, stableCount: nat, framesLeft: nat)
    requires IsGrid(g, rows, cols) && Step(g, rows, cols) == g
    requires stableCount <= 10 && stableCount + framesLeft >= 10
    ensures Settle(g, rows, cols, stableCount, framesLeft) == Finish(g, 10 - stableCount, 10, StableState)
    decreases 10 - stableCount
  {
    if stableCount < 10 {
      StillLifeSettlesFrom(g, rows, cols, stableCount + 1, framesLeft - 1);
    }
  }

  /** A period-2 oscillator never settles: its counter stays at 0, and the run goes
      on until the window is closed. */
  lemma {:induction false} OscillatorNeverSettles(g: Grid, rows: nat, cols: nat, quitFrame: nat)
    requires IsGrid(g, rows, cols) && Step(g, rows, cols) != g
    requires Step(Step(g, rows, cols), rows, cols) == g
    ensures Settle(g, rows, cols, 0, quitFrame).ending == QuitRequested
    ensures Settle(g, rows, cols, 0, quitFrame).ticks == quitFrame
    decreases quitFrame
  {
    if quitFrame > 0 {
      var o := Step(g, rows, cols);
      OscillatorNeverSettles(o, rows, cols, quitFrame - 1);
    }
  }

  /** The block of the test board is reported stable after ten generations, still
      in place. */
  lemma BlockSettles(quitFrame: nat)
    requires quitFrame >= 10
    ensures Settle(Patterns.Block(), Patterns.Size, Patterns.Size, 0, quitFrame)
         == Finish(Patterns.Block(), 10, 10, StableState)
  {
    Patterns.BlockIsStillLife();
    StillLifeSettles(Patterns.Block(), Patterns.Size, Patterns.Size, quitFrame);
  }

  /** The blinker of the test board never settles. */
  lemma BlinkerNeverSettles(quitFrame: nat)
    ensures Settle(Patterns.Blinker(), Patterns.Size, Patterns.Size, 0, quitFrame).ending == QuitRequested
  {
    Patterns.BlinkerHasPeriodTwo();
    OscillatorNeverSettles(Patterns.Blinker(), Patterns.Size, Patterns.Size, quitFrame);
  }

  // ---------------------------------------------------------------------------
  // The screensaver object

  /** The screensaver's state between frames: the grid, on a torus of `rows` x
      `cols` cells. */
  class GameOfLifeScreensaver {
    const rows: nat
    const cols: nat
    var grid: Grid

    /** The grid has the object's dimensions. */
    predicate Valid()
      reads this
    {
      IsGrid(grid, rows, cols)
    }

    /** A screen of width x height pixels in cells of cellSize pixels, seeded with
        the three patterns. */
    constructor (width: nat, height: nat, cellSize: nat)
      requires cellSize > 0 && PatternsFit(height / cellSize, width / cellSize)
      ensures rows == height / cellSize && cols == width / cellSize
      ensures Valid() && grid == InitialGrid(rows, cols)
    {
      rows, cols := height / cellSize, width / cellSize;
      new;
      grid := InitializeGrid();
    }

    /** The seed, built by three pairs of nested loops that copy each pattern cell
        by cell, zeros included. */
    method InitializeGrid() returns (g: Grid)
      requires PatternsFit(rows, cols)
      ensures g == InitialGrid(rows, cols) && IsBinary(g)
      ensures forall r, c :: 0 <= r < rows && 0 <= c < cols ==> g[r][c] == SeedCell(rows, cols, r, c)
    {
      g := Zero(rows, cols);
      g := StampPattern(g, rows, cols, StarIsBorn(), rows / 3, 2 * cols / 3);
      g := StampPattern(g, rows, cols, CelestialHarmony(), 2 * rows / 3, 2 * cols / 3);
      g := StampPattern(g, rows, cols, Glider(), rows / 2, cols / 2);
      InitialGridCells(rows, cols);
    }

    /** The next generation, in a freshly built grid; the current grid is only
        read. */
    method UpdateGrid() returns (newGrid: Grid)
      requires Valid()
      ensures newGrid == Step(grid, rows, cols)
    {
      newGrid := NextGeneration(grid, rows, cols);
    }

    /** One frame: compute the next generation, count it as unchanged when it
        equals the current grid (and restart the count otherwise), and make it the
        current grid. */
    method Tick(stableCount: nat) returns (count: nat)
      requires Valid()
      modifies this
      ensures Valid() && grid == Step(old(grid), rows, cols)
      ensures count == if grid == old(grid) then stableCount + 1 else 0
    {
      var newGrid := UpdateGrid();
      if grid == newGrid {
        count := stableCount + 1;
      } else {
        count := 0;
      }
      grid := newGrid;
    }

    /** The main loop, with the window closed in frame number `quitFrame` (counted
        from 0), which ends the program before that frame's generation. */
    method RunSimulation(quitFrame: nat) returns (ending: Ending)
      requires Valid()
      modifies this
      ensures Valid()
      ensures var f := Settle(old(grid), rows, cols, 0, quitFrame); grid == f.grid && ending == f.ending
    {
      ghost var target := Settle(grid, rows, cols, 0, quitFrame);
      var stableCount: nat := 0;
      var frame: nat := 0;
      while stableCount < 10
        invariant Valid() && frame <= quitFrame
        invariant Settle(grid, rows, cols, stableCount, quitFrame - frame).grid == target.grid
        invariant Settle(grid, rows, cols, stableCount, quitFrame - frame).ending == target.ending
        decreases quitFrame - frame
      {
        if frame == quitFrame {
          return QuitRequested;
        }
        stableCount := Tick(stableCount);
        frame := frame + 1;
      }
      ending := StableState;
    }
  }
}
