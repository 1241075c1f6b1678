/** The windowed variant of the program (`conways_game_of_life.py`): an
    R-pentomino seed, one generation per frame, and a run that ends when a grid
    repeats one of the last grids remembered after generation 20, or when the
    window is closed. */
module Conway {
  import opened Life
  import Patterns

  // ---------------------------------------------------------------------------
  // The seed

  /** The R-pentomino, a methuselah. */
  function RPentomino(): (p: Grid)
    ensures IsGrid(p, 3, 3) && IsBinary(p)
  {
    [[0, 1, 1],
     [1, 1, 0],
     [0, 1, 0]]
  }

  /** The five live cells of an R-pentomino whose 3x3 box has top-left corner
      (r0, c0). */
  function RPentominoCells(r0: int, c0: int): (cells: set<(int, int)>)
  {
    {(r0, c0 + 1), (r0, c0 + 2), (r0 + 1, c0), (r0 + 1, c0 + 1), (r0 + 2, c0 + 1)}
  }

  /** The seed grid fits: the box at (ROWS // 2, COLS // 2 - 3) lies inside the
      grid, which for these anchors means at least 5 rows and 6 columns. */
  predicate SeedFits(rows: nat, cols: nat)
  {
    rows / 2 + 3 <= rows && 3 <= cols / 2
  }

  /** The anchor's bounds, in the form the stamp needs. */
  lemma SeedFitsBounds(rows: nat, cols: nat)
    requires SeedFits(rows, cols)
    ensures rows >= 5 && cols >= 6 && rows / 2 + 3 <= rows && cols / 2 - 3 + 3 <= cols
  {
  }

  /** The live entries of the R-pentomino, placed at (r0, c0), are its five cells. */
  lemma RPentominoEntries(r0: int, c0: int)
    ensures (set i, j | 0 <= i < 3 && 0 <= j < 3 && RPentomino()[i][j] == 1 :: (r0 + i, c0 + j))
         == RPentominoCells(r0, c0)
  {
    var p := RPentomino();
    var s := set i, j | 0 <= i < 3 && 0 <= j < 3 && p[i][j] == 1 :: (r0 + i, c0 + j);
    forall x | x in s
      ensures x in RPentominoCells(r0, c0)
    {
      var i, j :| 0 <= i < 3 && 0 <= j < 3 && p[i][j] == 1 && x == (r0 + i, c0 + j);
    }
    assert (r0, c0 + 1) in s by { assert p[0][1] == 1; }
    assert (r0, c0 + 2) in s by { assert p[0][2] == 1; }
    assert (r0 + 1, c0) in s by { assert p[1][0] == 1; }
    assert (r0 + 1, c0 + 1) in s by { assert p[1][1] == 1; }
    assert (r0 + 2, c0 + 1) in s by { assert p[2][1] == 1; }
  }

  /** The R-pentomino stamped into the all-dead grid has exactly those five live
      cells. */
  lemma RPentominoLiveCells(rows: nat, cols: nat, r0: nat, c0: nat)
    requires r0 + 3 <= rows && c0 + 3 <= cols
    ensures LiveCells(Stamp(Zero(rows, cols), rows, cols, RPentomino(), r0, c0))
         == RPentominoCells(r0, c0)
    ensures |RPentominoCells(r0, c0)| == 5
  {
    StampedLiveCells(rows, cols, RPentomino(), r0, c0);
    RPentominoEntries(r0, c0);
  }

  // ---------------------------------------------------------------------------
  // The remembered grids

  /** An entry of the history of past grids. The program remembers the text of each
      grid; the first entry is the text of the initial numpy array, which is laid out
      differently from the text of a list of lists and so never matches a later
      grid. Comparing the texts of two lists of lists is comparing the lists. */
  datatype Snapshot = ArrayText | Listed(cells: Grid)

  /** How a run ends: a repeated grid, or a closed window. */
  datatype Ending = PeriodicState | QuitRequested

  /** The history once its oldest entry is dropped, when it holds more than ten. */
  function Evict(h: seq<Snapshot>): seq<Snapshot>
  {
    if |h| > 10 then h[1..] else h
  }

  /** The history is limited to ten entries, the oldest going first: a history at
      most one over the limit is brought back within it, at most one entry is
      dropped, what is kept is the newest entries in their order, and a history
      within the limit is kept whole. */
  lemma EvictLimitsHistory(h: seq<Snapshot>)
    ensures var e := Evict(h);
      (|h| <= 11 ==> |e| <= 10)
      && |h| - 1 <= |e| <= |h| && e == h[|h| - |e|..]
      && (|h| <= 10 ==> e == h)
  {
  }

  /** What one tick does with the history when the new grid is `newGrid` and the
      generation counter, before it is incremented, is `generation`: whether the run
      has reached a periodic state, and the history kept for the next tick. */
  function Remember(h: seq<Snapshot>, newGrid: Grid, generation: nat): (res: (bool, seq<Snapshot>))
  {
    if generation <= 20 then (false, h)
    else if Listed(newGrid) in h then (true, Evict(h))
    else (false, Evict(h + [Listed(newGrid)]))
  }

  /** No two entries of the history are the same. */
  predicate Distinct(h: seq<Snapshot>)
  {
    forall i, j :: 0 <= i < j < |h| ==> h[i] != h[j]
  }

  /** A periodic state is reported exactly when the check is on (after generation
      20) and the new grid is among the remembered ones. */
  lemma RememberReportsRepeat(h: seq<Snapshot>, newGrid: Grid, generation: nat)
    ensures Remember(h, newGrid, generation).0 <==> generation > 20 && Listed(newGrid) in h
  {
  }

  /** Before generation 21 the history is left alone; afterwards a new grid is
      appended, a repeated one is not, and the oldest entry is dropped once there
      are more than ten. */
  lemma RememberUpdatesHistory(h: seq<Snapshot>, newGrid: Grid, generation: nat)
    ensures var h' := Remember(h, newGrid, generation).1;
      (generation <= 20 ==> h' == h)
      && (generation > 20 && Listed(newGrid) in h ==> h' == Evict(h))
      && (generation > 20 && Listed(newGrid) !in h ==> h' == Evict(h + [Listed(newGrid)]))
  {
  }

  /** A full history of ten that gets a new grid loses its oldest entry and gains
      the new grid at the end. */
  lemma RememberDropsOldest(h: seq<Snapshot>, newGrid: Grid, generation: nat)
    requires |h| == 10 && generation > 20 && Listed(newGrid) !in h
    ensures Remember(h, newGrid, generation).1 == h[1..] + [Listed(newGrid)]
  {
    var e := Remember(h, newGrid, generation).1;
    assert |e| == 10;
    forall k | 0 <= k < 10
      ensures e[k] == (h[1..] + [Listed(newGrid)])[k]
    {
      assert e[k] == (h + [Listed(newGrid)])[k + 1];
    }
  }

  /** A history of at most ten distinct entries stays so: one eviction per tick is
      enough, and a grid is appended only when it is not there already. */
  lemma RememberKeepsBound(h: seq<Snapshot>, newGrid: Grid, generation: nat)
    requires |h| <= 10 && Distinct(h)
    ensures var h' := Remember(h, newGrid, generation).1; |h'| <= 10 && Distinct(h')
  {
    var a := h + [Listed(newGrid)];
    if generation > 20 && Listed(newGrid) !in h {
      assert Distinct(a) by {
        forall i, j | 0 <= i < j < |a|
          ensures a[i] != a[j]
        {
          if j == |h| {
            assert a[i] == h[i];
          } else {
            assert a[i] == h[i] && a[j] == h[j];
          }
        }
      }
    }
  }

  // ---------------------------------------------------------------------------
  // A whole run

  /** The end of a run: the last grid, the generation counter and the reason. */
  datatype Outcome = Outcome(grid: Grid, generation: nat, ending: Ending)

  /** The run from grid `g` at generation `generation` with history `h`, when the
      window is closed `framesLeft` frames after the current one. Every frame
      computes one generation, also the frame in which the window is closed, and a
      repeat found in that frame still counts as a periodic state. */
  function Simulate(g: Grid, rows: nat, cols: nat, generation: nat, h: seq<Snapshot>, framesLeft: nat): (o: Outcome)
    requires IsGrid(g, rows, cols)
    ensures IsGrid(o.grid, rows, cols)
    decreases framesLeft
  {
    var s := Step(g, rows, cols);
    var (periodic, h') := Remember(h, s, generation);
    if periodic then Outcome(s, generation + 1, PeriodicState)
    else if framesLeft == 0 then Outcome(s, generation + 1, QuitRequested)
    else Simulate(s, rows, cols, generation + 1, h', framesLeft - 1)
  }

  /** Every entry remembered so far is one of the first n generations of g0. */
  predicate SeenBefore(h: seq<Snapshot>, g0: Grid, rows: nat, cols: nat, n: nat)
    requires IsGrid(g0, rows, cols)
  {
    forall k :: 0 <= k < |h| && h[k].Listed? ==>
      exists j :: 0 <= j < n && Iterate(g0, rows, cols, j) == h[k].cells
  }

  /** A run that has made m steps from g0 goes on along the evolution of g0, and a
      periodic state it reports is a genuine repeat of an earlier generation. */
  lemma {:induction false} SimulateFollowsEvolution(g0: Grid, rows: nat, cols: nat, m: nat,
      g: Grid, generation: nat, h: seq<Snapshot>, framesLeft: nat)
    requires IsGrid(g0, rows, cols) && g == Iterate(g0, rows, cols, m)
    requires SeenBefore(h, g0, rows, cols, m + 1)
    ensures var o := Simulate(g, rows, cols, generation, h, framesLeft);
      generation < o.generation <= generation + framesLeft + 1
      && o.grid == Iterate(g0, rows, cols, m + (o.generation - generation))
      && (o.ending == QuitRequested ==> o.generation == generation + framesLeft + 1)
      && (o.ending == PeriodicState ==>
            o.generation > 21
            && exists j :: 0 <= j < m + (o.generation - generation) && Iterate(g0, rows, cols, j) == o.grid)
    decreases framesLeft
  {
    var s := Step(g, rows, cols);
    assert s == Iterate(g0, rows, cols, m + 1);
    var (periodic, h') := Remember(h, s, generation);
    if periodic {
      var k :| 0 <= k < |h| && h[k] == Listed(s);
      var j :| 0 <= j < m + 1 && Iterate(g0, rows, cols, j) == h[k].cells;
    } else if framesLeft > 0 {
      var a := h + [Listed(s)];
      assert SeenBefore(a, g0, rows, cols, m + 2) by {
        forall k | 0 <= k < |a| && a[k].Listed?
          ensures exists j :: 0 <= j < m + 2 && Iterate(g0, rows, cols, j) == a[k].cells
        {
          if k == |h| {
            assert Iterate(g0, rows, cols, m + 1) == a[k].cells;
          } else {
            assert a[k] == h[k];
          }
        }
      }
      assert SeenBefore(h', g0, rows, cols, m + 2) by {
        if generation > 20 && |a| > 10 {
          forall k | 0 <= k < |h'| && h'[k].Listed?
            ensures exists j :: 0 <= j < m + 2 && Iterate(g0, rows, cols, j) == h'[k].cells
          {
            assert h'[k] == a[k + 1];
          }
        } else if generation > 20 {
          assert h' == a;
        } else {
          assert h' == h;
        }
      }
      SimulateFollowsEvolution(g0, rows, cols, m + 1, s, generation + 1, h', framesLeft - 1);
    }
  }

  /** A run started as the program starts it, from the seed's history holding only
      the initial array text: a reported periodic state repeats an earlier grid of
      the run, and if the window is closed first every frame computed a
      generation. */
  lemma RunIsSound(g: Grid, rows: nat, cols: nat, generation: nat, quitFrame: nat)
    requires IsGrid(g, rows, cols)
    ensures var o := Simulate(g, rows, cols, generation, [ArrayText], quitFrame);
      var n := o.generation - generation;
      0 < n <= quitFrame + 1 && o.grid == Iterate(g, rows, cols, n)
      && (o.ending == QuitRequested ==> n == quitFrame + 1)
      && (o.ending == PeriodicState ==>
            o.generation > 21 && exists j :: 0 <= j < n && Iterate(g, rows, cols, j) == o.grid)
  {
    SimulateFollowsEvolution(g, rows, cols, 0, g, generation, [ArrayText], quitFrame);
  }

  /** From generation j on, the evolution of g repeats with period p. */
  ghost predicate CyclesFrom(g: Grid, rows: nat, cols: nat, j: nat, p: nat)
    requires IsGrid(g, rows, cols)
  {
    forall k :: j <= k ==> Iterate(g, rows, cols, k + p) == Iterate(g, rows, cols, k)
  }

  /** From then on the grids cycle: a reported periodic state means the evolution
      of the starting grid is eventually periodic. */
  lemma PeriodicMeansCycle(g: Grid, rows: nat, cols: nat, generation: nat, quitFrame: nat)
    requires IsGrid(g, rows, cols)
    requires Simulate(g, rows, cols, generation, [ArrayText], quitFrame).ending == PeriodicState
    ensures var n := Simulate(g, rows, cols, generation, [ArrayText], quitFrame).generation - generation;
      exists j, p :: 0 <= j && 0 < p && j + p == n && CyclesFrom(g, rows, cols, j, p)
  {
    var o := Simulate(g, rows, cols, generation, [ArrayText], quitFrame);
    RunIsSound(g, rows, cols, generation, quitFrame);
    var n := o.generation - generation;
    var j :| 0 <= j < n && Iterate(g, rows, cols, j) == o.grid;
    var p := n - j;
    assert Iterate(g, rows, cols, j + p) == Iterate(g, rows, cols, j);
    forall k | j <= k
      ensures Iterate(g, rows, cols, k + p) == Iterate(g, rows, cols, k)
    {
      CycleRepeats(g, rows, cols, j, p, k);
    }
    assert CyclesFrom(g, rows, cols, j, p);
  }

  /** A still life started at generation 0 is reported as a periodic state at
      generation 23: the first check, in generation 21, remembers it, and the next
      finds it. */
  lemma StillLifeReportedPeriodic(g: Grid, rows: nat, cols: nat, quitFrame: nat)
    requires IsGrid(g, rows, cols) && Step(g, rows, cols) == g && quitFrame >= 22
    ensures Simulate(g, rows, cols, 0, [ArrayText], quitFrame) == Outcome(g, 23, PeriodicState)
  {
    StillLifeFrom(g, rows, cols, 0, quitFrame);
  }

  /** From any generation up to 22, with the history the run has then, a still life
      is reported as a periodic state at generation 23. */
  lemma {:induction false} StillLifeFrom(g: Grid, rows: nat, cols: nat, generation: nat, framesLeft: nat)
    requires IsGrid(g, rows, cols) && Step(g, rows, cols) == g
    requires generation <= 22 && framesLeft + generation >= 22
    ensures Simulate(g, rows, cols, generation, if generation <= 21 then [ArrayText] else [ArrayText, Listed(g)], framesLeft)
         == Outcome(g, 23, PeriodicState)
    decreases 22 - generation
  {
    if generation < 21 {
      StillLifeFrom(g, rows, cols, generation + 1, framesLeft - 1);
    } else if generation == 21 {
      assert Listed(g) !in [ArrayText] && [ArrayText] + [Listed(g)] == [ArrayText, Listed(g)];
      StillLifeFrom(g, rows, cols, generation + 1, framesLeft - 1);
    } else {
      assert Listed(g) in [ArrayText, Listed(g)];
    }
  }

  /** A period-2 oscillator started at generation 0 is reported as a periodic state
      at generation 24: generations 22 and 23 are remembered and generation 24
      repeats generation 22. */
  lemma OscillatorReportedPeriodic(g: Grid, rows: nat, cols: nat, quitFrame: nat)
    requires IsGrid(g, rows, cols) && Step(g, rows, cols) != g
    requires Step(Step(g, rows, cols), rows, cols) == g
    requires quitFrame >= 23
    ensures Simulate(g, rows, cols, 0, [ArrayText], quitFrame) == Outcome(g, 24, PeriodicState)
  {
    TwoCycleFrom(g, Step(g, rows, cols), rows, cols, 0, quitFrame);
  }

  /** From any generation up to 23, in the phase and with the history the run has
      then, a period-2 oscillator is reported as a periodic state at generation 24. */
  lemma {:induction false} TwoCycleFrom(g: Grid, o: Grid, rows: nat, cols: nat, generation: nat, framesLeft: nat)
    requires IsGrid(g, rows, cols) && o == Step(g, rows, cols) && o != g
    requires Step(o, rows, cols) == g
    requires generation <= 23 && framesLeft + generation >= 23
    ensures var cur := if generation % 2 == 0 then g else o;
      var h := if generation <= 21 then [ArrayText]
               else if generation == 22 then [ArrayText, Listed(g)]
               else [ArrayText, Listed(g), Listed(o)];
      Simulate(cur, rows, cols, generation, h, framesLeft) == Outcome(g, 24, PeriodicState)
    decreases 23 - generation
  {
    if generation < 21 {
      TwoCycleFrom(g, o, rows, cols, generation + 1, framesLeft - 1);
    } else if generation == 21 {
      assert Listed(g) !in [ArrayText] && [ArrayText] + [Listed(g)] == [ArrayText, Listed(g)];
      TwoCycleFrom(g, o, rows, cols, generation + 1, framesLeft - 1);
    } else if generation == 22 {
      assert Listed(o) !in [ArrayText, Listed(g)];
      assert [ArrayText, Listed(g)] + [Listed(o)] == [ArrayText, Listed(g), Listed(o)];
      TwoCycleFrom(g, o, rows, cols, generation + 1, framesLeft - 1);
    } else {
      assert Listed(g) in [ArrayText, Listed(g), Listed(o)];
    }
  }

  /** The block of the test board, run from generation 0, is reported as a
      periodic state at generation 23, still in place. */
  lemma BlockReportedPeriodic(quitFrame: nat)
    requires quitFrame >= 22
    ensures Simulate(Patterns.Block(), Patterns.Size, Patterns.Size, 0, [ArrayText], quitFrame)
         == Outcome(Patterns.Block(), 23, PeriodicState)
  {
    Patterns.BlockIsStillLife();
    StillLifeReportedPeriodic(Patterns.Block(), Patterns.Size, Patterns.Size, quitFrame);
  }

  /** The blinker of the test board, run from generation 0, is reported as a
      periodic state at generation 24, horizontal again. */
  lemma BlinkerReportedPeriodic(quitFrame: nat)
    requires quitFrame >= 23
    ensures Simulate(Patterns.Blinker(), Patterns.Size, Patterns.Size, 0, [ArrayText], quitFrame)
         == Outcome(Patterns.Blinker(), 24, PeriodicState)
  {
    Patterns.BlinkerHasPeriodTwo();
    OscillatorReportedPeriodic(Patterns.Blinker(), Patterns.Size, Patterns.Size, quitFrame);
  }

  // ---------------------------------------------------------------------------
  // The simulation object

  /** The simulation state the program keeps between frames: the grid and the
      generation counter, on a torus of `rows` x `cols` cells. */
  class GameOfLife {
    const rows: nat
    const cols: nat
    var grid: Grid
    var generation: nat

    /** The grid has the object's dimensions. */
    predicate Valid()
      reads this
    {
      IsGrid(grid, rows, cols)
    }

    /** A window of width x height pixels in cells of cellSize pixels, seeded with
        the R-pentomino, at generation 0. */
    constructor (width: nat, height: nat, cellSize: nat)
      requires cellSize > 0 && SeedFits(height / cellSize, width / cellSize)
      ensures rows == height / cellSize && cols == width / cellSize
      ensures Valid() && generation == 0
      ensures grid == Stamp(Zero(rows, cols), rows, cols, RPentomino(), rows / 2, cols / 2 - 3)
    {
      rows, cols := height / cellSize, width / cellSize;
      generation := 0;
      new;
      grid := InitializeGrid();
    }

    /** The seed: all cells dead except an R-pentomino whose box has its top-left
        corner at (ROWS // 2, COLS // 2 - 3). */
    method InitializeGrid() returns (g: Grid)
      requires SeedFits(rows, cols)
      ensures IsGrid(g, rows, cols) && IsBinary(g)
      ensures g == Stamp(Zero(rows, cols), rows, cols, RPentomino(), rows / 2, cols / 2 - 3)
      ensures LiveCells(g) == RPentominoCells(rows / 2, cols / 2 - 3) && |LiveCells(g)| == 5
      ensures forall r, c :: 0 <= r < rows && 0 <= c < cols && !InBlock(r, c, rows / 2, cols / 2 - 3) ==> g[r][c] == 0
    {
      SeedFitsBounds(rows, cols);
      g := Zero(rows, cols);
      g := Stamp(g, rows, cols, RPentomino(), rows / 2, cols / 2 - 3);
      RPentominoLiveCells(rows, cols, rows / 2, cols / 2 - 3);
    }

    /** The next generation, in a freshly built grid; the current grid is only
        read. */
    method UpdateGrid() returns (newGrid: Grid)
      requires Valid()
      ensures newGrid == Step(grid, rows, cols)
    {
      newGrid := NextGeneration(grid, rows, cols);
    }

    /** One frame's work on the grid and the history: compute the next generation,
        check it against the history after generation 20 (remembering it when it is
        new, dropping the oldest entry past ten), then make it the current grid and
        count the generation. */
    method Tick(previousGrids: seq<Snapshot>) returns (periodic: bool, history: seq<Snapshot>)
      requires Valid()
      modifies this
      ensures Valid()
      ensures grid == Step(old(grid), rows, cols) && generation == old(generation) + 1
      ensures (periodic, history) == Remember(previousGrids, grid, old(generation))
    {
      var newGrid := UpdateGrid();
      periodic, history := false, previousGrids;
      if generation > 20 {
        if Listed(newGrid) in previousGrids {
          periodic := true;
        } else {
          history := previousGrids + [Listed(newGrid)];
        }
        if |history| > 10 {
          history := history[1..];
        }
      }
      grid := newGrid;
      generation := generation + 1;
    }

    /** The main loop, with the window closed in frame number `quitFrame` (counted
        from 0). Each frame first handles the close request, which stops the loop
        after this frame, then ticks; a periodic state stops it too. */
    method RunSimulation(quitFrame: nat) returns (ending: Ending)
      requires Valid()
      modifies this
      ensures Valid()
      ensures Outcome(grid, generation, ending)
           == Simulate(old(grid), rows, cols, old(generation), [ArrayText], quitFrame)
    {
      ghost var target := Simulate(grid, rows, cols, generation, [ArrayText], quitFrame);
      var running := true;
      var previousGrids: seq<Snapshot> := [ArrayText];
      var frame: nat := 0;
      ending := QuitRequested;
      while running
        invariant Valid()
        invariant running ==> frame <= quitFrame && ending == QuitRequested
        invariant running ==> Simulate(grid, rows, cols, generation, previousGrids, quitFrame - frame) == target
        invariant !running ==> Outcome(grid, generation, ending) == target
        invariant |previousGrids| <= 10 && Distinct(previousGrids)
        decreases if running then quitFrame - frame + 1 else 0
      {
        ghost var before := Simulate(grid, rows, cols, generation, previousGrids, quitFrame - frame);
        if frame == quitFrame {
          running := false;
        }
        ghost var prev, gen := previousGrids, generation;
        var periodic;
        periodic, previousGrids := Tick(previousGrids);
        RememberKeepsBound(prev, grid, gen);
        assert before == if periodic then Outcome(grid, generation, PeriodicState)
          else if frame == quitFrame then Outcome(grid, generation, QuitRequested)
          else Simulate(grid, rows, cols, generation, previousGrids, quitFrame - frame - 1);
        if periodic {
          running := false;
          ending := PeriodicState;
        }
        frame := frame + 1;
      }
    }
  }
}
