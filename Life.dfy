/** The engine shared by both variants of the program: a toroidal grid of integer
    cells (0 dead, 1 alive), the wrapped neighbour count, the B3/S23 rule, one
    generation step computed from a full snapshot, and the 3x3 pattern stamp used to
    seed the grid. */
module Life {
  import Modular

  /** A grid as a list of rows, as the program stores it. */
  type Grid = seq<seq<int>>

  /** `g` has exactly `rows` rows of exactly `cols` cells each. */
  predicate IsGrid(g: Grid, rows: nat, cols: nat)
  {
    |g| == rows && forall r :: 0 <= r < rows ==> |g[r]| == cols
  }

  /** Every cell is 0 or 1. */
  predicate IsBinary(g: Grid)
  {
    forall r, c :: 0 <= r < |g| && 0 <= c < |g[r]| ==> g[r][c] == 0 || g[r][c] == 1
  }

  /** The all-dead grid. */
  function Zero(rows: nat, cols: nat): (g: Grid)
    ensures IsGrid(g, rows, cols) && IsBinary(g)
    ensures forall r, c :: 0 <= r < rows && 0 <= c < cols ==> g[r][c] == 0
  {
    seq(rows, _ => seq(cols, _ => 0))
  }

  /** The cells that are alive, as (row, column) pairs. */
  function LiveCells(g: Grid): set<(int, int)>
  {
    set r, c | 0 <= r < |g| && 0 <= c < |g[r]| && g[r][c] == 1 :: (r, c)
  }

  // ---------------------------------------------------------------------------
  // The torus

  /** The cell at (r, c) with both indices reduced modulo the grid's dimensions
      (`grid[r % ROWS][c % COLS]`), so row -1 is the last row and row `rows` is the
      first. */
  function At(g: Grid, rows: nat, cols: nat, r: int, c: int): int
    requires IsGrid(g, rows, cols) && 0 <= r + rows < 3 * rows && 0 <= c + cols < 3 * cols
  {
    g[Modular.Wrap(r, rows)][Modular.Wrap(c, cols)]
  }

  /** The sum of the first k terms of the generator
      `grid[(r + i) % ROWS][(c + j) % COLS] for i in range(-1, 2) for j in range(-1, 2)`:
      term t has offsets i = t / 3 - 1 and j = t % 3 - 1. */
  function BlockSum(g: Grid, rows: nat, cols: nat, r: nat, c: nat, k: nat): int
    requires IsGrid(g, rows, cols) && r < rows && c < cols && k <= 9
  {
    if k == 0 then 0
    else BlockSum(g, rows, cols, r, c, k - 1) + At(g, rows, cols, r + (k - 1) / 3 - 1, c + (k - 1) % 3 - 1)
  }

  /** The live-neighbour count of (r, c): the wrapped 3x3 block centred on (r, c),
      summed, minus the centre cell itself. */
  function Neighbors(g: Grid, rows: nat, cols: nat, r: nat, c: nat): int
    requires IsGrid(g, rows, cols) && r < rows && c < cols
  {
    BlockSum(g, rows, cols, r, c, 9) - g[r][c]
  }

  /** The neighbour count written out: the eight wrapped cells around (r, c), the
      centre's own term cancelling against the subtraction. */
  lemma NeighborsExplicit(g: Grid, rows: nat, cols: nat, r: nat, c: nat)
    requires IsGrid(g, rows, cols) && r < rows && c < cols
    ensures Neighbors(g, rows, cols, r, c)
         == At(g, rows, cols, r - 1, c - 1) + At(g, rows, cols, r - 1, c) + At(g, rows, cols, r - 1, c + 1)
          + At(g, rows, cols, r, c - 1) + At(g, rows, cols, r, c + 1)
          + At(g, rows, cols, r + 1, c - 1) + At(g, rows, cols, r + 1, c) + At(g, rows, cols, r + 1, c + 1)
  {
    assert BlockSum(g, rows, cols, r, c, 1) == 0 + At(g, rows, cols, r - 1, c - 1);
    assert BlockSum(g, rows, cols, r, c, 2) == BlockSum(g, rows, cols, r, c, 1) + At(g, rows, cols, r - 1, c);
    assert BlockSum(g, rows, cols, r, c, 3) == BlockSum(g, rows, cols, r, c, 2) + At(g, rows, cols, r - 1, c + 1);
    assert BlockSum(g, rows, cols, r, c, 4) == BlockSum(g, rows, cols, r, c, 3) + At(g, rows, cols, r, c - 1);
    assert BlockSum(g, rows, cols, r, c, 5) == BlockSum(g, rows, cols, r, c, 4) + At(g, rows, cols, r, c);
    assert BlockSum(g, rows, cols, r, c, 6) == BlockSum(g, rows, cols, r, c, 5) + At(g, rows, cols, r, c + 1);
    assert BlockSum(g, rows, cols, r, c, 7) == BlockSum(g, rows, cols, r, c, 6) + At(g, rows, cols, r + 1, c - 1);
    assert BlockSum(g, rows, cols, r, c, 8) == BlockSum(g, rows, cols, r, c, 7) + At(g, rows, cols, r + 1, c);
    assert BlockSum(g, rows, cols, r, c, 9) == BlockSum(g, rows, cols, r, c, 8) + At(g, rows, cols, r + 1, c + 1);
    assert At(g, rows, cols, r, c) == g[r][c];
  }

  /** The wrapped read is the program's `grid[r % ROWS][c % COLS]`, with Python's
      remainder (never negative for a positive modulus). */
  lemma AtIsRemainder(g: Grid, rows: nat, cols: nat, r: int, c: int)
    requires IsGrid(g, rows, cols) && 0 <= r + rows < 3 * rows && 0 <= c + cols < 3 * cols
    ensures 0 <= r % rows < rows && 0 <= c % cols < cols
    ensures At(g, rows, cols, r, c) == g[r % rows][c % cols]
  {
    Modular.WrapIsMod(r, rows);
    Modular.WrapIsMod(c, cols);
  }

  /** Three horizontally adjacent cells of a row, centred on column c, wrapping. */
  function RowTriple(row: seq<int>, cols: nat, c: nat): int
    requires |row| == cols && c < cols
  {
    row[Modular.Wrap(c - 1, cols)] + row[c] + row[Modular.Wrap(c + 1, cols)]
  }

  /** The neighbour count row by row: the wrapped 3x3 block is the row above, the
      row itself and the row below, each read at three wrapped columns. */
  lemma NeighborsByRows(g: Grid, rows: nat, cols: nat, r: nat, c: nat)
    requires IsGrid(g, rows, cols) && r < rows && c < cols
    ensures Neighbors(g, rows, cols, r, c)
         == RowTriple(g[Modular.Wrap(r - 1, rows)], cols, c) + RowTriple(g[r], cols, c)
          + RowTriple(g[Modular.Wrap(r + 1, rows)], cols, c) - g[r][c]
  {
    NeighborsExplicit(g, rows, cols, r, c);
  }

  /** On a 0/1 grid a cell has between 0 and 8 live neighbours. */
  lemma NeighborsRange(g: Grid, rows: nat, cols: nat, r: nat, c: nat)
    requires IsGrid(g, rows, cols) && IsBinary(g) && r < rows && c < cols
    ensures 0 <= Neighbors(g, rows, cols, r, c) <= 8
  {
    NeighborsExplicit(g, rows, cols, r, c);
  }

  /** The 3x3 wrapped block centred on (r, c), row by row. */
  function Window(g: Grid, rows: nat, cols: nat, r: int, c: int): (w: Grid)
    requires IsGrid(g, rows, cols) && 0 <= r < rows && 0 <= c < cols
    ensures IsGrid(w, 3, 3)
  {
    [[At(g, rows, cols, r - 1, c - 1), At(g, rows, cols, r - 1, c), At(g, rows, cols, r - 1, c + 1)],
     [At(g, rows, cols, r, c - 1),     At(g, rows, cols, r, c),     At(g, rows, cols, r, c + 1)],
     [At(g, rows, cols, r + 1, c - 1), At(g, rows, cols, r + 1, c), At(g, rows, cols, r + 1, c + 1)]]
  }

  // ---------------------------------------------------------------------------
  // The rule and one generation

  /** The next value of a cell whose current value is `cell` and whose neighbour
      count is `n`: a live cell with fewer than 2 or more than 3 neighbours dies, a
      dead cell with exactly 3 is born, every other cell keeps its value. */
  function NextCell(cell: int, n: int): int
  {
    if cell == 1 && (n < 2 || n > 3) then 0
    else if cell == 0 && n == 3 then 1
    else cell
  }

  /** The next value of cell (r, c) of the grid; 0 off the grid. */
  function StepCell(g: Grid, rows: nat, cols: nat, r: int, c: int): int
  {
    if IsGrid(g, rows, cols) && 0 <= r < rows && 0 <= c < cols
    then NextCell(g[r][c], Neighbors(g, rows, cols, r, c))
    else 0
  }

  /** The next generation: every cell of the result is computed from the old grid
      only, never from a cell already updated. */
  function Step(g: Grid, rows: nat, cols: nat): (s: Grid)
    requires IsGrid(g, rows, cols)
    ensures IsGrid(s, rows, cols)
  {
    seq(rows, r => seq(cols, c => StepCell(g, rows, cols, r, c)))
  }

  /** The grid after `n` generations. */
  function Iterate(g: Grid, rows: nat, cols: nat, n: nat): (s: Grid)
    requires IsGrid(g, rows, cols)
    ensures IsGrid(s, rows, cols)
  {
    if n == 0 then g else Step(Iterate(g, rows, cols, n - 1), rows, cols)
  }

  /** The top-left cell (r0, c0) of a 3x3 block covers (r, c). */
  predicate InBlock(r: int, c: int, r0: int, c0: int)
  {
    r0 <= r < r0 + 3 && c0 <= c < c0 + 3
  }

  /** Cell (r, c) after stamping `p` at (r0, c0); 0 off the grid. */
  function StampCell(g: Grid, rows: nat, cols: nat, p: Grid, r0: nat, c0: nat, r: int, c: int): int
  {
    if !(IsGrid(g, rows, cols) && IsGrid(p, 3, 3) && 0 <= r < rows && 0 <= c < cols) then 0
    else if InBlock(r, c, r0, c0) then p[r - r0][c - c0]
    else g[r][c]
  }

  /** `g` with the 3x3 block at (r0, c0) overwritten by the pattern `p`, zeros
      included; nothing wraps. This is what a slice assignment
      `grid[r0:r0+3, c0:c0+3] = p` does. */
  function Stamp(g: Grid, rows: nat, cols: nat, p: Grid, r0: nat, c0: nat): (s: Grid)
    requires IsGrid(g, rows, cols) && IsGrid(p, 3, 3) && r0 + 3 <= rows && c0 + 3 <= cols
    ensures IsGrid(s, rows, cols)
  {
    seq(rows, r => seq(cols, c => StampCell(g, rows, cols, p, r0, c0, r, c)))
  }

  // ---------------------------------------------------------------------------
  // The imperative computation of one generation

  /** The nested loops of `update_grid`: a fresh all-zero grid is filled cell by
      cell, reading only the old grid `g`. */
  method NextGeneration(g: Grid, rows: nat, cols: nat) returns (newGrid: Grid)
    requires IsGrid(g, rows, cols)
    ensures newGrid == Step(g, rows, cols)
  {
    ghost var s := Step(g, rows, cols);
    newGrid := seq(rows, _ => seq(cols, _ => 0));
    for row := 0 to rows
      invariant IsGrid(newGrid, rows, cols)
      invariant forall r, c :: 0 <= r < row && 0 <= c < cols ==> newGrid[r][c] == s[r][c]
    {
      for col := 0 to cols
        invariant IsGrid(newGrid, rows, cols)
        invariant forall r, c :: 0 <= r < row && 0 <= c < cols ==> newGrid[r][c] == s[r][c]
        invariant forall c :: 0 <= c < col ==> newGrid[row][c] == s[row][c]
      {
        var neighbors := Neighbors(g, rows, cols, row, col);
        if g[row][col] == 1 && (neighbors < 2 || neighbors > 3) {
          newGrid := newGrid[row := newGrid[row][col := 0]];
        } else if g[row][col] == 0 && neighbors == 3 {
          newGrid := newGrid[row := newGrid[row][col := 1]];
        } else {
          newGrid := newGrid[row := newGrid[row][col := g[row][col]]];
        }
      }
    }
    assert forall r :: 0 <= r < rows ==> newGrid[r] == s[r];
  }

  /** The nested loops that copy a 3x3 pattern cell by cell into the grid at
      (r0, c0), without wrapping or bounds checks (hence the precondition). */
  method StampPattern(g: Grid, rows: nat, cols: nat, p: Grid, r0: nat, c0: nat) returns (s: Grid)
    requires IsGrid(g, rows, cols) && IsGrid(p, 3, 3) && r0 + 3 <= rows && c0 + 3 <= cols
    ensures s == Stamp(g, rows, cols, p, r0, c0)
  {
    ghost var t := Stamp(g, rows, cols, p, r0, c0);
    s := g;
    for i := 0 to 3
      invariant IsGrid(s, rows, cols)
      invariant forall r, c :: 0 <= r < rows && 0 <= c < cols ==>
        s[r][c] == if r0 <= r < r0 + i && c0 <= c < c0 + 3 then p[r - r0][c - c0] else g[r][c]
    {
      for j := 0 to 3
        invariant IsGrid(s, rows, cols)
        invariant forall r, c :: 0 <= r < rows && 0 <= c < cols ==>
          s[r][c] == if (r0 <= r < r0 + i && c0 <= c < c0 + 3) || (r == r0 + i && c0 <= c < c0 + j)
                     then p[r - r0][c - c0] else g[r][c]
      {
        s := s[r0 + i := s[r0 + i][c0 + j := p[i][j]]];
      }
    }
    assert forall r :: 0 <= r < rows ==> s[r] == t[r];
  }

  // ---------------------------------------------------------------------------
  // Properties of the rule

  /** The rule in its birth/survival form B3/S23: on a 0/1 grid a cell is alive in
      the next generation exactly when it has 3 live neighbours, or is alive and has
      2; otherwise it is dead. */
  lemma BirthSurvival(g: Grid, rows: nat, cols: nat, r: nat, c: nat)
    requires IsGrid(g, rows, cols) && IsBinary(g) && r < rows && c < cols
    ensures var n := Neighbors(g, rows, cols, r, c);
      (Step(g, rows, cols)[r][c] == 1 <==> n == 3 || (g[r][c] == 1 && n == 2))
      && (Step(g, rows, cols)[r][c] == 0 <==> !(n == 3 || (g[r][c] == 1 && n == 2)))
  {
  }

  /** A 0/1 grid steps to a 0/1 grid. */
  lemma StepKeepsBinary(g: Grid, rows: nat, cols: nat)
    requires IsGrid(g, rows, cols) && IsBinary(g)
    ensures IsBinary(Step(g, rows, cols))
  {
  }

  /** Stamping a pattern into the all-dead grid leaves alive exactly the cells the
      pattern marks alive, moved to the anchor (r0, c0). */
  lemma StampedLiveCells(rows: nat, cols: nat, p: Grid, r0: nat, c0: nat)
    requires IsGrid(p, 3, 3) && r0 + 3 <= rows && c0 + 3 <= cols
    ensures LiveCells(Stamp(Zero(rows, cols), rows, cols, p, r0, c0))
         == set i, j | 0 <= i < 3 && 0 <= j < 3 && p[i][j] == 1 :: (r0 + i, c0 + j)
  {
    var s := Stamp(Zero(rows, cols), rows, cols, p, r0, c0);
    var want := set i, j | 0 <= i < 3 && 0 <= j < 3 && p[i][j] == 1 :: (r0 + i, c0 + j);
    forall x | x in LiveCells(s)
      ensures x in want
    {
      var r, c := x.0, x.1;
      assert s[r][c] == 1;
      assert InBlock(r, c, r0, c0);
      assert p[r - r0][c - c0] == 1;
    }
    forall x | x in want
      ensures x in LiveCells(s)
    {
      var i, j :| 0 <= i < 3 && 0 <= j < 3 && p[i][j] == 1 && x == (r0 + i, c0 + j);
      assert s[r0 + i][c0 + j] == 1;
    }
  }

  /** A cell's next value depends only on the wrapped 3x3 block around it in the old
      grid: two grids that agree there agree on that cell after one step. */
  lemma StepIsLocal(g: Grid, h: Grid, rows: nat, cols: nat, r: nat, c: nat)
    requires IsGrid(g, rows, cols) && IsGrid(h, rows, cols) && r < rows && c < cols
    requires Window(g, rows, cols, r, c) == Window(h, rows, cols, r, c)
    ensures Step(g, rows, cols)[r][c] == Step(h, rows, cols)[r][c]
  {
    var wg, wh := Window(g, rows, cols, r, c), Window(h, rows, cols, r, c);
    assert wg[0] == wh[0] && wg[1] == wh[1] && wg[2] == wh[2];
    NeighborsExplicit(g, rows, cols, r, c);
    NeighborsExplicit(h, rows, cols, r, c);
    assert g[r][c] == wg[1][1] && h[r][c] == wh[1][1];
  }

  /** A still life stays put: if one step leaves `g` unchanged, so do any number. */
  lemma {:induction false} StillLifeForever(g: Grid, rows: nat, cols: nat, n: nat)
    requires IsGrid(g, rows, cols) && Step(g, rows, cols) == g
    ensures Iterate(g, rows, cols, n) == g
  {
    if n > 0 {
      StillLifeForever(g, rows, cols, n - 1);
    }
  }

  /** Once a generation k is a fixed point, every later generation equals it. */
  lemma {:induction false} FixedPointPersists(g: Grid, rows: nat, cols: nat, k: nat, j: nat)
    requires IsGrid(g, rows, cols) && Step(Iterate(g, rows, cols, k), rows, cols) == Iterate(g, rows, cols, k)
    requires k <= j
    ensures Iterate(g, rows, cols, j) == Iterate(g, rows, cols, k)
    decreases j
  {
    if j > k {
      FixedPointPersists(g, rows, cols, k, j - 1);
    }
  }

  /** Once generation i + p repeats generation i, the evolution cycles with period p
      from generation i on. */
  lemma {:induction false} CycleRepeats(g: Grid, rows: nat, cols: nat, i: nat, p: nat, k: nat)
    requires IsGrid(g, rows, cols) && Iterate(g, rows, cols, i + p) == Iterate(g, rows, cols, i)
    requires i <= k
    ensures Iterate(g, rows, cols, k + p) == Iterate(g, rows, cols, k)
    decreases k
  {
    if k > i {
      CycleRepeats(g, rows, cols, i, p, k - 1);
      assert k + p - 1 == (k - 1) + p;
    }
  }

  // ---------------------------------------------------------------------------
  // The torus is homogeneous: stepping commutes with a wrapped translation

  /** `g` translated on the torus by (dr, dc): the cell at (r, c) of the result is
      the wrapped cell (r + dr, c + dc) of `g`. Every translation of the torus has
      such an offset with 0 <= dr < rows and 0 <= dc < cols. */
  function Shift(g: Grid, rows: nat, cols: nat, dr: nat, dc: nat): (s: Grid)
    requires IsGrid(g, rows, cols) && dr < rows && dc < cols
    ensures IsGrid(s, rows, cols)
  {
    seq(rows, r => seq(cols, c => ShiftCell(g, rows, cols, dr, dc, r, c)))
  }

  /** Cell (r, c) of `g` translated by (dr, dc); 0 off the grid. */
  function ShiftCell(g: Grid, rows: nat, cols: nat, dr: nat, dc: nat, r: int, c: int): int
  {
    if IsGrid(g, rows, cols) && dr < rows && dc < cols && 0 <= r < rows && 0 <= c < cols
    then At(g, rows, cols, r + dr, c + dc)
    else 0
  }

  /** A wrapped neighbour of a shifted grid is the neighbour of the shifted position. */
  lemma AtShift(g: Grid, rows: nat, cols: nat, dr: nat, dc: nat, r: nat, c: nat, i: int, j: int)
    requires IsGrid(g, rows, cols) && dr < rows && dc < cols && r < rows && c < cols
    requires -1 <= i <= 1 && -1 <= j <= 1
    ensures At(Shift(g, rows, cols, dr, dc), rows, cols, r + i, c + j)
         == At(g, rows, cols, Modular.Wrap(r + dr, rows) + i, Modular.Wrap(c + dc, cols) + j)
  {
    Modular.WrapCommutes(r, i, dr, rows);
    Modular.WrapCommutes(c, j, dc, cols);
    var s := Shift(g, rows, cols, dr, dc);
    var r', c' := Modular.Wrap(r + i, rows), Modular.Wrap(c + j, cols);
    assert At(s, rows, cols, r + i, c + j) == s[r'][c'];
    assert s[r'][c'] == At(g, rows, cols, r' + dr, c' + dc);
  }

  /** The first k terms of the block sum of a shifted grid at (r, c) are those of
      the original grid at the shifted, wrapped position. */
  lemma {:induction false} BlockSumShift(g: Grid, rows: nat, cols: nat, dr: nat, dc: nat, r: nat, c: nat, k: nat)
    requires IsGrid(g, rows, cols) && dr < rows && dc < cols && r < rows && c < cols && k <= 9
    ensures BlockSum(Shift(g, rows, cols, dr, dc), rows, cols, r, c, k)
         == BlockSum(g, rows, cols, Modular.Wrap(r + dr, rows), Modular.Wrap(c + dc, cols), k)
  {
    if k > 0 {
      BlockSumShift(g, rows, cols, dr, dc, r, c, k - 1);
      AtShift(g, rows, cols, dr, dc, r, c, (k - 1) / 3 - 1, (k - 1) % 3 - 1);
    }
  }

  /** The neighbour count of a shifted grid at (r, c) is the neighbour count of the
      original grid at the shifted, wrapped position. */
  lemma NeighborsShift(g: Grid, rows: nat, cols: nat, dr: nat, dc: nat, r: nat, c: nat)
    requires IsGrid(g, rows, cols) && dr < rows && dc < cols && r < rows && c < cols
    ensures Neighbors(Shift(g, rows, cols, dr, dc), rows, cols, r, c)
         == Neighbors(g, rows, cols, Modular.Wrap(r + dr, rows), Modular.Wrap(c + dc, cols))
  {
    BlockSumShift(g, rows, cols, dr, dc, r, c, 9);
    AtShift(g, rows, cols, dr, dc, r, c, 0, 0);
    Modular.WrapIsMod(r + dr, rows);
    Modular.WrapIsMod(c + dc, cols);
  }

  /** Every position of the torus is alike: stepping a translated grid gives the
      translated step. */
  lemma StepCommutesWithShift(g: Grid, rows: nat, cols: nat, dr: nat, dc: nat)
    requires IsGrid(g, rows, cols) && dr < rows && dc < cols
    ensures Step(Shift(g, rows, cols, dr, dc), rows, cols)
         == Shift(Step(g, rows, cols), rows, cols, dr, dc)
  {
    var a := Step(Shift(g, rows, cols, dr, dc), rows, cols);
    var b := Shift(Step(g, rows, cols), rows, cols, dr, dc);
    forall r, c | 0 <= r < rows && 0 <= c < cols
      ensures a[r][c] == b[r][c]
    {
      NeighborsShift(g, rows, cols, dr, dc, r, c);
      var r', c' := Modular.Wrap(r + dr, rows), Modular.Wrap(c + dc, cols);
      assert Shift(g, rows, cols, dr, dc)[r][c] == At(g, rows, cols, r + dr, c + dc);
      assert b[r][c] == At(Step(g, rows, cols), rows, cols, r + dr, c + dc);
    }
    assert forall r :: 0 <= r < rows ==> a[r] == b[r];
  }
}
