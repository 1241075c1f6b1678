/** The small boards the test suite steps by hand: a 100x100-pixel window with
    10-pixel cells, that is a 10x10 torus, holding a block, a horizontal blinker or
    a vertical line. Each lemma states what one test asserts of `update_grid`
    (liveness only; cell ages are not part of the program). */
module Patterns {
  import opened Life

  /** Rows and columns of the test board. */
  const Size: nat := 10

  /** A row of the board whose live cells are the columns lo..hi; empty when
      hi < lo. */
  function Segment(lo: int, hi: int): (row: seq<int>)
    ensures |row| == Size
  {
    seq(Size, c => if lo <= c <= hi then 1 else 0)
  }

  /** A row without live cells. */
  function EmptyRow(): (row: seq<int>)
    ensures |row| == Size && forall c :: 0 <= c < Size ==> row[c] == 0
  {
    Segment(1, 0)
  }

  /** The board whose live cells are the rectangle of rows top..bottom and columns
      left..right. */
  function Rectangle(top: int, bottom: int, left: int, right: int): (g: Grid)
    ensures IsGrid(g, Size, Size) && IsBinary(g)
    ensures forall r, c :: 0 <= r < Size && 0 <= c < Size ==>
      g[r][c] == if top <= r <= bottom && left <= c <= right then 1 else 0
  {
    assert |Segment(left, right)| == Size && |EmptyRow()| == Size;
    seq(Size, r => if top <= r <= bottom then Segment(left, right) else EmptyRow())
  }

  /** A 2x2 block at rows 2-3, columns 2-3. */
  function Block(): (g: Grid)
    ensures IsGrid(g, Size, Size) && IsBinary(g)
  {
    Rectangle(2, 3, 2, 3)
  }

  /** A horizontal blinker at row 2, columns 1-3. */
  function Blinker(): (g: Grid)
    ensures IsGrid(g, Size, Size) && IsBinary(g)
  {
    Rectangle(2, 2, 1, 3)
  }

  /** A vertical line at column 2, rows 1-3. */
  function VerticalLine(): (g: Grid)
    ensures IsGrid(g, Size, Size) && IsBinary(g)
  {
    Rectangle(1, 3, 2, 2)
  }

  /** Three adjacent cells of a segment that does not reach the board's edge
      columns: how many of columns c - 1, c, c + 1 lie in lo..hi. */
  lemma SegmentTriple(lo: int, hi: int, c: nat)
    requires 1 <= lo && hi <= Size - 2 && c < Size
    ensures RowTriple(Segment(lo, hi), Size, c)
         == (if lo <= c - 1 <= hi then 1 else 0) + (if lo <= c <= hi then 1 else 0)
          + (if lo <= c + 1 <= hi then 1 else 0)
  {
  }

  /** An empty row contributes no live cells to a neighbour count. */
  lemma EmptyRowTriple(c: nat)
    requires c < Size
    ensures RowTriple(EmptyRow(), Size, c) == 0
  {
    SegmentTriple(1, 0, c);
  }

  /** The rows of a rectangle: its segment inside rows top..bottom, empty rows
      elsewhere. */
  lemma RectangleRows(top: int, bottom: int, left: int, right: int)
    ensures forall r :: 0 <= r < Size ==>
      Rectangle(top, bottom, left, right)[r] == if top <= r <= bottom then Segment(left, right) else EmptyRow()
  {
  }

  /** Two boards are equal once they agree cell by cell. */
  lemma BoardsEqual(g: Grid, h: Grid)
    requires IsGrid(g, Size, Size) && IsGrid(h, Size, Size)
    requires forall r, c :: 0 <= r < Size && 0 <= c < Size ==> g[r][c] == h[r][c]
    ensures g == h
  {
    assert forall r :: 0 <= r < Size ==> g[r] == h[r];
  }

  /** Cell (r, c) of the block's board keeps its value after one step. */
  lemma BlockCell(g: Grid, r: nat, c: nat)
    requires g == Block() && r < Size && c < Size
    ensures Step(g, Size, Size)[r][c] == g[r][c]
  {
    NeighborsByRows(g, Size, Size, r, c);
    RectangleRows(2, 3, 2, 3);
    SegmentTriple(2, 3, c);
    EmptyRowTriple(c);
  }

  /** Cell (r, c) of the blinker's board becomes cell (r, c) of the vertical line. */
  lemma BlinkerCell(g: Grid, h: Grid, r: nat, c: nat)
    requires g == Blinker() && h == VerticalLine() && r < Size && c < Size
    ensures Step(g, Size, Size)[r][c] == h[r][c]
  {
    NeighborsByRows(g, Size, Size, r, c);
    RectangleRows(2, 2, 1, 3);
    SegmentTriple(1, 3, c);
    EmptyRowTriple(c);
  }

  /** Cell (r, c) of the vertical line's board becomes cell (r, c) of the blinker. */
  lemma LineCell(g: Grid, h: Grid, r: nat, c: nat)
    requires g == VerticalLine() && h == Blinker() && r < Size && c < Size
    ensures Step(g, Size, Size)[r][c] == h[r][c]
  {
    NeighborsByRows(g, Size, Size, r, c);
    RectangleRows(1, 3, 2, 2);
    SegmentTriple(2, 2, c);
    EmptyRowTriple(c);
  }

  /** The block is a still life. */
  lemma BlockIsStillLife()
    ensures Step(Block(), Size, Size) == Block()
  {
    var g := Block();
    forall r, c | 0 <= r < Size && 0 <= c < Size
      ensures Step(g, Size, Size)[r][c] == g[r][c]
    {
      BlockCell(g, r, c);
    }
    BoardsEqual(Step(g, Size, Size), g);
  }

  /** Repeated steps keep the block intact. */
  lemma BlockStaysIntact(n: nat)
    ensures Iterate(Block(), Size, Size, n) == Block()
  {
    BlockIsStillLife();
    StillLifeForever(Block(), Size, Size, n);
  }

  /** One step turns the horizontal blinker into the vertical line. */
  lemma BlinkerTurnsVertical()
    ensures Step(Blinker(), Size, Size) == VerticalLine()
  {
    var g, h := Blinker(), VerticalLine();
    forall r, c | 0 <= r < Size && 0 <= c < Size
      ensures Step(g, Size, Size)[r][c] == h[r][c]
    {
      BlinkerCell(g, h, r, c);
    }
    BoardsEqual(Step(g, Size, Size), h);
  }

  /** One step turns the vertical line into the horizontal blinker. */
  lemma LineTurnsHorizontal()
    ensures Step(VerticalLine(), Size, Size) == Blinker()
  {
    var g, h := VerticalLine(), Blinker();
    forall r, c | 0 <= r < Size && 0 <= c < Size
      ensures Step(g, Size, Size)[r][c] == h[r][c]
    {
      LineCell(g, h, r, c);
    }
    BoardsEqual(Step(g, Size, Size), h);
  }

  /** The blinker differs from its start after one step and is back after two. */
  lemma BlinkerHasPeriodTwo()
    ensures Step(Blinker(), Size, Size) != Blinker()
    ensures Step(Step(Blinker(), Size, Size), Size, Size) == Blinker()
  {
    BlinkerTurnsVertical();
    LineTurnsHorizontal();
    assert VerticalLine()[1][2] != Blinker()[1][2];
  }

  /** The vertical line at (1,2), (2,2), (3,2): after one step (2,1), (2,2) and (2,3)
      are alive and (1,2) and (3,2) are dead. */
  lemma VerticalLineRotates()
    ensures var s := Step(VerticalLine(), Size, Size);
      s[2][1] == 1 && s[2][2] == 1 && s[2][3] == 1 && s[1][2] == 0 && s[3][2] == 0
  {
    LineTurnsHorizontal();
  }
}
