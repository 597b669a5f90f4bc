/** The maze array of MP2/maze.c: the bit vector of one cell, the flat index of a
    lattice coordinate, and which cells of the array are lattice points. */
module MazeCells {

  /** One byte of the maze array (MP2/maze.h, maze_bit_t), bit field by bit field. */
  datatype Cell = Cell(wall: bool, fruit: int, exit: bool, reach: bool)

  const NONE := Cell(false, 0, false, false)
  const WALL := Cell(true, 0, false, false)

  const MAZE_WALL: bv8 := 1
  const MAZE_FRUIT_1: bv8 := 2
  const MAZE_FRUIT: bv8 := 14
  const MAZE_EXIT: bv8 := 16
  const MAZE_REACH: bv8 := 128

  /** The byte that the game stores for a cell. */
  function Pack(c: Cell): bv8
    requires 0 <= c.fruit <= 7
  {
    (if c.wall then MAZE_WALL else 0) | (c.fruit as bv8 * MAZE_FRUIT_1)
    | (if c.exit then MAZE_EXIT else 0) | (if c.reach then MAZE_REACH else 0)
  }

  /** Every mask-and-test and mask-and-set of maze.c is the field access used in the model. */
  lemma PackedTests(c: Cell)
    requires 0 <= c.fruit <= 7
    ensures c.wall <==> Pack(c) & MAZE_WALL != 0
    ensures c.exit <==> Pack(c) & MAZE_EXIT != 0
    ensures c.reach <==> Pack(c) & MAZE_REACH != 0
    ensures (Pack(c) & MAZE_FRUIT) / MAZE_FRUIT_1 == c.fruit as bv8
    ensures Pack(c.(reach := true)) == Pack(c) | MAZE_REACH
    ensures Pack(c.(reach := false)) == Pack(c) & !MAZE_REACH
    ensures Pack(c.(exit := true)) == Pack(c) | MAZE_EXIT
    ensures Pack(c.(fruit := 0)) == Pack(c) & !MAZE_FRUIT
  {
    PackedReads(c);
    PackedMarks(c);
    PackedClears(c);
  }

  lemma PackedReads(c: Cell)
    requires 0 <= c.fruit <= 7
    ensures c.wall <==> Pack(c) & MAZE_WALL != 0
    ensures c.exit <==> Pack(c) & MAZE_EXIT != 0
    ensures c.reach <==> Pack(c) & MAZE_REACH != 0
    ensures (Pack(c) & MAZE_FRUIT) / MAZE_FRUIT_1 == c.fruit as bv8
  {
    SmallFruit(c.fruit);
    PackedBits(if c.wall then MAZE_WALL else 0, c.fruit as bv8, if c.exit then MAZE_EXIT else 0,
               if c.reach then MAZE_REACH else 0);
  }

  lemma PackedMarks(c: Cell)
    requires 0 <= c.fruit <= 7
    ensures Pack(c.(reach := true)) == Pack(c) | MAZE_REACH
    ensures Pack(c.(exit := true)) == Pack(c) | MAZE_EXIT
  {
    SmallFruit(c.fruit);
    PackedBits(if c.wall then MAZE_WALL else 0, c.fruit as bv8, if c.exit then MAZE_EXIT else 0,
               if c.reach then MAZE_REACH else 0);
  }

  lemma PackedClears(c: Cell)
    requires 0 <= c.fruit <= 7
    ensures Pack(c.(reach := false)) == Pack(c) & !MAZE_REACH
    ensures Pack(c.(fruit := 0)) == Pack(c) & !MAZE_FRUIT
  {
    SmallFruit(c.fruit);
    PackedBits(if c.wall then MAZE_WALL else 0, c.fruit as bv8, if c.exit then MAZE_EXIT else 0,
               if c.reach then MAZE_REACH else 0);
  }

  lemma SmallFruit(f: int)
    requires 0 <= f <= 7
    ensures f as bv8 < 8
  {
    assert f == 0 || f == 1 || f == 2 || f == 3 || f == 4 || f == 5 || f == 6 || f == 7;
  }

  /** The four fields do not overlap. */
  lemma PackedBits(w: bv8, f: bv8, e: bv8, r: bv8)
    requires w in {0, MAZE_WALL} && f < 8 && e in {0, MAZE_EXIT} && r in {0, MAZE_REACH}
    ensures var b := w | (f * MAZE_FRUIT_1) | e | r;
            && b & MAZE_WALL == w && b & MAZE_EXIT == e && b & MAZE_REACH == r
            && (b & MAZE_FRUIT) / MAZE_FRUIT_1 == f
            && b | MAZE_REACH == w | (f * MAZE_FRUIT_1) | e | MAZE_REACH
            && b & !MAZE_REACH == w | (f * MAZE_FRUIT_1) | e
            && b | MAZE_EXIT == w | (f * MAZE_FRUIT_1) | MAZE_EXIT | r
            && b & !MAZE_FRUIT == w | e | r
  {
  }

  /** Setting the fruit bits of a cell without a fruit. */
  lemma PackedFruit(c: Cell, f: int)
    requires c.fruit == 0 && 1 <= f <= 7
    ensures Pack(c.(fruit := f)) == Pack(c) | (f as bv8 * MAZE_FRUIT_1)
  {
    assert f == 1 || f == 2 || f == 3 || f == 4 || f == 5 || f == 6 || f == 7;
  }

  /** The comparisons with MAZE_WALL and MAZE_NONE look at the whole byte. */
  lemma PackedWhole(c: Cell)
    requires 0 <= c.fruit <= 7
    ensures Pack(c) == MAZE_WALL <==> c == WALL
    ensures Pack(c) == 0 <==> c == NONE
  {
    PackedTests(c);
  }

  /** Maze dimensions, counted in lattice points (MP2/maze.h). */
  const MAZE_MIN_X_DIM := (320 + (12 - 1) + 2 * 6) / (2 * 12)
  const MAZE_MAX_X_DIM := 50
  const MAZE_MIN_Y_DIM := (182 + (12 - 1) + 2 * 6) / (2 * 12)
  const MAZE_MAX_Y_DIM := 30
  const MAZE_SIZE := 2 * MAZE_MAX_X_DIM * (2 * MAZE_MAX_Y_DIM + 3) + 1

  predicate GoodDims(xDim: int, yDim: int) {
    MAZE_MIN_X_DIM <= xDim <= MAZE_MAX_X_DIM && MAZE_MIN_Y_DIM <= yDim <= MAZE_MAX_Y_DIM
  }

  /** Where row n of the array starts: n rows of 2 xDim cells. */
  function RowStart(xDim: int, n: int): int {
    if n <= 0 then 0 else RowStart(xDim, n - 1) + 2 * xDim
  }

  /** MAZE_INDEX(a,b): rows of 2 xDim cells, one spare row above, so that column 2 xDim
      of a row is column 0 of the row below. */
  function MazeIndex(xDim: int, a: int, b: int): int {
    a + RowStart(xDim, b + 1)
  }

  lemma {:induction false} RowStartIs(xDim: int, n: nat)
    ensures RowStart(xDim, n) == n * xDim * 2
  {
    if n > 0 {
      RowStartIs(xDim, n - 1);
    }
  }

  /** The index is the product the macro spells out. */
  lemma MazeIndexIs(xDim: int, a: int, b: int)
    requires -1 <= b
    ensures MazeIndex(xDim, a, b) == a + (b + 1) * xDim * 2
  {
    RowStartIs(xDim, b + 1);
  }

  /** The (odd,odd) points of the maze, as indices. */
  ghost function Lattice(xDim: int, yDim: int): set<int> {
    set x, y | 0 <= x < 2 * xDim && 0 <= y < 2 * yDim && x % 2 == 1 && y % 2 == 1 :: MazeIndex(xDim, x, y)
  }

  lemma LatticePoint(xDim: int, yDim: int, i: int) returns (x: int, y: int)
    requires i in Lattice(xDim, yDim)
    ensures 0 < x < 2 * xDim && 0 < y < 2 * yDim && x % 2 == 1 && y % 2 == 1 && i == MazeIndex(xDim, x, y)
  {
    hide MazeIndex;
    x, y :| 0 <= x < 2 * xDim && 0 <= y < 2 * yDim && x % 2 == 1 && y % 2 == 1 && i == MazeIndex(xDim, x, y);
  }

  lemma MulLe(a: int, b: int, k: int)
    requires a <= b && 0 <= k
    ensures a * k <= b * k
  {
  }

  lemma {:induction false} RowBound(xDim: int, n: nat)
    requires 0 <= xDim <= MAZE_MAX_X_DIM
    ensures 0 <= RowStart(xDim, n) <= 2 * MAZE_MAX_X_DIM * n
    ensures 0 < n ==> 2 * xDim <= RowStart(xDim, n)
  {
    if n > 0 {
      RowBound(xDim, n - 1);
    }
  }

  lemma {:induction false} RowOrder(xDim: int, m: nat, n: nat)
    requires m < n && 0 <= xDim
    ensures RowStart(xDim, m) + 2 * xDim <= RowStart(xDim, n)
    ensures m + 1 < n ==> RowStart(xDim, m) + 4 * xDim <= RowStart(xDim, n)
    decreases n
  {
    if m + 1 < n {
      RowOrder(xDim, m, n - 1);
    }
  }

  /** The maze with the spare rows, and one cell beyond, fits the array. */
  lemma IndexInArray(xDim: int, yDim: int, x: int, y: int)
    requires 0 < xDim <= MAZE_MAX_X_DIM && 0 < yDim <= MAZE_MAX_Y_DIM
    requires 0 <= x <= 2 * xDim && -1 <= y <= 2 * yDim + 1
    ensures 0 <= MazeIndex(xDim, x, y) < MAZE_SIZE
    ensures -1 < y ==> 0 <= MazeIndex(xDim, x - 1, y)
    ensures y <= 2 * yDim ==> MazeIndex(xDim, x + 1, y) < MAZE_SIZE
  {
    RowBound(xDim, y + 1);
  }

  /** Stepping along a row and along a column of the array. */
  lemma IndexSteps(xDim: int, x: int, y: int)
    requires 1 <= y
    ensures MazeIndex(xDim, x + 1, y) == MazeIndex(xDim, x, y) + 1
    ensures MazeIndex(xDim, x + 2, y) == MazeIndex(xDim, x, y) + 2
    ensures MazeIndex(xDim, x - 1, y) == MazeIndex(xDim, x, y) - 1
    ensures MazeIndex(xDim, x - 2, y) == MazeIndex(xDim, x, y) - 2
    ensures MazeIndex(xDim, x, y + 1) == MazeIndex(xDim, x, y) + 2 * xDim
    ensures MazeIndex(xDim, x, y + 2) == MazeIndex(xDim, x, y) + 4 * xDim
    ensures MazeIndex(xDim, x, y - 1) == MazeIndex(xDim, x, y) - 2 * xDim
    ensures MazeIndex(xDim, x, y - 2) == MazeIndex(xDim, x, y) - 4 * xDim
  {
    assert RowStart(xDim, y + 2) == RowStart(xDim, y + 1) + 2 * xDim;
    assert RowStart(xDim, y + 1) == RowStart(xDim, y) + 2 * xDim;
  }

  /** Two coordinates share a cell only on the unified left and right boundary. */
  lemma IndexAlias(xDim: int, x: int, y: int, x': int, y': int)
    requires 0 < xDim && 0 <= x <= 2 * xDim && 0 <= x' <= 2 * xDim && -1 <= y && -1 <= y'
    ensures MazeIndex(xDim, x, y) == MazeIndex(xDim, x', y') <==>
            || (x == x' && y == y')
            || (x == 0 && x' == 2 * xDim && y == y' + 1)
            || (x == 2 * xDim && x' == 0 && y' == y + 1)
  {
    if y < y' {
      RowOrder(xDim, y + 1, y' + 1);
    } else if y' < y {
      RowOrder(xDim, y' + 1, y + 1);
    }
  }

  lemma InLattice(xDim: int, yDim: int, x: int, y: int)
    requires 0 < xDim && 0 <= x <= 2 * xDim && 0 <= y <= 2 * yDim
    ensures MazeIndex(xDim, x, y) in Lattice(xDim, yDim) <==> x % 2 == 1 && y % 2 == 1
  {
    var L := Lattice(xDim, yDim);
    if MazeIndex(xDim, x, y) in L {
      var x', y' :| 0 <= x' < 2 * xDim && 0 <= y' < 2 * yDim && x' % 2 == 1 && y' % 2 == 1
                    && MazeIndex(xDim, x', y') == MazeIndex(xDim, x, y);
      IndexAlias(xDim, x, y, x', y');
    }
  }

  /** The cells between two lattice points of a row, and of a column. */
  ghost function RowEdges(xDim: int, yDim: int): set<int> {
    set x, y | 0 < x < 2 * xDim && 0 < y < 2 * yDim && x % 2 == 0 && y % 2 == 1 :: MazeIndex(xDim, x, y)
  }

  ghost function ColumnEdges(xDim: int, yDim: int): set<int> {
    set x, y | 0 < x < 2 * xDim && 0 < y < 2 * yDim && x % 2 == 1 && y % 2 == 0 :: MazeIndex(xDim, x, y)
  }

  lemma InRowEdges(xDim: int, yDim: int, x: int, y: int)
    requires 0 < xDim && 0 <= x <= 2 * xDim && 0 <= y <= 2 * yDim
    ensures MazeIndex(xDim, x, y) in RowEdges(xDim, yDim) <==> 0 < x < 2 * xDim && x % 2 == 0 && y % 2 == 1
  {
    var E := RowEdges(xDim, yDim);
    if MazeIndex(xDim, x, y) in E {
      var x', y' :| 0 < x' < 2 * xDim && 0 < y' < 2 * yDim && x' % 2 == 0 && y' % 2 == 1
                    && MazeIndex(xDim, x', y') == MazeIndex(xDim, x, y);
      IndexAlias(xDim, x, y, x', y');
    }
  }

  lemma InColumnEdges(xDim: int, yDim: int, x: int, y: int)
    requires 0 < xDim && 0 <= x <= 2 * xDim && 0 <= y <= 2 * yDim
    ensures MazeIndex(xDim, x, y) in ColumnEdges(xDim, yDim) <==> x % 2 == 1 && y % 2 == 0 && 0 < y < 2 * yDim
  {
    var E := ColumnEdges(xDim, yDim);
    if MazeIndex(xDim, x, y) in E {
      var x', y' :| 0 < x' < 2 * xDim && 0 < y' < 2 * yDim && x' % 2 == 1 && y' % 2 == 0
                    && MazeIndex(xDim, x', y') == MazeIndex(xDim, x, y);
      IndexAlias(xDim, x, y, x', y');
    }
  }

  ghost function LatticeRow(xDim: int, y: int, n: int): set<int> {
    set x | 0 <= x < 2 * n && x % 2 == 1 :: MazeIndex(xDim, x, y)
  }

  lemma LatticeRowMore(xDim: int, y: int, n: int)
    requires 0 < n
    ensures LatticeRow(xDim, y, n) == LatticeRow(xDim, y, n - 1) + {MazeIndex(xDim, 2 * n - 1, y)}
    ensures MazeIndex(xDim, 2 * n - 1, y) !in LatticeRow(xDim, y, n - 1)
    ensures LatticeRow(xDim, y, 0) == {}
  {
  }

  lemma {:induction false} LatticeRowSize(xDim: int, y: int, n: nat)
    ensures |LatticeRow(xDim, y, n)| == n
  {
    hide LatticeRow, MazeIndex;
    LatticeRowMore(xDim, y, if n == 0 then 1 else n);
    if n > 0 {
      LatticeRowSize(xDim, y, n - 1);
    }
  }

  lemma LatticeTopRow(xDim: int, yDim: int, x: int)
    requires 0 < xDim && 0 <= yDim && 0 <= x < 2 * xDim
    ensures MazeIndex(xDim, x, 2 * yDim + 1) !in Lattice(xDim, yDim)
  {
    forall x', y' | 0 <= x' < 2 * xDim && 0 <= y' < 2 * yDim
      ensures MazeIndex(xDim, x', y') != MazeIndex(xDim, x, 2 * yDim + 1)
    {
      if MazeIndex(xDim, x', y') == MazeIndex(xDim, x, 2 * yDim + 1) {
        IndexAlias(xDim, x, 2 * yDim + 1, x', y');
      }
    }
  }

  lemma LatticeSplit(xDim: int, yDim: int)
    requires 0 < xDim && 0 < yDim
    ensures Lattice(xDim, yDim) == Lattice(xDim, yDim - 1) + LatticeRow(xDim, 2 * yDim - 1, xDim)
    ensures Lattice(xDim, yDim - 1) !! LatticeRow(xDim, 2 * yDim - 1, xDim)
    ensures Lattice(xDim, 0) == {}
  {
    var row := LatticeRow(xDim, 2 * yDim - 1, xDim);
    forall i | i in row ensures i !in Lattice(xDim, yDim - 1) {
      var x :| 0 <= x < 2 * xDim && MazeIndex(xDim, x, 2 * yDim - 1) == i;
      LatticeTopRow(xDim, yDim - 1, x);
    }
  }

  /** The lattice has xDim * yDim points. */
  lemma {:induction false} LatticeSize(xDim: nat, yDim: nat)
    requires 0 < xDim
    ensures |Lattice(xDim, yDim)| == xDim * yDim
  {
    hide Lattice, LatticeRow;
    LatticeSplit(xDim, if yDim == 0 then 1 else yDim);
    if yDim > 0 {
      LatticeSize(xDim, yDim - 1);
      LatticeRowSize(xDim, 2 * yDim - 1, xDim);
      assert xDim * yDim == xDim * (yDim - 1) + xDim;
    }
  }

  /** The boundary of the maze is wall: what keeps searches and the player inside. */
  ghost predicate Bordered(c: seq<Cell>, xDim: int, yDim: int) {
    && |c| == MAZE_SIZE && GoodDims(xDim, yDim)
    && (forall x, y | 0 <= x <= 2 * xDim && 0 <= y <= 2 * yDim
        && (x == 0 || x == 2 * xDim || y == 0 || y == 2 * yDim) ::
          0 <= MazeIndex(xDim, x, y) < MAZE_SIZE && c[MazeIndex(xDim, x, y)].wall)
  }
}
