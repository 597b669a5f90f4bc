/** How the maze looks: which block image each cell shows (find_block in MP2/maze.c) and the full
    picture of the maze, pixel by pixel. */
module MazeRender {
  import opened Common
  import opened MazeCells

  const BLOCK_X_DIM := 12
  const BLOCK_Y_DIM := 12

  /** Positions in the block table (MP2/blocks.h); 0 to 15 are walls by their neighbours. */
  const BLOCK_EMPTY := 16
  const BLOCK_SHADOW := 17
  const BLOCK_PLAYER_UP := 18
  const BLOCK_PLAYER_MASK_UP := 22
  const BLOCK_FRUIT_1 := 26
  const BLOCK_FRUIT_SHADOW := 33
  const BLOCK_EXIT := 34
  const NUM_BLOCKS := 35

  /** The block images of blocks.s, each 12 rows of 12 pixels. */
  ghost predicate GoodBlocks(blocks: seq<seq<byte>>) {
    |blocks| == NUM_BLOCKS && forall b | 0 <= b < |blocks| :: |blocks[b]| == BLOCK_X_DIM * BLOCK_Y_DIM
  }

  ghost function CellAt(c: seq<Cell>, i: int): Cell {
    if 0 <= i < |c| then c[i] else WALL
  }

  function WallBit(wall: bool, bit: int): int {
    if wall then bit else 0
  }

  /** find_block, as a position in the block table. */
  ghost function FindBlock(c: seq<Cell>, nFruits: int, xDim: int, x: int, y: int): int {
    var cell := CellAt(c, MazeIndex(xDim, x, y));
    if nFruits == 0 && cell.exit then BLOCK_EXIT
    else if !cell.reach then (if cell.fruit != 0 then BLOCK_FRUIT_SHADOW else BLOCK_SHADOW)
    else if cell.fruit != 0 then BLOCK_FRUIT_1 + cell.fruit - 1
    else if !cell.wall then BLOCK_EMPTY
    else
      WallBit(CellAt(c, MazeIndex(xDim, x, y - 1)).wall, 1) + WallBit(CellAt(c, MazeIndex(xDim, x + 1, y)).wall, 2)
      + WallBit(CellAt(c, MazeIndex(xDim, x, y + 1)).wall, 4) + WallBit(CellAt(c, MazeIndex(xDim, x - 1, y)).wall, 8)
  }

  /** What the picture of a cell tells: the exit once no fruit is left, mist over what was not seen, with a bump for a
      fruit, otherwise which fruit, floor, or a wall and which neighbours are walls. */
  lemma ShownIs(c: seq<Cell>, n: int, xDim: int, x: int, y: int)
    requires 0 <= MazeIndex(xDim, x, y) < |c| && 0 <= c[MazeIndex(xDim, x, y)].fruit <= 7
    requires 0 <= MazeIndex(xDim, x, y - 1) < |c| && 0 <= MazeIndex(xDim, x + 1, y) < |c|
    requires 0 <= MazeIndex(xDim, x, y + 1) < |c| && 0 <= MazeIndex(xDim, x - 1, y) < |c|
    ensures var b, cell := FindBlock(c, n, xDim, x, y), c[MazeIndex(xDim, x, y)];
            && (b == BLOCK_EXIT <==> n == 0 && cell.exit)
            && (b == BLOCK_SHADOW <==> !(n == 0 && cell.exit) && !cell.reach && cell.fruit == 0)
            && (b == BLOCK_FRUIT_SHADOW <==> !(n == 0 && cell.exit) && !cell.reach && cell.fruit != 0)
            && (BLOCK_FRUIT_1 <= b < BLOCK_FRUIT_1 + 7 <==> !(n == 0 && cell.exit) && cell.reach && cell.fruit != 0)
            && (BLOCK_FRUIT_1 <= b < BLOCK_FRUIT_1 + 7 ==> cell.fruit == b - BLOCK_FRUIT_1 + 1)
            && (b == BLOCK_EMPTY <==>
                  !(n == 0 && cell.exit) && cell.reach && cell.fruit == 0 && !cell.wall)
            && (0 <= b < 16 <==> !(n == 0 && cell.exit) && cell.reach && cell.fruit == 0 && cell.wall)
            && (0 <= b < 16 ==>
                  && (b % 2 == 1 <==> c[MazeIndex(xDim, x, y - 1)].wall)
                  && (b / 2 % 2 == 1 <==> c[MazeIndex(xDim, x + 1, y)].wall)
                  && (b / 4 % 2 == 1 <==> c[MazeIndex(xDim, x, y + 1)].wall)
                  && (b / 8 == 1 <==> c[MazeIndex(xDim, x - 1, y)].wall))
  {
    hide MazeIndex;
  }

  /** The byte at (i,j) of block b. */
  ghost function BlockPixel(blocks: seq<seq<byte>>, b: int, i: int, j: int): byte {
    if 0 <= b < |blocks| && 0 <= j * BLOCK_X_DIM + i < |blocks[b]| then blocks[b][j * BLOCK_X_DIM + i] else 0
  }

  /** Pixel (px,py) of a complete drawing of the maze. */
  ghost function Render(blocks: seq<seq<byte>>, c: seq<Cell>, nFruits: int, xDim: int, px: int, py: int): byte {
    BlockPixel(blocks, FindBlock(c, nFruits, xDim, px / BLOCK_X_DIM, py / BLOCK_Y_DIM), px % BLOCK_X_DIM,
        py % BLOCK_Y_DIM)
  }

  /** Changing one cell, but not whether it is a wall, changes the look of no other cell; changing the
      number of fruits changes only the exit, and only when it leaves or reaches 0. */
  lemma OtherBlockSame(c: seq<Cell>, i: int, v: Cell, n: int, n': int, xDim: int, x: int, y: int)
    requires 0 <= i < |c| && v.wall == c[i].wall && MazeIndex(xDim, x, y) != i
    requires n == n' || (n != 0 && n' != 0) || !CellAt(c, MazeIndex(xDim, x, y)).exit
    ensures FindBlock(c[i := v], n', xDim, x, y) == FindBlock(c, n, xDim, x, y)
  {
    var c' := c[i := v];
    assert forall k :: CellAt(c', k).wall == CellAt(c, k).wall;
    hide MazeIndex;
  }
}
