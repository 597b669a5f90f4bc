/** MP2/mazegame.c: the player, the panning window and the picture of the maze they keep up to date. */
module MazeGame {
  import opened Common
  import opened MazeCells
  import opened MazeGraph
  import opened MazeDig
  import opened MazePlay
  import opened MazePlayer
  import opened MazeRender
  import opened MazeModel
  import opened ModeXAddress
  import opened ModeX
  import opened MazeScene
  import opened MazeSupply

  /** The text of a fruit (fruit_text_to_graph): 16 rows of 104 flags, and how many letters are used. */
  datatype FruitText = FruitText(pixels: seq<byte>, length: int)

  /** What a round is given: the direction requested at each of its ticks, and the fruit text of its frame, if any. */
  datatype Input = Input(keys: seq<int>, text: Option<FruitText>)

  ghost predicate GoodInput(i: Input) {
    && (forall k | 0 <= k < |i.keys| :: 0 <= i.keys[k] <= DIR_STOP)
    && (i.text.Some? ==> |i.text.value.pixels| == TEXT_X_DIM * TEXT_Y_DIM)
  }

  ghost predicate GoodInputs(inputs: seq<Input>) {
    forall i | i in inputs :: GoodInput(i)
  }

  const MAX_LEVEL := 10

  /** The requests of the rounds. */
  function Keys(inputs: seq<Input>): (r: seq<seq<int>>)
    ensures |r| == |inputs|
  {
    seq(|inputs|, i requires 0 <= i < |inputs| => inputs[i].keys)
  }

  /** The values suffice for the maze of a level. */
  ghost predicate LevelSuffices(tape: seq<nat>, level: int)
    requires 1 <= level
  {
    Suffices(tape, LevelX(level), LevelY(level), LevelFruits(level))
  }

  /** The levels start with these scenes, each on a maze that its values sufficed for. */
  ghost predicate AllBegun(starts: seq<Scene>, tapes: seq<seq<nat>>)
    requires |starts| <= |tapes|
  {
    forall l | 0 <= l < |starts| :: Entered(starts[l], l + 1) && LevelSuffices(tapes[l], l + 1)
  }

  /** Every one of these levels is won. */
  ghost predicate AllWon(starts: seq<Scene>, inputs: seq<seq<Input>>)
    requires |starts| <= |inputs|
  {
    forall l | 0 <= l < |starts| :: AfterRounds(starts[l], Keys(inputs[l])).1
  }

  lemma NoneBegun(tapes: seq<seq<nat>>, inputs: seq<seq<Input>>)
    ensures AllBegun([], tapes) && AllWon([], inputs)
  {
  }

  lemma OneMoreBegun(starts: seq<Scene>, start: Scene, tapes: seq<seq<nat>>, inputs: seq<seq<Input>>)
    requires |starts| < |tapes| == |inputs| && AllBegun(starts, tapes) && AllWon(starts, inputs)
    requires Entered(start, |starts| + 1) && LevelSuffices(tapes[|starts|], |starts| + 1)
    ensures var more := starts + [start];
            && more[..|starts|] == starts && more[|starts|] == start && AllBegun(more, tapes)
            && (AfterRounds(start, Keys(inputs[|starts|])).1 ==> AllWon(more, inputs))
  {
    hide Entered, LevelSuffices, AfterRounds, Keys;
  }

  class Game {
    const maze: Maze
    const view: View
    const backgroundBuf: array<byte>
    const fruitFloorBuffer: array<byte>
    var mapX: int
    var mapY: int
    var playX: int
    var playY: int
    var dir: int
    var lastDir: int
    var nextDir: int
    var moveCnt: int

    /** The arrays have their sizes and are different arrays. */
    ghost predicate Shape()
      reads view`showX, view`showY, view`img3Off
    {
      && view.Valid() && maze.cells.Length == MAZE_SIZE && GoodBlocks(maze.blocks)
      && backgroundBuf.Length == BLOCK_X_DIM * BLOCK_Y_DIM && fruitFloorBuffer.Length == TEXT_X_DIM * TEXT_Y_DIM
      && view.build != backgroundBuf && view.build != fruitFloorBuffer && backgroundBuf != fruitFloorBuffer
    }

    constructor (blocks: seq<seq<byte>>, fence: nat)
      requires GoodBlocks(blocks)
      ensures Shape() && view.Fenced() && view.Paged()
      ensures fresh(view) && fresh(view.build) && fresh(view.vram) && fresh(maze) && fresh(maze.cells)
      ensures fresh(backgroundBuf) && fresh(fruitFloorBuffer)
    {
      maze := new Maze(blocks);
      view := new View(fence);
      backgroundBuf := new byte[BLOCK_X_DIM * BLOCK_Y_DIM];
      fruitFloorBuffer := new byte[TEXT_X_DIM * TEXT_Y_DIM];
      mapX, mapY, playX, playY := SHOW_MIN, SHOW_MIN, BLOCK_X_DIM, BLOCK_Y_DIM;
      dir, lastDir, nextDir, moveCnt := DIR_STOP, DIR_UP, DIR_STOP, 0;
    }

    /** The last window position that shows no more than the maze's outer half blocks. */
    ghost function LastMapX(): int
      reads maze`xDim
    {
      LastX(maze.xDim)
    }

    ghost function LastMapY(): int
      reads maze`yDim
    {
      LastY(maze.yDim)
    }

    /** The view is the game's window, and the window is on the maze. */
    ghost predicate Windowed()
      reads this`mapX, this`mapY, maze`xDim, maze`yDim, view`showX, view`showY
    {
      && view.showX == mapX && view.showY == mapY
      && SHOW_MIN <= mapX <= LastMapX() && SHOW_MIN <= mapY <= LastMapY()
    }

    /** The picture in the build buffer is a complete drawing of what the window shows. */
    ghost predicate Cached()
      reads view`showX, view`showY, view`img3Off, view.build, maze, maze.cells
    {
      forall x, y | view.OnView(x, y) :: view.Pix(x, y) == maze.Rendered(x, y)
    }

    /** The player is five blocks inside the window, except where the window is at its end. */
    ghost predicate Near()
      reads this`mapX, this`mapY, this`playX, this`playY, maze`xDim, maze`yDim
    {
      && (mapX == SHOW_MIN || mapX + BLOCK_X_DIM * PAN_BORDER <= playX)
      && (mapX == LastMapX() || playX <= mapX + SCROLL_X_DIM - BLOCK_X_DIM * (PAN_BORDER + 1))
      && (mapY == SHOW_MIN || mapY + BLOCK_Y_DIM * PAN_BORDER <= playY)
      && (mapY == LastMapY() || playY <= mapY + SCROLL_Y_DIM - BLOCK_Y_DIM * (PAN_BORDER + 1))
    }

    ghost predicate InMaze()
      reads maze, maze.cells
    {
      Playable(maze.cells[..], maze.xDim, maze.yDim, maze.nFruits, maze.exitX, maze.exitY)
    }

    /** The picture is right, on a proper maze. */
    ghost predicate Pictured()
      reads this`mapX, this`mapY, view`showX, view`showY, view`img3Off, view.build, maze, maze.cells
    {
      Shape() && maze.Drawable() && Windowed() && Cached() && view.Fenced()
    }

    /** The window after the player has moved to (playX,playY). */
    ghost predicate Followed(fromX: int, fromY: int)
      reads this`mapX, this`mapY, this`playX, this`playY, maze`xDim, maze`yDim
    {
      mapX == FollowX(fromX, playX, maze.xDim) && mapY == FollowY(fromY, playY, maze.yDim)
    }

    /** All of the game but its picture. */
    ghost function Stage(): Scene
      reads this`mapX, this`mapY, this`playX, this`playY, this`dir, this`moveCnt, this`lastDir, this`nextDir
      reads maze`xDim, maze`yDim, maze`exitX, maze`exitY, maze.cells
    {
      Scene(maze.cells[..], maze.xDim, maze.yDim, maze.exitX, maze.exitY, mapX, mapY, playX, playY,
            Motion(dir, moveCnt), lastDir, nextDir)
    }

    /** A window that is near enough stays. */
    lemma StaysPut()
      requires Near() && Windowed()
      ensures Followed(mapX, mapY)
    {
    }

    /** Pan the window to a position that differs by one column. */
    method PanX(newX: int, line: int)
      requires Pictured() && SHOW_MIN <= newX <= LastMapX()
      requires (newX == mapX + 1 && line == SCROLL_X_DIM - 1) || (newX == mapX - 1 && line == 0)
      modifies this`mapX, view`showX, view`showY, view`img3Off, view.build
      ensures Pictured() && mapX == newX
    {
      hide Fits;
      mapX := newX;
      view.SetViewWindow(mapX, mapY);
      label Moved:
      var r := view.DrawVertLine(line, maze);
      view.FencesKept@Moved();
      forall x, y | view.OnView(x, y) ensures view.Pix(x, y) == maze.Rendered(x, y) {
        if x != view.showX + line {
          assert old(view.OnView(x, y));
          assert old(view.Pix(x, y)) == old(maze.Rendered(x, y));
        }
      }
    }

    /** ... or by one row. */
    method PanY(newY: int, line: int)
      requires Pictured() && SHOW_MIN <= newY <= LastMapY()
      requires (newY == mapY + 1 && line == SCROLL_Y_DIM - 1) || (newY == mapY - 1 && line == 0)
      modifies this`mapY, view`showX, view`showY, view`img3Off, view.build
      ensures Pictured() && mapY == newY
    {
      hide Fits;
      mapY := newY;
      view.SetViewWindow(mapX, mapY);
      label Moved:
      var r := view.DrawHorizLine(line, maze);
      view.FencesKept@Moved();
      forall x, y | view.OnView(x, y) ensures view.Pix(x, y) == maze.Rendered(x, y) {
        if y != view.showY + line {
          assert old(view.OnView(x, y));
          assert old(view.Pix(x, y)) == old(maze.Rendered(x, y));
        }
      }
    }

    method MoveUp()
      requires Pictured() && Near()
      modifies this`playY, this`mapY, view`showX, view`showY, view`img3Off, view.build
      ensures Pictured() && Near() && playY == old(playY) - 1 && Followed(old(mapX), old(mapY))
    {
      hide Cached, Shape, View.Fenced;
      playY := playY - 1;
      if playY < mapY + BLOCK_Y_DIM * PAN_BORDER && mapY > SHOW_MIN {
        PanY(mapY - 1, 0);
      }
    }

    method MoveRight()
      requires Pictured() && Near()
      modifies this`playX, this`mapX, view`showX, view`showY, view`img3Off, view.build
      ensures Pictured() && Near() && playX == old(playX) + 1 && Followed(old(mapX), old(mapY))
    {
      hide Cached, Shape, View.Fenced;
      playX := playX + 1;
      if playX > mapX + SCROLL_X_DIM - BLOCK_X_DIM * (PAN_BORDER + 1)
          && mapX + SCROLL_X_DIM < (2 * maze.xDim + 1) * BLOCK_X_DIM - SHOW_MIN {
        PanX(mapX + 1, SCROLL_X_DIM - 1);
      }
    }

    method MoveDown()
      requires Pictured() && Near()
      modifies this`playY, this`mapY, view`showX, view`showY, view`img3Off, view.build
      ensures Pictured() && Near() && playY == old(playY) + 1 && Followed(old(mapX), old(mapY))
    {
      hide Cached, Shape, View.Fenced;
      playY := playY + 1;
      if playY > mapY + SCROLL_Y_DIM - BLOCK_Y_DIM * (PAN_BORDER + 1)
          && mapY + SCROLL_Y_DIM < (2 * maze.yDim + 1) * BLOCK_Y_DIM - SHOW_MIN {
        PanY(mapY + 1, SCROLL_Y_DIM - 1);
      }
    }

    method MoveLeft()
      requires Pictured() && Near()
      modifies this`playX, this`mapX, view`showX, view`showY, view`img3Off, view.build
      ensures Pictured() && Near() && playX == old(playX) - 1 && Followed(old(mapX), old(mapY))
    {
      hide Cached, Shape, View.Fenced;
      playX := playX - 1;
      if playX < mapX + BLOCK_X_DIM * PAN_BORDER && mapX > SHOW_MIN {
        PanX(mapX - 1, 0);
      }
    }

    /** draw_full_block of the image find_block gives: the block of cell (x,y) becomes what it should be. */
    method Redraw(x: int, y: int)
      requires Shape() && maze.Drawable() && view.Fenced() && 0 <= x <= 2 * maze.xDim && 0 <= y <= 2 * maze.yDim
      modifies view.build
      ensures view.Fenced()
      ensures forall px, py | view.OnView(px, py) ::
                view.Pix(px, py) == if px / BLOCK_X_DIM == x && py / BLOCK_Y_DIM == y then maze.Rendered(px, py)
                                    else old(view.Pix(px, py))
    {
      hide FindBlock, Fits;
      var b := maze.BlockAt(x, y);
      view.DrawFullBlock(x * BLOCK_X_DIM, y * BLOCK_Y_DIM, maze.blocks[b]);
      view.FencesKept();
      forall px, py | view.OnView(px, py) && px / BLOCK_X_DIM == x && py / BLOCK_Y_DIM == y
        ensures view.Pix(px, py) == maze.Rendered(px, py)
      {
        assert px % BLOCK_X_DIM == px - x * BLOCK_X_DIM && py % BLOCK_Y_DIM == py - y * BLOCK_Y_DIM;
      }
    }

    /** unveil_space: the cell is seen from now on, and drawn as seen. Column 0 and column 2 xDim are the
        same cells a row apart, so this keeps the picture only while the other column is off the window. */
    method UnveilSpace(x: int, y: int)
      requires Pictured() && InMaze()
      requires x == 0 ==> mapX + SCROLL_X_DIM <= 2 * maze.xDim * BLOCK_X_DIM
      requires x == 2 * maze.xDim ==> BLOCK_X_DIM <= mapX
      modifies maze.cells, view.build
      ensures Pictured() && InMaze()
      ensures maze.cells[..] == Unveiled(old(maze.cells[..]), maze.xDim, maze.yDim, x, y)
      ensures Grows(old(maze.cells[..]), maze.cells[..]) && Seen(maze.cells[..], maze.xDim, maze.yDim, x, y)
    {
      hide Playable, Render, MazeIndex, Shape, Grows, Seen, View.Fenced;
      UnveiledPlayable(maze.cells[..], maze.xDim, maze.yDim, x, y, maze.nFruits, maze.exitX, maze.exitY);
      if x < 0 || x > 2 * maze.xDim || y < 0 || y > 2 * maze.yDim {
        return;
      }
      IndexInArray(maze.xDim, maze.yDim, x, y);
      var i := MazeIndex(maze.xDim, x, y);
      if maze.cells[i].reach {
        assert maze.cells[..][i := maze.cells[i].(reach := true)] == maze.cells[..];
        return;
      }
      ghost var c, v := maze.cells[..], maze.cells[i].(reach := true);
      maze.cells[i] := maze.cells[i].(reach := true);
      assert maze.cells[..] == c[i := v];
      Redraw(x, y);
      forall px, py | view.OnView(px, py) ensures view.Pix(px, py) == maze.Rendered(px, py) {
        var cx, cy := px / BLOCK_X_DIM, py / BLOCK_Y_DIM;
        if cx != x || cy != y {
          assert old(view.OnView(px, py)) && old(view.Pix(px, py)) == old(maze.Rendered(px, py));
          UnveiledElsewhere(maze.blocks, c, maze.xDim, i, x, y, px, py, maze.nFruits);
        }
      }
    }

    /** The exit, if it just appeared, and the cell without its fruit. */
    method RedrawEaten(x: int, y: int)
      requires Shape() && maze.Drawable() && view.Fenced() && 0 <= x <= 2 * maze.xDim && 0 <= y <= 2 * maze.yDim
      requires IsLatticePoint(maze.xDim, maze.yDim, maze.exitX, maze.exitY)
      modifies view.build
      ensures view.Fenced()
      ensures forall px, py | view.OnView(px, py) ::
                var cx, cy := px / BLOCK_X_DIM, py / BLOCK_Y_DIM;
                view.Pix(px, py) == if (cx == x && cy == y)
                    || (maze.nFruits == 0 && cx == maze.exitX && cy == maze.exitY)
                                    then maze.Rendered(px, py) else old(view.Pix(px, py))
    {
      if maze.nFruits == 0 {
        Redraw(maze.exitX, maze.exitY);
      }
      Redraw(x, y);
    }

    /** The fruit at cell (x,y) is eaten and the cell redrawn; eating the last one makes the exit appear. */
    method EatFruit(x: int, y: int)
      requires Pictured() && InMaze() && 0 <= x < 2 * maze.xDim && 0 <= y < 2 * maze.yDim
      requires 0 <= MazeIndex(maze.xDim, x, y) < MAZE_SIZE && maze.cells[MazeIndex(maze.xDim, x, y)].fruit != 0
      modifies maze.cells, maze`nFruits, view.build
      ensures Pictured() && InMaze() && maze.nFruits == old(maze.nFruits) - 1
      ensures Grows(old(maze.cells[..]), maze.cells[..])
      ensures var i := MazeIndex(maze.xDim, x, y);
              maze.cells[..] == old(maze.cells[..])[i := old(maze.cells[i]).(fruit := 0)]
    {
      hide Playable, Render, MazeIndex, Fits, Grows, IsLatticePoint;
      ghost var c, i, n := maze.cells[..], MazeIndex(maze.xDim, x, y), maze.nFruits;
      TakeFruit(x, y);
      RedrawEaten(x, y);
      forall px, py | view.OnView(px, py) ensures view.Pix(px, py) == maze.Rendered(px, py) {
        var cx, cy := px / BLOCK_X_DIM, py / BLOCK_Y_DIM;
        if (cx != x || cy != y) && !(maze.nFruits == 0 && cx == maze.exitX && cy == maze.exitY) {
          assert old(view.OnView(px, py)) && old(view.Pix(px, py)) == old(maze.Rendered(px, py));
          EatenElsewhere(maze.blocks, c, maze.xDim, maze.yDim, i, x, y, px, py, n, maze.exitX, maze.exitY);
        }
      }
    }

    /** The fruit at cell (x,y) leaves the maze and the count. */
    method TakeFruit(x: int, y: int)
      requires maze.Drawable() && InMaze() && 0 <= x < 2 * maze.xDim && 0 <= y < 2 * maze.yDim
      requires 0 <= MazeIndex(maze.xDim, x, y) < MAZE_SIZE && maze.cells[MazeIndex(maze.xDim, x, y)].fruit != 0
      modifies maze.cells, maze`nFruits
      ensures maze.Drawable() && InMaze() && maze.nFruits == old(maze.nFruits) - 1
      ensures IsLatticePoint(maze.xDim, maze.yDim, maze.exitX, maze.exitY) && Grows(old(maze.cells[..]), maze.cells[..])
      ensures var i := MazeIndex(maze.xDim, x, y);
              maze.cells[..] == old(maze.cells[..])[i := old(maze.cells[i]).(fruit := 0)]
    {
      var i := MazeIndex(maze.xDim, x, y);
      hide Playable, MazeIndex, Grows, IsLatticePoint;
      ghost var c := maze.cells[..];
      PlayableFacts(c, maze.xDim, maze.yDim, maze.nFruits, maze.exitX, maze.exitY);
      EatenPlayable(c, maze.xDim, maze.yDim, i, maze.nFruits, maze.exitX, maze.exitY);
      maze.cells[i] := maze.cells[i].(fruit := 0);
      assert maze.cells[..] == c[i := c[i].(fruit := 0)];
      maze.nFruits := maze.nFruits - 1;
    }

    /** check_for_fruit: eats the fruit of cell (x,y), if there is one, and says which. */
    method CheckForFruit(x: int, y: int) returns (fnum: int)
      requires Pictured() && InMaze()
      modifies maze.cells, maze`nFruits, view.build
      ensures Pictured() && InMaze() && Grows(old(maze.cells[..]), maze.cells[..])
      ensures fnum == if 0 <= x < 2 * maze.xDim && 0 <= y < 2 * maze.yDim
              then CellAt(old(maze.cells[..]), MazeIndex(maze.xDim, x, y)).fruit
                      else 0
      ensures maze.nFruits == old(maze.nFruits) - if fnum == 0 then 0 else 1
      ensures fnum == 0 ==> maze.cells[..] == old(maze.cells[..])
      ensures fnum != 0 ==> 0 <= MazeIndex(maze.xDim, x, y) < maze.cells.Length
      ensures fnum != 0 ==>
                var i := MazeIndex(maze.xDim, x, y);
                maze.cells[..] == old(maze.cells[..])[i := old(maze.cells[i]).(fruit := 0)]
    {
      if x < 0 || x >= 2 * maze.xDim || y < 0 || y >= 2 * maze.yDim {
        return 0;
      }
      hide Playable, MazeIndex;
      IndexInArray(maze.xDim, maze.yDim, x, y);
      fnum := maze.cells[MazeIndex(maze.xDim, x, y)].fruit;
      if fnum != 0 {
        EatFruit(x, y);
      }
    }

    /** check_for_win: no fruit is left and the cell is the exit. */
    method CheckForWin(x: int, y: int) returns (won: bool)
      requires InMaze() && maze.Drawable()
      ensures won <==> maze.nFruits == 0 && x == maze.exitX && y == maze.exitY
    {
      PlayableFacts(maze.cells[..], maze.xDim, maze.yDim, maze.nFruits, maze.exitX, maze.exitY);
      hide Playable, MazeIndex;
      if x < 0 || x >= 2 * maze.xDim || y < 0 || y >= 2 * maze.yDim {
        return false;
      }
      IndexInArray(maze.xDim, maze.yDim, x, y);
      won := maze.nFruits == 0 && maze.cells[MazeIndex(maze.xDim, x, y)].exit;
      if won {
        IndexAlias(maze.xDim, x, y, maze.exitX, maze.exitY);
      }
    }

    /** find_open_directions, from a cell inside the boundary. */
    method FindOpenDirections(x: int, y: int) returns (op: seq<bool>)
      requires maze.Drawable() && 0 < x < 2 * maze.xDim && 0 < y < 2 * maze.yDim
      ensures |op| == 4
      ensures forall d | 0 <= d < 4 ::
              op[d] == Passage(maze.cells[..], MazeIndex(maze.xDim, x + StepX(d), y + StepY(d)))
    {
      IndexInArray(maze.xDim, maze.yDim, x, y - 1);
      IndexInArray(maze.xDim, maze.yDim, x + 1, y);
      IndexInArray(maze.xDim, maze.yDim, x, y + 1);
      IndexInArray(maze.xDim, maze.yDim, x - 1, y);
      op := [ !maze.cells[MazeIndex(maze.xDim, x, y - 1)].wall,
              !maze.cells[MazeIndex(maze.xDim, x + 1, y)].wall,
              !maze.cells[MazeIndex(maze.xDim, x, y + 1)].wall,
              !maze.cells[MazeIndex(maze.xDim, x - 1, y)].wall ];
    }

    /** The player stands on a cell inside the boundary. */
    ghost predicate Standing()
      reads this`playX, this`playY, maze`xDim, maze`yDim
    {
      && playX % BLOCK == 0 && playY % BLOCK == 0
      && BLOCK <= playX <= BLOCK * (2 * maze.xDim - 1) && BLOCK <= playY <= BLOCK * (2 * maze.yDim - 1)
    }

    /** Unveil the nine cells around the player. */
    method UnveilSquare(x: int, y: int)
      requires Pictured() && InMaze() && Near() && Standing() && x == playX / BLOCK_X_DIM && y == playY / BLOCK_Y_DIM
      modifies maze.cells, view.build
      ensures Pictured() && InMaze() && Grows(old(maze.cells[..]), maze.cells[..])
      ensures maze.cells[..] == UnveiledAll(old(maze.cells[..]), maze.xDim, maze.yDim, Square(x, y))
    {
      hide Pictured, InMaze, Near, Standing, Unveiled, UnveiledAll, Square, Grows;
      NoneUnveiled(maze.cells[..], maze.xDim, maze.yDim, x, y);
      ghost var c := maze.cells[..];
      GrowsSelf(c);
      ghost var ps := Square(x, y);
      var i := -1;
      while i < 2
        invariant -1 <= i <= 2 && Pictured() && InMaze() && Grows(c, maze.cells[..])
        invariant maze.cells[..] == UnveiledAll(c, maze.xDim, maze.yDim, ps[..3 * (i + 1)])
      {
        var j := -1;
        while j < 2
          invariant -1 <= j <= 2 && Pictured() && InMaze() && Grows(c, maze.cells[..])
          invariant maze.cells[..] == UnveiledAll(c, maze.xDim, maze.yDim, ps[..3 * (i + 1) + (j + 1)])
        {
          SquareStep(c, maze.xDim, maze.yDim, x, y, i, j);
          UnveilMore(c, x + i, y + j);
          j := j + 1;
        }
        i := i + 1;
      }
      assert ps[..9] == ps;
    }

    lemma NoneUnveiled(d: seq<Cell>, xDim: int, yDim: int, x: int, y: int)
      ensures UnveiledAll(d, xDim, yDim, Square(x, y)[..0]) == d && |Square(x, y)| == 9
    {
    }

    /** The square is gone through column by column. */
    lemma SquareStep(d: seq<Cell>, xDim: int, yDim: int, x: int, y: int, i: int, j: int)
      requires -1 <= i <= 1 && -1 <= j <= 1
      ensures var n := 3 * (i + 1) + (j + 1);
              UnveiledAll(d, xDim, yDim, Square(x, y)[..n + 1])
              == Unveiled(UnveiledAll(d, xDim, yDim, Square(x, y)[..n]), xDim, yDim, x + i, y + j)
    {
      hide Unveiled, UnveiledAll;
      var ps, n := Square(x, y), 3 * (i + 1) + (j + 1);
      assert ps[n] == (x + i, y + j) && ps[..n + 1] == ps[..n] + [ps[n]];
      OneMore(d, xDim, yDim, ps[..n], ps[n]);
    }

    /** Unveil one more cell near the player. */
    method UnveilMore(ghost c: seq<Cell>, x: int, y: int)
      requires Pictured() && InMaze() && Near() && Standing() && Grows(c, maze.cells[..])
      requires playX / BLOCK_X_DIM - 2 <= x <= playX / BLOCK_X_DIM + 2
      modifies maze.cells, view.build
      ensures Pictured() && InMaze() && Grows(c, maze.cells[..])
      ensures maze.cells[..] == Unveiled(old(maze.cells[..]), maze.xDim, maze.yDim, x, y)
    {
      EdgeOffView(x);
      hide Pictured, InMaze, Near, Standing, Unveiled, Grows, Seen;
      ghost var before := maze.cells[..];
      UnveilSpace(x, y);
      GrowsOn(c, before, maze.cells[..]);
    }

    /** A cell near the player is on the boundary only while the other side of the boundary is off the window. */
    lemma EdgeOffView(x: int)
      requires Windowed() && Near() && Standing() && maze.Drawable()
      requires playX / BLOCK_X_DIM - 2 <= x <= playX / BLOCK_X_DIM + 2
      ensures x == 0 ==> mapX + SCROLL_X_DIM <= 2 * maze.xDim * BLOCK_X_DIM
      ensures x == 2 * maze.xDim ==> BLOCK_X_DIM <= mapX
    {
    }

    /** unveil_around_player: eat what is here, see everything within two steps, and check for the exit. */
    method UnveilAroundPlayer() returns (won: bool)
      requires Pictured() && InMaze() && Near() && Standing()
      modifies maze.cells, maze`nFruits, view.build
      ensures Pictured() && InMaze() && Grows(old(maze.cells[..]), maze.cells[..])
      ensures won <==> maze.nFruits == 0 && playX / BLOCK_X_DIM == maze.exitX && playY / BLOCK_Y_DIM == maze.exitY
      ensures maze.cells[..] ==
              LookedAround(old(maze.cells[..]), maze.xDim, maze.yDim, playX / BLOCK_X_DIM, playY / BLOCK_Y_DIM)
    {
      hide Playable, Unveiled, Grows, MazeIndex, Fits, Cached, UnveiledAll, Shape, Windowed, Near;
      ghost var c := maze.cells[..];
      var x, y := playX / BLOCK_X_DIM, playY / BLOCK_Y_DIM;
      IndexInArray(maze.xDim, maze.yDim, x, y);
      var fnum := CheckForFruit(x, y);
      ghost var d, i := maze.cells[..], MazeIndex(maze.xDim, x, y);
      assert d == c[i := c[i].(fruit := 0)] by {
        if fnum == 0 {
          assert c[i].(fruit := 0) == c[i];
        }
      }
      UnveilSquare(x, y);
      GrowsOn(c, d, maze.cells[..]);
      UnveilMore(c, x, y - 2);
      UnveilMore(c, x + 2, y);
      UnveilMore(c, x, y + 2);
      UnveilMore(c, x - 2, y);
      FourMore(d, maze.xDim, maze.yDim, x, y);
      won := CheckForWin(x, y);
    }

    /** The last four of the cells in sight. */
    lemma FourMore(d: seq<Cell>, xDim: int, yDim: int, x: int, y: int)
      ensures var e := UnveiledAll(d, xDim, yDim, Square(x, y));
              var f := Unveiled(Unveiled(e, xDim, yDim, x, y - 2), xDim, yDim, x + 2, y);
              UnveiledAll(d, xDim, yDim, Sight(x, y))
              == Unveiled(Unveiled(f, xDim, yDim, x, y + 2), xDim, yDim, x - 2, y)
    {
      hide Unveiled, UnveiledAll, Square;
      var ps := Square(x, y);
      OneMore(d, xDim, yDim, ps, (x, y - 2));
      OneMore(d, xDim, yDim, ps + [(x, y - 2)], (x + 2, y));
      OneMore(d, xDim, yDim, ps + [(x, y - 2)] + [(x + 2, y)], (x, y + 2));
      OneMore(d, xDim, yDim, ps + [(x, y - 2)] + [(x + 2, y)] + [(x, y + 2)], (x - 2, y));
      assert Sight(x, y) == ps + [(x, y - 2)] + [(x + 2, y)] + [(x, y + 2)] + [(x - 2, y)];
    }

    lemma OneMore(d: seq<Cell>, xDim: int, yDim: int, ps: seq<(int, int)>, p: (int, int))
      ensures UnveiledAll(d, xDim, yDim, ps + [p]) == Unveiled(UnveiledAll(d, xDim, yDim, ps), xDim, yDim, p.0, p.1)
    {
      assert (ps + [p])[..|ps|] == ps;
    }

    /** What holds at the start of every tick: the picture is right, the player is on track and well inside
        the window, and until a direction is requested the player has none. */
    ghost predicate Ready()
      reads this, view, view.build, maze, maze.cells
    {
      && Pictured() && InMaze() && Near() && view.Paged()
      && OnTrack(maze.cells[..], maze.xDim, maze.yDim, playX, playY, dir, moveCnt) && moveCnt < BLOCK
      && 0 <= nextDir <= DIR_STOP && 0 <= lastDir < DIR_STOP && (nextDir == DIR_STOP ==> dir == DIR_STOP)
    }

    /** On a cell: take the requested direction if it is open, or go on, or stop. Before the first request
        the source reads one element past its array of open directions; `beyond` is whatever it finds. */
    method Steer(beyond: bool)
      requires maze.Drawable() && Standing() && 0 <= nextDir <= DIR_STOP && 0 <= dir <= DIR_STOP
      requires nextDir == DIR_STOP ==> dir == DIR_STOP
      requires moveCnt == 0
      modifies this`dir, this`moveCnt
      ensures Motion(dir, moveCnt) == Steered(maze.cells[..], maze.xDim, playX, playY, old(dir), nextDir)
      ensures nextDir == DIR_STOP ==> dir == DIR_STOP
    {
      hide MazeIndex, Passage;
      var open := FindOpenDirections(playX / BLOCK_X_DIM, playY / BLOCK_Y_DIM);
      if if nextDir == DIR_STOP then beyond else open[nextDir] {
        dir := nextDir;
      }
      if dir != DIR_STOP {
        if !open[dir] {
          dir := DIR_STOP;
        } else if dir == DIR_UP || dir == DIR_DOWN {
          moveCnt := BLOCK_Y_DIM;
        } else {
          moveCnt := BLOCK_X_DIM;
        }
      }
    }

    /** Move one pixel in the direction of motion. */
    method Advance()
      requires Pictured() && Near() && 0 <= dir <= DIR_STOP && 0 <= lastDir < DIR_STOP
      modifies this`playX, this`playY, this`mapX, this`mapY, this`lastDir, this`moveCnt,
               view`showX, view`showY, view`img3Off, view.build
      ensures Pictured() && Near() && 0 <= lastDir < DIR_STOP
      ensures playX == old(playX) + StepX(dir) && playY == old(playY) + StepY(dir)
      ensures moveCnt == old(moveCnt) - if dir == DIR_STOP then 0 else 1
      ensures lastDir == if dir == DIR_STOP then old(lastDir) else dir
      ensures Followed(old(mapX), old(mapY))
    {
      hide Cached, Fits, Shape, Followed;
      StaysPut();
      if dir != DIR_STOP {
        lastDir := dir;
        moveCnt := moveCnt - 1;
        match dir {
          case 0 => MoveUp();
          case 1 => MoveRight();
          case 2 => MoveDown();
          case _ => MoveLeft();
        }
      }
    }

    /** One tick of the game, with the direction requested since the last one (DIR_STOP for none). */
    method Tick(key: int, beyond: bool) returns (won: bool)
      requires Ready() && 0 <= key <= DIR_STOP
      modifies this`playX, this`playY, this`mapX, this`mapY, this`dir, this`lastDir, this`nextDir, this`moveCnt,
               view`showX, view`showY, view`img3Off, view.build, maze.cells, maze`nFruits
      ensures Ready() && Grows(old(maze.cells[..]), maze.cells[..])
      ensures nextDir == if key == DIR_STOP then old(nextDir) else key
      ensures won <==>
              && TurnedBack(Motion(old(dir), old(moveCnt)), nextDir).moves == 0
              && maze.nFruits == 0 && old(playX) == BLOCK * maze.exitX && old(playY) == BLOCK * maze.exitY
      ensures won ==> playX == BLOCK * maze.exitX && playY == BLOCK * maze.exitY
      ensures var t := Ticked(old(maze.cells[..]), maze.xDim, old(playX), old(playY), Motion(old(dir), old(moveCnt)),
              nextDir);
              if won then playX == old(playX) && playY == old(playY) && moveCnt == 0
              else
                && dir == t.dir && moveCnt == t.moves - (if dir == DIR_STOP then 0 else 1)
                && playX == old(playX) + StepX(dir) && playY == old(playY) + StepY(dir)
      ensures maze.cells[..] == if TurnedBack(Motion(old(dir), old(moveCnt)), nextDir).moves == 0
                                then LookedAround(old(maze.cells[..]), maze.xDim, maze.yDim, old(playX) / BLOCK_X_DIM,
                                    old(playY) / BLOCK_Y_DIM)
                                else old(maze.cells[..])
      ensures Followed(old(mapX), old(mapY))
      ensures (Stage(), won) == AfterTick(old(Stage()), key)
    {
      hide FollowX, FollowY, Near, OnTrack, Grows, Ticked, Steered, Playable, View.Paged, TurnedBack, LookedAround;
      hide Shape, Cached, Windowed, View.Fenced, Maze.Drawable;
      ghost var c, m, x0, y0 := maze.cells[..], Motion(dir, moveCnt), playX, playY;
      TickFacts(c, maze.xDim, maze.yDim, maze.nFruits, maze.exitX, maze.exitY, x0, y0, m,
                if key == DIR_STOP then nextDir else key);
      won := Choose(key, beyond);
      StaysPut();
      if !won {
        Advance();
      }
      TrackByWalls(c, maze.cells[..], maze.xDim, maze.yDim, playX, playY, dir, moveCnt);
      NoFruitLeft(maze.cells[..], maze.xDim, maze.yDim, maze.nFruits, maze.exitX, maze.exitY);
    }

    /** The first half of a tick: take the request, and at a cell look around and choose where to go. */
    method Choose(key: int, beyond: bool) returns (won: bool)
      requires Ready() && 0 <= key <= DIR_STOP
      modifies this`dir, this`nextDir, this`moveCnt, view.build, maze.cells, maze`nFruits
      ensures Pictured() && InMaze() && Near() && Grows(old(maze.cells[..]), maze.cells[..])
      ensures nextDir == (if key == DIR_STOP then old(nextDir) else key) && (nextDir == DIR_STOP ==> dir == DIR_STOP)
      ensures won <==>
              && TurnedBack(old(Motion(dir, moveCnt)), nextDir).moves == 0
              && maze.nFruits == 0 && playX == BLOCK * maze.exitX && playY == BLOCK * maze.exitY
      ensures won ==> Motion(dir, moveCnt) == TurnedBack(old(Motion(dir, moveCnt)), nextDir) && moveCnt == 0
      ensures won ==> OnTrack(old(maze.cells[..]), maze.xDim, maze.yDim, playX, playY, dir, moveCnt)
      ensures !won ==>
                Motion(dir, moveCnt) ==
                    Ticked(old(maze.cells[..]), maze.xDim, playX, playY, old(Motion(dir, moveCnt)), nextDir)
      ensures maze.cells[..] == if TurnedBack(old(Motion(dir, moveCnt)), nextDir).moves == 0
                                then LookedAround(old(maze.cells[..]), maze.xDim, maze.yDim, playX / BLOCK_X_DIM,
                                    playY / BLOCK_Y_DIM)
                                else old(maze.cells[..])
    {
      hide Playable, Fits, Cached, OnTrack, Grows, Ticked, Steered, Shape, LookedAround;
      ghost var m := Motion(dir, moveCnt);
      TickFacts(maze.cells[..], maze.xDim, maze.yDim, maze.nFruits, maze.exitX, maze.exitY, playX, playY, m,
                if key == DIR_STOP then nextDir else key);
      if key != DIR_STOP {
        nextDir := key;
      }
      TurnBackNow();
      won := false;
      if moveCnt == 0 {
        won := AtCell(beyond);
      }
    }

    /** The player has reached a cell: unveil, check for a win, and choose where to go. */
    method AtCell(beyond: bool) returns (won: bool)
      requires Pictured() && InMaze() && Near() && Standing() && moveCnt == 0
      requires 0 <= nextDir <= DIR_STOP && 0 <= dir <= DIR_STOP && (nextDir == DIR_STOP ==> dir == DIR_STOP)
      modifies this`dir, this`moveCnt, maze.cells, maze`nFruits, view.build
      ensures Pictured() && InMaze() && Near() && Grows(old(maze.cells[..]), maze.cells[..])
      ensures won <==> maze.nFruits == 0 && playX == BLOCK * maze.exitX && playY == BLOCK * maze.exitY
      ensures won ==> dir == old(dir) && moveCnt == 0
      ensures nextDir == DIR_STOP ==> dir == DIR_STOP
      ensures !won ==> Motion(dir, moveCnt) == Steered(old(maze.cells[..]), maze.xDim, playX, playY, old(dir), nextDir)
      ensures maze.cells[..] ==
              LookedAround(old(maze.cells[..]), maze.xDim, maze.yDim, playX / BLOCK_X_DIM, playY / BLOCK_Y_DIM)
    {
      hide Playable, Fits, Cached, Near, Grows, Steered, LookedAround, Shape;
      ghost var c := maze.cells[..];
      won := UnveilAroundPlayer();
      if !won {
        SteeredGrows(c, maze.cells[..], maze.xDim, playX, playY, dir, nextDir);
        Steer(beyond);
      }
    }

    /** What one frame shows at logical pixel (x,y): the text, in transparent colours, over the player, over
        the maze. */
    ghost function Composed(x: int, y: int, text: Option<FruitText>): byte
      reads this`playX, this`playY, this`lastDir, view`showX, view`showY, view`img3Off, maze, maze.cells
      requires Shape() && 0 <= lastDir < DIR_STOP && (text.Some? ==> |text.value.pixels| == TEXT_X_DIM * TEXT_Y_DIM)
    {
      var under := UnderText(x, y);
      if text.Some? && TextAt(text.value, x, y) then Transparent(under) else under
    }

    /** The page on show is the frame, pixel by pixel. */
    ghost predicate OnShow(text: Option<FruitText>)
      reads this`playX, this`playY, this`lastDir, view, view.vram, maze, maze.cells
      requires Shape() && 0 <= lastDir < DIR_STOP && (text.Some? ==> |text.value.pixels| == TEXT_X_DIM * TEXT_Y_DIM)
    {
      forall c, r | 0 <= c < SCROLL_X_DIM && 0 <= r < SCROLL_Y_DIM ::
        view.Shown(view.targetImg, c, r) == Composed(view.showX + c, view.showY + r, text)
    }

    /** What that is at one pixel: the maze; in the 12 by 12 pixels of the player, the image for the last direction
        where its mask has a 1; and under the set pixels of a text, which is 8 pixels a letter wide and has its middle
        above the player, the transparent colour of what is there. */
    lemma ComposedIs(x: int, y: int, text: Option<FruitText>)
      requires Shape() && 0 <= lastDir < DIR_STOP
      requires text.Some? ==> |text.value.pixels| == TEXT_X_DIM * TEXT_Y_DIM
      ensures !(playX <= x < playX + 12 && playY <= y < playY + 12) ==> Composed(x, y, None) == maze.Rendered(x, y)
      ensures playX <= x < playX + 12 && playY <= y < playY + 12 ==>
                var k := (y - playY) * 12 + (x - playX);
                Composed(x, y, None) ==
                if maze.blocks[22 + lastDir][k] == 1 then maze.blocks[18 + lastDir][k] else maze.Rendered(x, y)
      ensures text.Some? ==>
                var i, j := x - (playX - 8 * text.value.length / 2), y - view.TextTop(playY - 20);
                Composed(x, y, text) ==
                if 0 <= i < 104 && 0 <= j < 16 && text.value.pixels[j * 104 + i] != 0
                then Transparent(Composed(x, y, None)) else Composed(x, y, None)
    {
      hide Maze.Rendered, Transparent, View.TextTop;
    }

    /** The player's image where its mask is 1, the maze elsewhere. */
    ghost function UnderText(x: int, y: int): byte
      reads this`playX, this`playY, this`lastDir, view`showX, view`showY, view`img3Off, maze, maze.cells
      requires Shape() && 0 <= lastDir < DIR_STOP
    {
      if InRect(playX, playY, BLOCK_X_DIM, BLOCK_Y_DIM, x, y)
         && maze.blocks[BLOCK_PLAYER_MASK_UP + lastDir][(y - playY) * BLOCK_X_DIM + (x - playX)] == 1
      then maze.blocks[BLOCK_PLAYER_UP + lastDir][(y - playY) * BLOCK_X_DIM + (x - playX)]
      else maze.Rendered(x, y)
    }

    /** Whether the fruit text, centred above the player, covers (x,y). */
    ghost predicate TextAt(t: FruitText, x: int, y: int)
      reads this`playX, this`playY, view`showY
      requires |t.pixels| == TEXT_X_DIM * TEXT_Y_DIM
    {
      var left, top := playX - 4 * t.length, view.TextTop(playY - 20);
      InRect(left, top, TEXT_X_DIM, TEXT_Y_DIM, x, y) && t.pixels[(y - top) * TEXT_X_DIM + (x - left)] != 0
    }

    /** The frame of rtc_thread: put the player and the fruit text into the picture, show it, and take them out
        again. */
    method Frame(text: Option<FruitText>)
      requires Shape() && maze.Drawable() && Cached() && view.Paged() && 0 <= lastDir < DIR_STOP
      requires text.Some? ==> |text.value.pixels| == TEXT_X_DIM * TEXT_Y_DIM
      modifies backgroundBuf, fruitFloorBuffer, view.build, view`targetImg, view.vram
      ensures view.build[..] == old(view.build[..]) && Cached()
      ensures view.Paged() && view.targetImg == FlipPage(old(view.targetImg))
      ensures OnShow(text)
      ensures forall p, a | 0 <= p < view.vram.Length0 && 0 <= a < view.vram.Length1
              && !(view.targetImg <= a < view.targetImg + SCROLL_SIZE) ::
                view.vram[p, a] == old(view.vram[p, a])
      ensures view.StatusKept()
    {
      hide Fits, View.Shown, Maze.Rendered, PixelOffset, View.UsedByView, Composed, BackgroundKept, FloorKept;
      hide FlipPage, View.Pix;
      DrawSprites(text);
      view.ShowScreen();
      UndrawSprites(text);
      view.PictureRestored();
    }

    /** copy_full_block, draw_full_block_with_mask, and for a text save_floor_block and draw_fruit_text_full_block. */
    method DrawSprites(text: Option<FruitText>)
      requires Shape() && Cached() && 0 <= lastDir < DIR_STOP
      requires text.Some? ==> |text.value.pixels| == TEXT_X_DIM * TEXT_Y_DIM
      modifies backgroundBuf, fruitFloorBuffer, view.build
      ensures forall x, y | view.OnView(x, y) :: view.Pix(x, y) == Composed(x, y, text)
      ensures BackgroundKept() && (text.Some? ==> FloorKept(text.value.length))
      ensures forall i | 0 <= i < view.build.Length && !view.UsedByView(i) :: view.build[i] == old(view.build[i])
    {
      hide Cached, Composed, BackgroundKept, FloorKept, UnderText, Fits, View.Pix, View.UsedByView;
      DrawPlayer();
      if text.Some? {
        DrawText(text.value);
      } else {
        PlainComposed();
      }
    }

    /** Without a text, the frame shows the player over the maze. */
    lemma PlainComposed()
      requires Shape() && 0 <= lastDir < DIR_STOP
      ensures forall x, y :: Composed(x, y, None) == UnderText(x, y)
    {
    }

    /** The player over the background, which is kept. */
    method DrawPlayer()
      requires Shape() && Cached() && 0 <= lastDir < DIR_STOP
      modifies backgroundBuf, view.build
      ensures forall x, y | view.OnView(x, y) :: view.Pix(x, y) == UnderText(x, y)
      ensures BackgroundKept()
      ensures forall i | 0 <= i < view.build.Length && !view.UsedByView(i) :: view.build[i] == old(view.build[i])
    {
      hide Fits, Maze.Rendered, View.Pix, View.UsedByView;
      view.CopyFullBlock(playX, playY, backgroundBuf);
      view.DrawFullBlockWithMask(playX, playY, maze.blocks[BLOCK_PLAYER_UP + lastDir],
          maze.blocks[BLOCK_PLAYER_MASK_UP + lastDir]);
    }

    /** The text over that, which is kept. */
    method DrawText(t: FruitText)
      requires Shape() && 0 <= lastDir < DIR_STOP && |t.pixels| == TEXT_X_DIM * TEXT_Y_DIM
      requires forall x, y | view.OnView(x, y) :: view.Pix(x, y) == UnderText(x, y)
      modifies fruitFloorBuffer, view.build
      ensures forall x, y | view.OnView(x, y) :: view.Pix(x, y) == Composed(x, y, Some(t))
      ensures FloorKept(t.length)
      ensures forall i | 0 <= i < view.build.Length && !view.UsedByView(i) :: view.build[i] == old(view.build[i])
    {
      hide Fits, Maze.Rendered, View.Pix, View.UsedByView, UnderText, Transparent;
      var fruitPosY := playY - 20;
      var fruitPosX := playX - 4 * t.length;
      view.SaveFloorBlock(fruitPosX, fruitPosY, fruitFloorBuffer);
      view.DrawFruitTextFullBlock(fruitPosX, fruitPosY, fruitFloorBuffer[..], t.pixels);
    }

    /** mask_fruit_text_full_block for a text, then draw_full_block of the background. */
    method UndrawSprites(text: Option<FruitText>)
      requires Shape() && 0 <= lastDir < DIR_STOP
      requires text.Some? ==> |text.value.pixels| == TEXT_X_DIM * TEXT_Y_DIM
      requires forall x, y | view.OnView(x, y) :: view.Pix(x, y) == Composed(x, y, text)
      requires BackgroundKept() && (text.Some? ==> FloorKept(text.value.length))
      modifies view.build
      ensures Cached()
      ensures forall i | 0 <= i < view.build.Length && !view.UsedByView(i) :: view.build[i] == old(view.build[i])
    {
      hide Fits, Maze.Rendered, View.Pix, View.UsedByView;
      if text.Some? {
        view.MaskFruitTextFullBlock(playX - 4 * text.value.length, playY - 20, fruitFloorBuffer[..]);
      }
      assert forall x, y | view.OnView(x, y) :: view.Pix(x, y) == UnderText(x, y);
      view.DrawFullBlock(playX, playY, backgroundBuf[..]);
    }

    /** The background buffer holds the maze under the player. */
    ghost predicate BackgroundKept()
      reads this`playX, this`playY, view`showX, view`showY, view`img3Off, maze, maze.cells, backgroundBuf
      requires Shape()
    {
      forall x, y | view.OnView(x, y) && InRect(playX, playY, BLOCK_X_DIM, BLOCK_Y_DIM, x, y) ::
        backgroundBuf[(y - playY) * BLOCK_X_DIM + (x - playX)] == maze.Rendered(x, y)
    }

    /** The floor buffer holds what is under a text of that length. */
    ghost predicate FloorKept(length: int)
      reads this`playX, this`playY, this`lastDir, view`showX, view`showY, view`img3Off, maze, maze.cells
      reads fruitFloorBuffer
      requires Shape() && 0 <= lastDir < DIR_STOP
    {
      var left, top := playX - 4 * length, view.TextTop(playY - 20);
      forall x, y | view.OnView(x, y) && InRect(left, top, TEXT_X_DIM, TEXT_Y_DIM, x, y) ::
        fruitFloorBuffer[(y - top) * TEXT_X_DIM + (x - left)] == UnderText(x, y)
    }

    /** A requested direction that is backwards is taken at once. */
    method TurnBackNow()
      requires 0 <= moveCnt < BLOCK
      modifies this`dir, this`moveCnt
      ensures Motion(dir, moveCnt) == TurnedBack(old(Motion(dir, moveCnt)), nextDir)
    {
      if nextDir != dir {
        if || (dir == DIR_UP && nextDir == DIR_DOWN) || (dir == DIR_DOWN && nextDir == DIR_UP)
           || (dir == DIR_LEFT && nextDir == DIR_RIGHT) || (dir == DIR_RIGHT && nextDir == DIR_LEFT) {
          if moveCnt > 0 {
            if dir == DIR_UP || dir == DIR_DOWN {
              moveCnt := BLOCK_Y_DIM - moveCnt;
            } else {
              moveCnt := BLOCK_X_DIM - moveCnt;
            }
          }
          dir := nextDir;
        }
      }
    }

    /** prepare_maze_level: a maze of the level's size, and the whole window drawn line by line. */
    method PrepareMazeLevel(level: int, tape: seq<nat>) returns (built: Built)
      requires Shape() && view.Fenced()
      modifies this`mapX, this`mapY, maze, maze.cells, view`showX, view`showY, view`img3Off, view.build
      ensures built == BadSize <==> level < 1
      ensures Shape() && view.Fenced()
      ensures built == Made ==> Pictured() && InMaze() && mapX == SHOW_MIN && mapY == SHOW_MIN
      ensures built == Made ==>
              maze.xDim == LevelX(level) && maze.yDim == LevelY(level) && maze.nFruits == LevelFruits(level)
      ensures built == Made ==> Fresh(maze.cells[..], level, maze.exitX, maze.exitY)
      ensures built == Made <==> 1 <= level && LevelSuffices(tape, level)
    {
      hide Playable, View.Fenced, Fits, View.Pix, Maze.Rendered, Suffices;
      mapX, mapY := SHOW_MIN, SHOW_MIN;
      built := maze.MakeMaze(LevelX(level), LevelY(level), LevelFruits(level), tape);
      if built == Made {
        DrawWindow();
      }
    }

    /** Set the view to the window and draw every line of it. */
    method DrawWindow()
      requires Shape() && view.Fenced() && InMaze() && SHOW_MIN <= mapX <= LastMapX() && SHOW_MIN <= mapY <= LastMapY()
      modifies view`showX, view`showY, view`img3Off, view.build
      ensures Pictured()
    {
      PlayableFacts(maze.cells[..], maze.xDim, maze.yDim, maze.nFruits, maze.exitX, maze.exitY);
      hide Playable, Fits, Maze.Rendered, View.UsedByView;
      view.SetViewWindow(mapX, mapY);
      for i := 0 to SCROLL_Y_DIM
        invariant Shape() && Windowed() && view.Fenced()
        invariant forall x, y | view.OnView(x, y) && y < view.showY + i :: view.Pix(x, y) == maze.Rendered(x, y)
      {
        label Line:
        var r := view.DrawHorizLine(i, maze);
        view.FencesKept@Line();
      }
    }

    /** The start of a level in rtc_thread: the player at (1,1), no direction yet, the first frame on show. */
    method StartLevel(level: int, tape: seq<nat>) returns (built: Built)
      requires Shape() && view.Fenced() && view.Paged()
      modifies this, maze, maze.cells, backgroundBuf, fruitFloorBuffer, view, view.build, view.vram
      ensures built == BadSize <==> level < 1
      ensures Shape() && view.Fenced() && view.Paged()
      ensures built == Made ==> Ready() && OnShow(None) && Entered(Stage(), level)
      ensures built == Made <==> 1 <= level && LevelSuffices(tape, level)
      ensures view.StatusKept()
    {
      hide Cached, InMaze, Near, OnTrack, OnShow, View.Fenced, View.Paged, LevelSuffices, Fresh, LookedAround;
      hide LevelX, LevelY;
      built := PrepareMazeLevel(level, tape);
      if built == Made {
        ghost var c := maze.cells[..];
        EnterMaze();
        FirstFrame();
        assert Stage() == Start(c, level, maze.exitX, maze.exitY);
      }
    }

    /** The player enters at (1,1) and looks around. */
    method EnterMaze()
      requires Pictured() && InMaze() && mapX == SHOW_MIN && mapY == SHOW_MIN
      modifies `playX, `playY, `moveCnt, `lastDir, `dir, `nextDir, maze`nFruits, maze.cells, view.build
      ensures Pictured() && InMaze() && Near() && playX == BLOCK && playY == BLOCK
      ensures OnTrack(maze.cells[..], maze.xDim, maze.yDim, playX, playY, dir, moveCnt)
      ensures moveCnt == 0 && lastDir == DIR_UP && dir == DIR_STOP && nextDir == DIR_STOP
      ensures maze.cells[..] == LookedAround(old(maze.cells[..]), maze.xDim, maze.yDim, 1, 1)
    {
      hide Shape, Windowed, Cached, Playable, Grows, OnTrack, Seen, View.Fenced, LookedAround;
      playX, playY := BLOCK_X_DIM, BLOCK_Y_DIM;
      moveCnt := 0;
      lastDir := DIR_UP;
      dir, nextDir := DIR_STOP, DIR_STOP;
      ghost var c := maze.cells[..];
      StartOnTrack(c, maze.xDim, maze.yDim, maze.nFruits, maze.exitX, maze.exitY);
      var won := UnveilAroundPlayer();
      TrackByWalls(c, maze.cells[..], maze.xDim, maze.yDim, playX, playY, dir, moveCnt);
    }

    /** The frame at the start of a level shows no text. */
    method FirstFrame()
      requires Pictured() && 0 <= lastDir < DIR_STOP && view.Paged()
      modifies backgroundBuf, fruitFloorBuffer, view.build, view`targetImg, view.vram
      ensures Pictured() && view.Paged() && view.StatusKept() && OnShow(None)
    {
      hide Fits, Cached, OnShow, View.Paged, View.StatusKept;
      Frame(None);
    }

    /** One round of rtc_thread: some ticks, then a frame. */
    method Round(input: Input, beyond: bool) returns (won: bool)
      requires Ready() && GoodInput(input)
      modifies this, maze`nFruits, maze.cells, backgroundBuf, fruitFloorBuffer, view, view.build, view.vram
      ensures Ready() && view.StatusKept() && OnShow(input.text)
      ensures (Stage(), won) == AfterKeys(old(Stage()), input.keys)
      ensures won ==> maze.nFruits == 0 && playX == BLOCK * maze.exitX && playY == BLOCK * maze.exitY
    {
      hide Fits, Cached, Playable, Grows, OnTrack, Ticked, OnShow, AfterTick;
      won := false;
      var k := 0;
      while k < |input.keys| && !won
        invariant 0 <= k <= |input.keys| && Ready() && view.StatusKept()
        invariant won ==> maze.nFruits == 0 && playX == BLOCK * maze.exitX && playY == BLOCK * maze.exitY
        invariant AfterKeys(old(Stage()), input.keys) ==
                  if won then (Stage(), true) else AfterKeys(Stage(), input.keys[k..])
      {
        won := Tick(input.keys[k], beyond);
        assert input.keys[k..][1..] == input.keys[k + 1..];
        k := k + 1;
      }
      Frame(input.text);
    }

    /** A level, for any requests and any texts. */
    method PlayLevel(level: int, tape: seq<nat>, inputs: seq<Input>, beyond: bool)
      returns (built: Built, won: bool, ghost start: Scene)
      requires Shape() && view.Fenced() && view.Paged() && GoodInputs(inputs)
      modifies this, maze, maze.cells, backgroundBuf, fruitFloorBuffer, view, view.build, view.vram
      ensures Shape() && view.Fenced() && view.Paged() && view.StatusKept()
      ensures built == BadSize <==> level < 1
      ensures built == Made <==> 1 <= level && LevelSuffices(tape, level)
      ensures built == Made ==>
                Ready() && Entered(start, level) && (Stage(), won) == AfterRounds(start, Keys(inputs))
      ensures won ==> built == Made && maze.nFruits == 0 && playX == BLOCK * maze.exitX && playY == BLOCK * maze.exitY
    {
      hide Ready, Shape, View.Fenced, View.Paged, LevelSuffices, Entered, AfterKeys;
      won := false;
      built := StartLevel(level, tape);
      start := Stage();
      if built != Made {
        return;
      }
      var r := 0;
      while r < |inputs| && !won
        invariant 0 <= r <= |inputs| && Ready() && view.StatusKept()
        invariant won ==> maze.nFruits == 0 && playX == BLOCK * maze.exitX && playY == BLOCK * maze.exitY
        invariant AfterRounds(start, Keys(inputs)) ==
                  if won then (Stage(), true) else AfterRounds(Stage(), Keys(inputs)[r..])
      {
        assert Keys(inputs)[r..][1..] == Keys(inputs)[r + 1..];
        won := Round(inputs[r], beyond);
        r := r + 1;
      }
      ReadyShape();
    }

    lemma ReadyShape()
      requires Ready()
      ensures Shape() && view.Fenced() && view.Paged()
    {
    }

    /** rtc_thread over the levels: each is left by winning it, or the game ends there. `starts` are the scenes with
        which the levels start. */
    method PlayGame(tapes: seq<seq<nat>>, inputs: seq<seq<Input>>, beyond: bool)
      returns (level: int, built: Built, ghost starts: seq<Scene>)
      requires Shape() && view.Fenced() && view.Paged()
      requires |tapes| == |inputs| == MAX_LEVEL && forall l | 0 <= l < MAX_LEVEL :: GoodInputs(inputs[l])
      modifies this, maze, maze.cells, backgroundBuf, fruitFloorBuffer, view, view.build, view.vram
      ensures view.Fenced() && view.Paged() && view.StatusKept()
      ensures 1 <= level <= MAX_LEVEL + 1 && |starts| == level - 1 && built != BadSize
      ensures AllBegun(starts, tapes)
      ensures built == Starved ==>
                && level <= MAX_LEVEL && AllWon(starts, inputs)
                && !LevelSuffices(tapes[level - 1], level)
      ensures built == Made ==>
                && Ready() && 1 < level && AllWon(starts[..level - 2], inputs)
                && var (last, won) := AfterRounds(starts[level - 2], Keys(inputs[level - 2]));
                   Stage() == last && (level <= MAX_LEVEL ==> !won)
    {
      hide View.Fenced, View.Paged, Shape, Ready, LevelSuffices, Entered, AfterRounds, AllBegun, AllWon, Keys;
      NoneBegun(tapes, inputs);
      level, built, starts := 1, Made, [];
      var won := true;
      while level <= MAX_LEVEL && won
        invariant 1 <= level <= MAX_LEVEL + 1 && built == Made
        invariant Shape() && view.Fenced() && view.Paged() && view.StatusKept()
        invariant |starts| == level - 1 && AllBegun(starts, tapes)
        invariant if won then AllWon(starts, inputs) else level > 1
        invariant level > 1 ==> AllWon(starts[..level - 2], inputs)
        invariant level > 1 ==> Ready() && (Stage(), won) == AfterRounds(starts[level - 2], Keys(inputs[level - 2]))
        decreases MAX_LEVEL - level
      {
        ghost var start;
        built, won, start := PlayLevel(level, tapes[level - 1], inputs[level - 1], beyond);
        if built != Made {
          return;
        }
        OneMoreBegun(starts, start, tapes, inputs);
        starts := starts + [start];
        level := level + 1;
      }
    }

    /** The window never shows both the left boundary and the right one, which are the same cells a row apart. */
    lemma OneBoundaryOnView(x: int, y: int, x': int, y': int)
      requires Pictured() && view.OnView(x, y) && view.OnView(x', y')
      ensures !(x / BLOCK_X_DIM == 0 && x' / BLOCK_X_DIM == 2 * maze.xDim)
    {
      hide Cached, Shape, View.Fenced;
    }

    /** Between frames the whole player is on view. */
    lemma PlayerOnView(x: int, y: int)
      requires Ready() && InRect(playX, playY, BLOCK_X_DIM, BLOCK_Y_DIM, x, y)
      ensures view.OnView(x, y)
    {
      PlayableFacts(maze.cells[..], maze.xDim, maze.yDim, maze.nFruits, maze.exitX, maze.exitY);
      hide Playable, Cached, OnTrack;
      PlayerInside(maze.cells[..], maze.xDim, maze.yDim, playX, playY, dir, moveCnt);
    }
  }

  lemma NoFruitLeft(c: seq<Cell>, xDim: int, yDim: int, n: int, exitX: int, exitY: int)
    requires Playable(c, xDim, yDim, n, exitX, exitY)
    ensures n == 0 <==> Fruited(c) == {}
  {
  }

  /** (1,1) is open in every maze. */
  lemma StartOnTrack(c: seq<Cell>, xDim: int, yDim: int, n: int, exitX: int, exitY: int)
    requires Playable(c, xDim, yDim, n, exitX, exitY)
    ensures OnTrack(c, xDim, yDim, BLOCK, BLOCK, DIR_STOP, 0) && GoodDims(xDim, yDim)
  {
    hide ProperWalls, FruitsOnLattice, Fruited, Lattice, MazeIndex, IsLatticePoint;
    ProperDims(c, xDim, yDim);
    PointInLattice(xDim, yDim, 1, 1);
    ProperConnected(c, xDim, yDim, MazeIndex(xDim, 1, 1), MazeIndex(xDim, 1, 1));
  }

  /** What a tick needs to know of the maze and the player before anything moves. */
  lemma TickFacts(c: seq<Cell>, xDim: int, yDim: int, n: int, exitX: int, exitY: int, playX: int, playY: int,
      m: Motion, next: int)
    requires Playable(c, xDim, yDim, n, exitX, exitY) && OnTrack(c, xDim, yDim, playX, playY, m.dir, m.moves)
    requires m.moves < BLOCK
    ensures Grows(c, c) && 0 <= m.moves
    ensures var b := TurnedBack(m, next);
            && OnTrack(c, xDim, yDim, playX, playY, b.dir, b.moves) && 0 <= b.moves < BLOCK && 0 <= b.dir <= DIR_STOP
            && (b.moves == 0 ==> playX % BLOCK == 0 && playY % BLOCK == 0)
            && (b.moves == 0 ==> Ticked(c, xDim, playX, playY, m, next) == Steered(c, xDim, playX, playY, b.dir, next))
            && (b.moves != 0 ==> Ticked(c, xDim, playX, playY, m, next) == b && b.dir != DIR_STOP)
    ensures BLOCK <= playX <= BLOCK * (2 * xDim - 1) && BLOCK <= playY <= BLOCK * (2 * yDim - 1)
    ensures var t := Ticked(c, xDim, playX, playY, m, next);
            && 0 <= t.dir <= DIR_STOP && 0 <= t.moves <= BLOCK
            && (if t.dir == DIR_STOP then t.moves == 0 && OnTrack(c, xDim, yDim, playX, playY, t.dir, 0)
                else
                  && 0 < t.moves
                  && OnTrack(c, xDim, yDim, playX + StepX(t.dir), playY + StepY(t.dir), t.dir, t.moves - 1))
  {
    PlayableFacts(c, xDim, yDim, n, exitX, exitY);
    hide Playable, OnTrack, Opposite, Bordered, Steered, TurnedBack;
    GrowsSelf(c);
    TurnedOnTrack(c, xDim, yDim, playX, playY, m, next);
    OnTrackRange(c, xDim, yDim, playX, playY, m.dir, m.moves);
    PlayerInside(c, xDim, yDim, playX, playY, m.dir, m.moves);
    SteeredRange(c, xDim, playX, playY, TurnedBack(m, next).dir, next);
    TickOnTrack(c, xDim, yDim, playX, playY, m, next);
  }

  /** Seeing cell (x,y) changes no pixel of another cell but its double on the other boundary. */
  lemma UnveiledElsewhere(blocks: seq<seq<byte>>, c: seq<Cell>, xDim: int, i: int, x: int, y: int, px: int, py: int,
      n: int)
    requires 0 < xDim && i == MazeIndex(xDim, x, y) && 0 <= i < |c|
    requires 0 <= x <= 2 * xDim && 0 <= y && 0 <= px < BLOCK_X_DIM * (2 * xDim + 1) && 0 <= py
    requires px / BLOCK_X_DIM != x || py / BLOCK_Y_DIM != y
    requires !(x == 0 && px / BLOCK_X_DIM == 2 * xDim) && !(x == 2 * xDim && px / BLOCK_X_DIM == 0)
    ensures Render(blocks, c[i := c[i].(reach := true)], n, xDim, px, py) == Render(blocks, c, n, xDim, px, py)
  {
    hide FindBlock, MazeIndex;
    var cx, cy := px / BLOCK_X_DIM, py / BLOCK_Y_DIM;
    if MazeIndex(xDim, cx, cy) == i {
      IndexAlias(xDim, cx, cy, x, y);
    }
    OtherBlockSame(c, i, c[i].(reach := true), n, n, xDim, cx, cy);
  }

  /** Eating the fruit of the lattice point (x,y) changes no pixel of another cell, save the exit when it was the
      last. */
  lemma EatenElsewhere(blocks: seq<seq<byte>>, c: seq<Cell>, xDim: int, yDim: int, i: int, x: int, y: int, px: int,
                       py: int, n: int, exitX: int, exitY: int)
    requires Playable(c, xDim, yDim, n, exitX, exitY) && i == MazeIndex(xDim, x, y) && 0 <= i < |c| && c[i].fruit != 0
    requires 0 <= x < 2 * xDim && 0 <= y < 2 * yDim && 0 <= px < BLOCK_X_DIM * (2 * xDim + 1)
    requires 0 <= py < BLOCK_Y_DIM * (2 * yDim + 1)
    requires px / BLOCK_X_DIM != x || py / BLOCK_Y_DIM != y
    requires !(n == 1 && px / BLOCK_X_DIM == exitX && py / BLOCK_Y_DIM == exitY)
    ensures Render(blocks, c[i := c[i].(fruit := 0)], n - 1, xDim, px, py) == Render(blocks, c, n, xDim, px, py)
  {
    PlayableFacts(c, xDim, yDim, n, exitX, exitY);
    EatenPlayable(c, xDim, yDim, i, n, exitX, exitY);
    InLattice(xDim, yDim, x, y);
    hide FindBlock, MazeIndex, Playable, Lattice;
    var cx, cy := px / BLOCK_X_DIM, py / BLOCK_Y_DIM;
    var k := MazeIndex(xDim, cx, cy);
    if k == i {
      IndexAlias(xDim, cx, cy, x, y);
    }
    if n == 1 && CellAt(c, k).exit {
      IndexAlias(xDim, cx, cy, exitX, exitY);
    }
    OtherBlockSame(c, i, c[i].(fruit := 0), n, n - 1, xDim, cx, cy);
  }
}
