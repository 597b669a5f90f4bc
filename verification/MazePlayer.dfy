/** Where the player of MP2/mazegame.c can be: on a cell, or between two adjacent cells that are no walls. */
module MazePlayer {
  import opened MazeCells
  import opened MazeGraph
  import opened MazeDig
  import opened MazePlay
  import opened MazeRender

  const DIR_UP := 0
  const DIR_RIGHT := 1
  const DIR_DOWN := 2
  const DIR_LEFT := 3
  const DIR_STOP := 4

  /** Blocks are square, and a count of moves left is in pixels along either side. */
  const BLOCK := BLOCK_X_DIM

  ghost predicate OpenCell(c: seq<Cell>, xDim: int, yDim: int, x: int, y: int) {
    0 <= x <= 2 * xDim && 0 <= y <= 2 * yDim && Passage(c, MazeIndex(xDim, x, y))
  }

  /** Where a player with `moves` pixels left to go in direction `dir` is heading. */
  function TargetX(playX: int, dir: int, moves: int): int {
    if dir == DIR_RIGHT then playX + moves else if dir == DIR_LEFT then playX - moves else playX
  }

  function TargetY(playY: int, dir: int, moves: int): int {
    if dir == DIR_DOWN then playY + moves else if dir == DIR_UP then playY - moves else playY
  }

  /** The player is `moves` pixels short of an open cell; unless that is 0, it came from the open cell behind. */
  ghost predicate OnTrack(c: seq<Cell>, xDim: int, yDim: int, playX: int, playY: int, dir: int, moves: int) {
    && 0 <= moves <= BLOCK && 0 <= dir <= DIR_STOP && (moves > 0 ==> dir != DIR_STOP)
    && TargetX(playX, dir, moves) % BLOCK == 0 && TargetY(playY, dir, moves) % BLOCK == 0
    && var (tx, ty) := (TargetX(playX, dir, moves) / BLOCK, TargetY(playY, dir, moves) / BLOCK);
    && OpenCell(c, xDim, yDim, tx, ty)
    && (moves > 0 ==> OpenCell(c, xDim, yDim, tx - StepX(dir), ty - StepY(dir)))
  }

  lemma OnTrackRange(c: seq<Cell>, xDim: int, yDim: int, playX: int, playY: int, dir: int, moves: int)
    requires OnTrack(c, xDim, yDim, playX, playY, dir, moves)
    ensures 0 <= moves <= BLOCK && 0 <= dir <= DIR_STOP
  {
  }

  predicate Opposite(d: int, e: int) {
    || (d == DIR_UP && e == DIR_DOWN) || (d == DIR_DOWN && e == DIR_UP)
    || (d == DIR_LEFT && e == DIR_RIGHT) || (d == DIR_RIGHT && e == DIR_LEFT)
  }

  /** Turning back between two cells swaps where the player comes from and where it goes. */
  lemma TurnBack(c: seq<Cell>, xDim: int, yDim: int, playX: int, playY: int, dir: int, moves: int, back: int)
    requires OnTrack(c, xDim, yDim, playX, playY, dir, moves) && moves < BLOCK && Opposite(dir, back)
    ensures OnTrack(c, xDim, yDim, playX, playY, back, if moves > 0 then BLOCK - moves else 0)
  {
    var tx, ty := TargetX(playX, dir, moves), TargetY(playY, dir, moves);
    if moves > 0 {
      assert TargetX(playX, back, BLOCK - moves) == tx - BLOCK * StepX(dir);
      assert TargetY(playY, back, BLOCK - moves) == ty - BLOCK * StepY(dir);
      assert (tx - BLOCK * StepX(dir)) / BLOCK == tx / BLOCK - StepX(dir);
      assert (ty - BLOCK * StepY(dir)) / BLOCK == ty / BLOCK - StepY(dir);
    }
  }

  /** Setting out from a cell into an open neighbour. */
  lemma SetOut(c: seq<Cell>, xDim: int, yDim: int, playX: int, playY: int, dir: int)
    requires Bordered(c, xDim, yDim) && OnTrack(c, xDim, yDim, playX, playY, DIR_STOP, 0) && 0 <= dir < DIR_STOP
    requires Passage(c, MazeIndex(xDim, playX / BLOCK + StepX(dir), playY / BLOCK + StepY(dir)))
    ensures OnTrack(c, xDim, yDim, playX, playY, dir, BLOCK)
  {
    OpenInside(c, xDim, yDim, playX / BLOCK, playY / BLOCK);
    assert TargetX(playX, dir, BLOCK) == playX + BLOCK * StepX(dir)
           && TargetY(playY, dir, BLOCK) == playY + BLOCK * StepY(dir);
  }

  /** One pixel of motion. */
  lemma StepOn(c: seq<Cell>, xDim: int, yDim: int, playX: int, playY: int, dir: int, moves: int)
    requires OnTrack(c, xDim, yDim, playX, playY, dir, moves) && moves > 0
    ensures OnTrack(c, xDim, yDim, playX + StepX(dir), playY + StepY(dir), dir, moves - 1)
  {
    hide OpenCell;
    assert TargetX(playX + StepX(dir), dir, moves - 1) == TargetX(playX, dir, moves);
    assert TargetY(playY + StepY(dir), dir, moves - 1) == TargetY(playY, dir, moves);
  }

  /** The player's block never overlaps a wall: every pixel of it lies in an open cell of the maze. */
  lemma PlayerClear(c: seq<Cell>, xDim: int, yDim: int, playX: int, playY: int, dir: int, moves: int, px: int, py: int)
    requires Bordered(c, xDim, yDim) && OnTrack(c, xDim, yDim, playX, playY, dir, moves)
    requires playX <= px < playX + BLOCK && playY <= py < playY + BLOCK
    ensures OpenCell(c, xDim, yDim, px / BLOCK, py / BLOCK)
    ensures 0 < px / BLOCK < 2 * xDim && 0 < py / BLOCK < 2 * yDim
  {
    var tx, ty := TargetX(playX, dir, moves) / BLOCK, TargetY(playY, dir, moves) / BLOCK;
    assert (px / BLOCK == tx && py / BLOCK == ty)
           || (moves > 0 && px / BLOCK == tx - StepX(dir) && py / BLOCK == ty - StepY(dir));
    OpenInside(c, xDim, yDim, px / BLOCK, py / BLOCK);
  }

  /** So the player stays between the inner edges of the boundary. */
  lemma PlayerInside(c: seq<Cell>, xDim: int, yDim: int, playX: int, playY: int, dir: int, moves: int)
    requires Bordered(c, xDim, yDim) && OnTrack(c, xDim, yDim, playX, playY, dir, moves)
    ensures BLOCK <= playX <= BLOCK * (2 * xDim - 1) && BLOCK <= playY <= BLOCK * (2 * yDim - 1)
  {
    PlayerClear(c, xDim, yDim, playX, playY, dir, moves, playX, playY);
    PlayerClear(c, xDim, yDim, playX, playY, dir, moves, playX + BLOCK - 1, playY + BLOCK - 1);
  }

  /** The walls are all that motion depends on. */
  lemma TrackByWalls(c: seq<Cell>, c': seq<Cell>, xDim: int, yDim: int, playX: int, playY: int, dir: int, moves: int)
    requires OnTrack(c, xDim, yDim, playX, playY, dir, moves) && Grows(c, c')
    ensures OnTrack(c', xDim, yDim, playX, playY, dir, moves)
  {
  }

  /** Whether the cell next to the player's cell in direction `d` is open. */
  ghost predicate OpenTo(c: seq<Cell>, xDim: int, playX: int, playY: int, d: int) {
    0 <= d < DIR_STOP && Passage(c, MazeIndex(xDim, playX / BLOCK + StepX(d), playY / BLOCK + StepY(d)))
  }

  /** Direction of motion, and pixels left to the next cell. */
  datatype Motion = Motion(dir: int, moves: int)

  /** A request to go back is obeyed at once. */
  function TurnedBack(m: Motion, next: int): Motion {
    if Opposite(m.dir, next) then Motion(next, if m.moves > 0 then BLOCK - m.moves else 0) else m
  }

  /** On a cell: the requested direction if it is open, else straight on if that is open, else stop. */
  ghost function Steered(c: seq<Cell>, xDim: int, playX: int, playY: int, dir: int, next: int): Motion {
    if OpenTo(c, xDim, playX, playY, next) then Motion(next, BLOCK)
    else if OpenTo(c, xDim, playX, playY, dir) then Motion(dir, BLOCK)
    else Motion(DIR_STOP, 0)
  }

  /** How the player moves in one tick. */
  ghost function Ticked(c: seq<Cell>, xDim: int, playX: int, playY: int, m: Motion, next: int): Motion {
    var t := TurnedBack(m, next);
    if t.moves == 0 then Steered(c, xDim, playX, playY, t.dir, next) else t
  }

  /** Turning back keeps the player on track; on a cell it could as well stand still. */
  lemma TurnedOnTrack(c: seq<Cell>, xDim: int, yDim: int, playX: int, playY: int, m: Motion, next: int)
    requires OnTrack(c, xDim, yDim, playX, playY, m.dir, m.moves) && m.moves < BLOCK
    ensures var b := TurnedBack(m, next);
            && OnTrack(c, xDim, yDim, playX, playY, b.dir, b.moves) && 0 <= b.moves < BLOCK && 0 <= b.dir <= DIR_STOP
            && (b.moves > 0 ==> b.dir != DIR_STOP)
            && (b.moves == 0 ==>
                  playX % BLOCK == 0 && playY % BLOCK == 0 && OnTrack(c, xDim, yDim, playX, playY, DIR_STOP, 0))
  {
    hide OpenCell;
    if Opposite(m.dir, next) {
      TurnBack(c, xDim, yDim, playX, playY, m.dir, m.moves, next);
    }
  }

  /** Whatever is requested, the player stays on open cells. */
  lemma TickOnTrack(c: seq<Cell>, xDim: int, yDim: int, playX: int, playY: int, m: Motion, next: int)
    requires Bordered(c, xDim, yDim) && OnTrack(c, xDim, yDim, playX, playY, m.dir, m.moves) && m.moves < BLOCK
    ensures var t := Ticked(c, xDim, playX, playY, m, next);
            if t.dir == DIR_STOP then t.moves == 0 && OnTrack(c, xDim, yDim, playX, playY, DIR_STOP, 0)
            else
              && 0 < t.moves <= BLOCK
              && OnTrack(c, xDim, yDim, playX + StepX(t.dir), playY + StepY(t.dir), t.dir, t.moves - 1)
  {
    hide Bordered, MazeIndex, Passage, OnTrack, Opposite, TurnedBack;
    var b, t := TurnedBack(m, next), Ticked(c, xDim, playX, playY, m, next);
    TurnedOnTrack(c, xDim, yDim, playX, playY, m, next);
    if b.moves == 0 {
      if t.dir != DIR_STOP {
        SetOut(c, xDim, yDim, playX, playY, t.dir);
      }
    }
    if t.dir != DIR_STOP {
      StepOn(c, xDim, yDim, playX, playY, t.dir, t.moves);
    }
  }

  /** Seeing and eating change no way. */
  lemma SteeredGrows(c: seq<Cell>, d: seq<Cell>, xDim: int, playX: int, playY: int, dir: int, next: int)
    requires Grows(c, d)
    ensures Steered(c, xDim, playX, playY, dir, next) == Steered(d, xDim, playX, playY, dir, next)
  {
    hide MazeIndex;
    assert forall d' :: OpenTo(c, xDim, playX, playY, d') == OpenTo(d, xDim, playX, playY, d');
  }

  lemma SteeredRange(c: seq<Cell>, xDim: int, playX: int, playY: int, dir: int, next: int)
    ensures 0 <= Steered(c, xDim, playX, playY, dir, next).dir <= DIR_STOP
  {
  }
}
