/** What the game of MP2/mazegame.c is about, without its picture: the maze, the player and the window, and how requests
    change them. */
module MazeScene {
  import opened MazeCells
  import opened MazeDig
  import opened MazePlay
  import opened MazePlayer
  import opened MazeRender
  import opened ModeXAddress

  /** Hide the last six pixels of the boundary; pan when the player is within five blocks of the edge. */
  const SHOW_MIN := 6
  const PAN_BORDER := 5

  datatype Scene = Scene(cells: seq<Cell>, xDim: int, yDim: int, exitX: int, exitY: int, mapX: int, mapY: int,
                         playX: int, playY: int, motion: Motion, lastDir: int, nextDir: int)

  /** Where a window at `at` has to be for the player: as far along as keeps the player `low` pixels from one end and
      `high` from the other, but no further than the ends of the maze, and no further than it must. */
  function Follow(at: int, play: int, last: int, low: int, high: int): int {
    if play < at + low then (if SHOW_MIN < play - low then play - low else SHOW_MIN)
    else if at + high < play then (if play - high < last then play - high else last)
    else at
  }

  /** The last window position that shows no more than the maze's outer half blocks. */
  function LastX(xDim: int): int {
    (2 * xDim + 1) * BLOCK_X_DIM - SHOW_MIN - SCROLL_X_DIM
  }

  function LastY(yDim: int): int {
    (2 * yDim + 1) * BLOCK_Y_DIM - SHOW_MIN - SCROLL_Y_DIM
  }

  function FollowX(mapX: int, playX: int, xDim: int): int {
    Follow(mapX, playX, LastX(xDim), BLOCK_X_DIM * PAN_BORDER, SCROLL_X_DIM - BLOCK_X_DIM * (PAN_BORDER + 1))
  }

  function FollowY(mapY: int, playY: int, yDim: int): int {
    Follow(mapY, playY, LastY(yDim), BLOCK_Y_DIM * PAN_BORDER, SCROLL_Y_DIM - BLOCK_Y_DIM * (PAN_BORDER + 1))
  }

  /** The window is near the player, or at an end of the maze. */
  predicate Follows(at: int, play: int, last: int, low: int, high: int) {
    && SHOW_MIN <= at <= last
    && (at == SHOW_MIN || at + low <= play) && (at == last || play <= at + high)
  }

  /** The window goes to the nearest place that is near the player, so it stays if it is near already; and for a player
      who was near and makes one step it makes one at most. */
  lemma FollowNearest(at: int, play: int, last: int, low: int, high: int)
    requires SHOW_MIN <= at <= last && low <= high
    ensures Follows(Follow(at, play, last, low, high), play, last, low, high)
    ensures forall to | Follows(to, play, last, low, high) ::
              var here := Follow(at, play, last, low, high); if at <= here then here <= to || to < at else to <= here
    ensures Follows(at, play, last, low, high) ==> Follow(at, play, last, low, high) == at
    ensures forall was | Follows(at, was, last, low, high) && -1 <= play - was <= 1 ::
              -1 <= Follow(at, play, last, low, high) - at <= 1
  {
  }

  /** The player's maze after a tick: at a cell, the player looks around. */
  ghost function CellsAfter(s: Scene, b: Motion): seq<Cell> {
    if b.moves == 0 then LookedAround(s.cells, s.xDim, s.yDim, s.playX / BLOCK_X_DIM, s.playY / BLOCK_Y_DIM)
    else s.cells
  }

  /** One tick, with the direction requested since the last one: the scene afterwards, and whether the level is won. */
  ghost function AfterTick(s: Scene, key: int): (Scene, bool) {
    var next := if key == DIR_STOP then s.nextDir else key;
    var b := TurnedBack(s.motion, next);
    var c := CellsAfter(s, b);
    if b.moves == 0 && Fruited(c) == {} && s.playX == BLOCK * s.exitX && s.playY == BLOCK * s.exitY then
      (s.(cells := c, motion := b, nextDir := next), true)
    else
      var t := Ticked(s.cells, s.xDim, s.playX, s.playY, s.motion, next);
      var x, y := s.playX + StepX(t.dir), s.playY + StepY(t.dir);
      (s.(cells := c, nextDir := next, playX := x, playY := y,
          mapX := FollowX(s.mapX, x, s.xDim), mapY := FollowY(s.mapY, y, s.yDim),
          motion := if t.dir == DIR_STOP then t else Motion(t.dir, t.moves - 1),
          lastDir := if t.dir == DIR_STOP then s.lastDir else t.dir), false)
  }

  /** The ticks of a round, until the level is won. */
  ghost function AfterKeys(s: Scene, keys: seq<int>): (Scene, bool)
    decreases |keys|
  {
    if keys == [] then (s, false)
    else
      var (t, won) := AfterTick(s, keys[0]);
      if won then (t, true) else AfterKeys(t, keys[1..])
  }

  /** The rounds of a level, until it is won. */
  ghost function AfterRounds(s: Scene, rounds: seq<seq<int>>): (Scene, bool)
    decreases |rounds|
  {
    if rounds == [] then (s, false)
    else
      var (t, won) := AfterKeys(s, rounds[0]);
      if won then (t, true) else AfterRounds(t, rounds[1..])
  }

  /** More keys go on from where the first ones led. */
  lemma {:induction false} KeysJoin(s: Scene, keys: seq<int>, more: seq<int>)
    ensures var (t, won) := AfterKeys(s, keys);
            AfterKeys(s, keys + more) == if won then (t, true) else AfterKeys(t, more)
    decreases |keys|
  {
    hide AfterTick;
    if keys == [] {
      assert keys + more == more;
    } else {
      assert (keys + more)[1..] == keys[1..] + more;
      KeysJoin(AfterTick(s, keys[0]).0, keys[1..], more);
    }
  }

  function AllKeys(rounds: seq<seq<int>>): seq<int> {
    if rounds == [] then [] else rounds[0] + AllKeys(rounds[1..])
  }

  /** How requests are spread over frames does not matter. */
  lemma {:induction false} FramesDoNotMatter(s: Scene, rounds: seq<seq<int>>)
    ensures AfterRounds(s, rounds) == AfterKeys(s, AllKeys(rounds))
    decreases |rounds|
  {
    if rounds != [] {
      KeysJoin(s, rounds[0], AllKeys(rounds[1..]));
      FramesDoNotMatter(AfterKeys(s, rounds[0]).0, rounds[1..]);
    }
  }

  /** A level is won only on the exit, with no fruit left. */
  lemma {:induction false} WonAtExit(s: Scene, keys: seq<int>)
    ensures var (t, won) := AfterKeys(s, keys);
            && t.xDim == s.xDim && t.yDim == s.yDim && t.exitX == s.exitX && t.exitY == s.exitY
            && (won ==> Fruited(t.cells) == {} && t.playX == BLOCK * t.exitX && t.playY == BLOCK * t.exitY)
    decreases |keys|
  {
    hide CellsAfter, Ticked, TurnedBack, FollowX, FollowY, Fruited;
    if keys != [] {
      WonAtExit(AfterTick(s, keys[0]).0, keys[1..]);
    }
  }

  /** The neighbour of the player's cell in direction d is no wall. */
  ghost predicate WayOpen(s: Scene, d: int) {
    var i := MazeIndex(s.xDim, s.playX / BLOCK + StepX(d), s.playY / BLOCK + StepY(d));
    0 <= d < DIR_STOP && 0 <= i < |s.cells| && !s.cells[i].wall
  }

  predicate Backward(d: int, e: int) {
    (d, e) in {(DIR_UP, DIR_DOWN), (DIR_DOWN, DIR_UP), (DIR_LEFT, DIR_RIGHT), (DIR_RIGHT, DIR_LEFT)}
  }

  /** The direction that is requested: the last one, until there is a new one. */
  function Wanted(s: Scene, key: int): int {
    if key == DIR_STOP then s.nextDir else key
  }

  /** The player has set out in direction d, and made the first pixel of the way to the next cell. */
  ghost predicate SetsOut(s: Scene, d: int, t: Scene) {
    && t.motion == Motion(d, BLOCK - 1) && t.lastDir == d
    && t.playX == s.playX + StepX(d) && t.playY == s.playY + StepY(d)
  }

  ghost predicate StandsStill(s: Scene, t: Scene) {
    t.motion == Motion(DIR_STOP, 0) && t.lastDir == s.lastDir && t.playX == s.playX && t.playY == s.playY
  }

  /** On a cell: the requested way if it is open; else straight on if that is open and was not just turned away from;
      else the player stops. */
  lemma CellTick(s: Scene, key: int)
    requires s.motion.moves == 0 && !AfterTick(s, key).1
    ensures var t, d := AfterTick(s, key).0, Wanted(s, key);
            && t.nextDir == d
            && (WayOpen(s, d) ==> SetsOut(s, d, t))
            && (!WayOpen(s, d) && WayOpen(s, s.motion.dir) && !Backward(s.motion.dir, d) ==>
                  SetsOut(s, s.motion.dir, t))
            && (!WayOpen(s, d) && (!WayOpen(s, s.motion.dir) || Backward(s.motion.dir, d)) ==> StandsStill(s, t))
  {
    hide MazeIndex, LookedAround, Fruited, FollowX, FollowY;
  }

  /** Between cells: back at once if that is requested, else on. Nothing is seen or eaten, and nothing is won. */
  lemma WayTick(s: Scene, key: int)
    requires 0 < s.motion.moves < BLOCK && 0 <= s.motion.dir < DIR_STOP
    ensures var (t, won) := AfterTick(s, key);
            var d := if Backward(s.motion.dir, Wanted(s, key)) then Wanted(s, key) else s.motion.dir;
            var left := if Backward(s.motion.dir, Wanted(s, key)) then BLOCK - s.motion.moves else s.motion.moves;
            && !won && t.cells == s.cells && t.nextDir == Wanted(s, key)
            && t.motion == Motion(d, left - 1) && t.playX == s.playX + StepX(d) && t.playY == s.playY + StepY(d)
  {
    hide MazeIndex, LookedAround, Fruited, FollowX, FollowY;
  }

  /** A tick wins the level exactly on the exit, when nothing holds a fruit any more but perhaps the player's cell. */
  lemma WinTick(s: Scene, key: int)
    requires 0 <= s.motion.moves < BLOCK
    ensures AfterTick(s, key).1 <==>
            && s.motion.moves == 0 && s.playX == BLOCK * s.exitX && s.playY == BLOCK * s.exitY
            && forall k | 0 <= k < |s.cells| :: s.cells[k].fruit != 0 ==>
                 k == MazeIndex(s.xDim, s.playX / BLOCK, s.playY / BLOCK)
  {
    var x, y := s.playX / BLOCK, s.playY / BLOCK;
    FruitsAround(s.cells, s.xDim, s.yDim, x, y);
    hide MazeIndex, LookedAround, Fruited, FollowX, FollowY, Ticked;
  }

  lemma FruitsAround(c: seq<Cell>, xDim: int, yDim: int, x: int, y: int)
    ensures Fruited(LookedAround(c, xDim, yDim, x, y)) == {} <==>
            forall k | 0 <= k < |c| :: c[k].fruit != 0 ==> k == MazeIndex(xDim, x, y)
  {
    hide MazeIndex, LookedAround, Distance2;
    var d := LookedAround(c, xDim, yDim, x, y);
    LookedAroundSize(c, xDim, yDim, x, y);
    forall k | 0 <= k < |c| ensures d[k].fruit == if k == MazeIndex(xDim, x, y) then 0 else c[k].fruit {
      LookedAroundIs(c, xDim, yDim, x, y, k);
    }
    assert forall k | 0 <= k < |c| :: k in Fruited(d) <==> d[k].fruit != 0;
  }

  /** No way in direction d is open at any cell that the player comes to with these keys. */
  ghost predicate NoWayBefore(s: Scene, d: int, keys: seq<int>) {
    forall j | 0 <= j < |keys| :: ShutAt(AfterKeys(s, keys[..j]), d)
  }

  ghost predicate ShutAt(u: (Scene, bool), d: int) {
    !u.1 && (u.0.motion.moves == 0 ==> !WayOpen(u.0, d))
  }

  /** While a direction stays requested, the player keeps to the old one, or stands, until the first cell where the new
      one is open, and sets out there. */
  lemma {:induction false} HeldRequest(s: Scene, d: int, keys: seq<int>)
    requires 0 <= d < DIR_STOP && (forall k | k in keys :: k == d) && !Backward(s.motion.dir, d)
    requires 0 <= s.motion.moves < BLOCK && 0 <= s.motion.dir <= DIR_STOP
    requires s.motion.moves > 0 ==> s.motion.dir != DIR_STOP
    requires NoWayBefore(s, d, keys)
    ensures var (u, won) := AfterKeys(s, keys);
            && 0 <= u.motion.moves < BLOCK && (u.motion.dir == s.motion.dir || u.motion == Motion(DIR_STOP, 0))
            && (u.motion.moves > 0 ==> u.motion.dir != DIR_STOP)
            && (!won && u.motion.moves == 0 && WayOpen(u, d) ==>
                  var (t, done) := AfterKeys(s, keys + [d]); done || SetsOut(u, d, t))
    decreases |keys|
  {
    hide AfterTick, WayOpen, SetsOut;
    if keys != [] {
      var early := keys[..|keys| - 1];
      assert keys[|keys| - 1] in keys && keys[|keys| - 1] == d;
      assert keys == early + [keys[|keys| - 1]];
      assert forall k | k in early :: k in keys;
      forall j | 0 <= j < |early| ensures ShutAt(AfterKeys(s, early[..j]), d) {
        assert early[..j] == keys[..j];
      }
      HeldRequest(s, d, early);
      KeysJoin(s, early, [d]);
      assert ShutAt(AfterKeys(s, keys[..|early|]), d) && keys[..|early|] == early;
      HeldTick(s.motion.dir, AfterKeys(s, early).0, d);
    }
    var u := AfterKeys(s, keys).0;
    KeysJoin(s, keys, [d]);
    OneKey(u, d);
    if u.motion.moves == 0 && !AfterTick(u, d).1 {
      CellTick(u, d);
    }
  }

  lemma OneKey(s: Scene, key: int)
    ensures AfterKeys(s, [key]) == AfterTick(s, key)
  {
    hide AfterTick;
    assert [key][1..] == [];
  }

  lemma HeldTick(dir: int, u: Scene, d: int)
    requires 0 <= d < DIR_STOP && 0 <= dir <= DIR_STOP && !Backward(dir, d) && 0 <= u.motion.moves < BLOCK
    requires u.motion.dir == dir || u.motion == Motion(DIR_STOP, 0)
    requires u.motion.moves > 0 ==> u.motion.dir != DIR_STOP
    requires u.motion.moves == 0 ==> !WayOpen(u, d)
    ensures var t := AfterKeys(u, [d]).0;
            && 0 <= t.motion.moves < BLOCK && (t.motion.dir == dir || t.motion == Motion(DIR_STOP, 0))
            && (t.motion.moves > 0 ==> t.motion.dir != DIR_STOP)
  {
    OneKey(u, d);
    if u.motion.moves > 0 {
      WayTick(u, d);
    } else if !AfterTick(u, d).1 {
      CellTick(u, d);
    } else {
      WonTick(u, d);
    }
    hide AfterTick, WayOpen;
  }

  /** The tick that wins a level leaves the player where it is. */
  lemma WonTick(s: Scene, key: int)
    requires AfterTick(s, key).1 && 0 <= s.motion.moves < BLOCK
    ensures var t := AfterTick(s, key).0;
            && t.playX == s.playX && t.playY == s.playY && s.motion.moves == 0
            && t.motion == Motion(if Backward(s.motion.dir, Wanted(s, key)) then Wanted(s, key) else s.motion.dir, 0)
  {
    hide MazeIndex, LookedAround, Fruited, FollowX, FollowY, Ticked;
  }

  /** The size of a level's maze, and its number of fruits (prepare_maze_level). */
  function LevelDim(least: int, most: int, level: int): int {
    if least + 2 * (level - 1) > most then most else least + 2 * (level - 1)
  }

  function LevelFruits(level: int): int {
    if 1 + (level - 1) / 2 > 6 then 6 else 1 + (level - 1) / 2
  }

  function LevelX(level: int): int {
    LevelDim(MAZE_MIN_X_DIM, MAZE_MAX_X_DIM, level)
  }

  function LevelY(level: int): int {
    LevelDim(MAZE_MIN_Y_DIM, MAZE_MAX_Y_DIM, level)
  }

  /** Mazes grow by two cells a level in both directions, from the least size to the most, and fruits by one every two
      levels, from one to six. */
  lemma Levels(level: int)
    requires 1 <= level
    ensures GoodDims(LevelX(level), LevelY(level))
    ensures LevelX(1) == MAZE_MIN_X_DIM && LevelY(1) == MAZE_MIN_Y_DIM && LevelFruits(1) == 1 && LevelFruits(2) == 1
    ensures LevelX(level + 1) == if LevelX(level) + 2 <= MAZE_MAX_X_DIM then LevelX(level) + 2 else MAZE_MAX_X_DIM
    ensures LevelY(level + 1) == if LevelY(level) + 2 <= MAZE_MAX_Y_DIM then LevelY(level) + 2 else MAZE_MAX_Y_DIM
    ensures LevelFruits(level + 2) == if LevelFruits(level) < 6 then LevelFruits(level) + 1 else 6
  {
  }

  /** So every level has room for its fruits and the exit. */
  lemma FruitsFit(level: int)
    requires 1 <= level
    ensures LevelFruits(level) < LevelX(level) * LevelY(level)
  {
    var x, y := LevelX(level), LevelY(level);
    assert MAZE_MIN_X_DIM <= x && MAZE_MIN_Y_DIM <= y;
    hide LevelX, LevelY;
    MulLe(MAZE_MIN_X_DIM, x, y);
  }

  /** A maze as it is made for a level. */
  ghost predicate Fresh(c: seq<Cell>, level: int, exitX: int, exitY: int) {
    && Playable(c, LevelX(level), LevelY(level), LevelFruits(level), exitX, exitY)
    && forall i | 0 <= i < |c| :: !c[i].reach && (c[i].exit ==> c[i].fruit == 0)
  }

  /** The scene at the start of a level: the player at (1,1), who has looked around, and no direction yet. */
  ghost function Start(c: seq<Cell>, level: int, exitX: int, exitY: int): Scene {
    Scene(LookedAround(c, LevelX(level), LevelY(level), 1, 1), LevelX(level), LevelY(level), exitX, exitY, SHOW_MIN,
          SHOW_MIN, BLOCK, BLOCK, Motion(DIR_STOP, 0), DIR_UP, DIR_STOP)
  }

  ghost predicate Entered(s: Scene, level: int) {
    exists c :: Fresh(c, level, s.exitX, s.exitY) && s == Start(c, level, s.exitX, s.exitY)
  }
}
