/** The worm phase of make_maze (MP2/maze.c) as a function of the random values, and why it can always be finished. */
module MazeWorms {
  import opened MazeCells
  import opened MazeDig
  import opened MazeDraw

  /** The maze and the point at which a worm stopped and the values left, unless there were not enough of them. */
  datatype WormEnd = Lost | Ended(cells: seq<Cell>, x: int, y: int, rest: seq<nat>)

  /** The direction in whose share of the weights the random value falls. */
  function Turn(c: seq<Cell>, xDim: int, yDim: int, x: int, y: int, prefDir: int, draw: nat): (dir: int)
    requires 0 <= prefDir < 4
    ensures 0 <= dir < 4
  {
    var total := WeightBefore(c, xDim, yDim, x, y, prefDir, 4);
    var pick := if total > 0 then RandomBelow(draw, total) else 0;
    if pick < WeightBefore(c, xDim, yDim, x, y, prefDir, 1) then 0
    else if pick < WeightBefore(c, xDim, yDim, x, y, prefDir, 2) then 1
    else if pick < WeightBefore(c, xDim, yDim, x, y, prefDir, 3) then 2
    else 3
  }

  lemma TurnIs(c: seq<Cell>, xDim: int, yDim: int, x: int, y: int, prefDir: int, draw: nat, dir: nat)
    requires 0 <= prefDir < 4 && dir < 4 && 0 < WeightBefore(c, xDim, yDim, x, y, prefDir, 4)
    requires var pick := RandomBelow(draw, WeightBefore(c, xDim, yDim, x, y, prefDir, 4));
             && WeightBefore(c, xDim, yDim, x, y, prefDir, dir) <= pick
             && pick < WeightBefore(c, xDim, yDim, x, y, prefDir, dir + 1)
    ensures Turn(c, xDim, yDim, x, y, prefDir, draw) == dir
  {
    hide WeightBefore, Weight, RandomBelow;
    WeightsGrow(c, xDim, yDim, x, y, prefDir);
  }

  lemma WeightsGrow(c: seq<Cell>, xDim: int, yDim: int, x: int, y: int, prefDir: int)
    requires 0 <= prefDir < 4
    ensures forall k: nat | k < 4 ::
              WeightBefore(c, xDim, yDim, x, y, prefDir, k) <= WeightBefore(c, xDim, yDim, x, y, prefDir, k + 1)
    ensures WeightBefore(c, xDim, yDim, x, y, prefDir, 0) == 0
    ensures WeightBefore(c, xDim, yDim, x, y, prefDir, 1) <= WeightBefore(c, xDim, yDim, x, y, prefDir, 2)
    ensures WeightBefore(c, xDim, yDim, x, y, prefDir, 2) <= WeightBefore(c, xDim, yDim, x, y, prefDir, 3)
    ensures WeightBefore(c, xDim, yDim, x, y, prefDir, 3) <= WeightBefore(c, xDim, yDim, x, y, prefDir, 4)
  {
    hide Weight;
    assert forall k: nat | k < 4 :: 0 <= Weight(c, xDim, yDim, x, y, prefDir, k);
  }

  /** The maze after a worm at (x,y) has moved: the cell in between and the next point are open. */
  function Bitten(c: seq<Cell>, xDim: int, x: int, y: int, dir: int): seq<Cell> {
    var e, t := MazeIndex(xDim, x + StepX(dir), y + StepY(dir)),
        MazeIndex(xDim, x + 2 * StepX(dir), y + 2 * StepY(dir));
    if 0 <= e < |c| && 0 <= t < |c| then c[e := NONE][t := NONE] else c
  }

  /** A worm at (x,y) that came in direction prefDir moves until it turns back. */
  function Worm(c: seq<Cell>, xDim: int, yDim: int, x: int, y: int, prefDir: int, tape: seq<nat>): (w: WormEnd)
    requires 0 <= prefDir < 4
    ensures w.Ended? ==> |w.rest| < |tape|
    decreases |tape|
  {
    if tape == [] then Lost
    else
      var dir := Turn(c, xDim, yDim, x, y, prefDir, tape[0]);
      if (dir - prefDir + 4) % 4 == 2 then Ended(c, x, y, tape[1..])
      else Worm(Bitten(c, xDim, x, y, dir), xDim, yDim, x + 2 * StepX(dir), y + 2 * StepY(dir), dir, tape[1..])
  }

  /** Exactly the two cells of a move become open floor. */
  lemma BittenIs(c: seq<Cell>, xDim: int, x: int, y: int, dir: int, k: int)
    requires 0 <= k < |c|
    requires 0 <= MazeIndex(xDim, x + StepX(dir), y + StepY(dir)) < |c|
    requires 0 <= MazeIndex(xDim, x + 2 * StepX(dir), y + 2 * StepY(dir)) < |c|
    ensures |Bitten(c, xDim, x, y, dir)| == |c|
    ensures Bitten(c, xDim, x, y, dir)[k] ==
            if k == MazeIndex(xDim, x + StepX(dir), y + StepY(dir))
                || k == MazeIndex(xDim, x + 2 * StepX(dir), y + 2 * StepY(dir)) then NONE else c[k]
  {
    hide MazeIndex;
  }

  /** Where moves lead from (x,y), two cells each. */
  function PathX(x: int, dirs: seq<int>): int {
    if dirs == [] then x else PathX(x, dirs[..|dirs| - 1]) + 2 * StepX(dirs[|dirs| - 1])
  }

  function PathY(y: int, dirs: seq<int>): int {
    if dirs == [] then y else PathY(y, dirs[..|dirs| - 1]) + 2 * StepY(dirs[|dirs| - 1])
  }

  /** What the moves make of the maze. */
  function Trail(c: seq<Cell>, xDim: int, x: int, y: int, dirs: seq<int>): seq<Cell> {
    if dirs == [] then c
    else
      var early := dirs[..|dirs| - 1];
      Bitten(Trail(c, xDim, x, y, early), xDim, PathX(x, early), PathY(y, early), dirs[|dirs| - 1])
  }

  /** The direction that the k-th one is chosen against: the one before, or the first one given. */
  function Facing(dir0: int, dirs: seq<int>, k: nat): int
    requires k <= |dirs|
  {
    if k == 0 then dir0 else dirs[k - 1]
  }

  /** The random value falls into the share that the direction has of the weights at (x,y). */
  ghost predicate InShare(c: seq<Cell>, xDim: int, yDim: int, x: int, y: int, facing: int, draw: nat, dir: int) {
    && 0 <= facing < 4 && 0 <= dir < 4 && 0 < WeightBefore(c, xDim, yDim, x, y, facing, 4)
    && var pick := draw % WeightBefore(c, xDim, yDim, x, y, facing, 4);
       WeightBefore(c, xDim, yDim, x, y, facing, dir) <= pick < WeightBefore(c, xDim, yDim, x, y, facing, dir + 1)
  }

  /** Each of the directions has drawn the value of its place, facing the direction before it, at the point and in the
      maze that the earlier ones led to. */
  ghost predicate Drawn(c: seq<Cell>, xDim: int, yDim: int, x: int, y: int, dir0: int, tape: seq<nat>,
                        dirs: seq<int>) {
    && |dirs| <= |tape|
    && forall k | 0 <= k < |dirs| :: DrawnAt(c, xDim, yDim, x, y, dir0, tape, dirs, k)
  }

  ghost predicate DrawnAt(c: seq<Cell>, xDim: int, yDim: int, x: int, y: int, dir0: int, tape: seq<nat>,
                          dirs: seq<int>, k: int)
    requires |dirs| <= |tape| && 0 <= k < |dirs|
  {
    var early := dirs[..k];
    InShare(Trail(c, xDim, x, y, early), xDim, yDim, PathX(x, early), PathY(y, early), Facing(dir0, dirs, k), tape[k],
        dirs[k])
  }

  /** None of the first n directions leads back. */
  predicate Onward(dir0: int, dirs: seq<int>, n: nat)
    requires n <= |dirs|
  {
    forall k | 0 <= k < n :: !Opposed(Facing(dir0, dirs, k), dirs[k])
  }

  /** What a whole worm does, from (x,y) to (x',y'): it goes on in drawn directions until it would turn back; or the
      random values run out before it does. */
  ghost predicate Wandered(c: seq<Cell>, xDim: int, yDim: int, x: int, y: int, dir0: int, tape: seq<nat>,
                           dirs: seq<int>, ok: bool, c': seq<Cell>, x': int, y': int, rest: seq<nat>) {
    && Drawn(c, xDim, yDim, x, y, dir0, tape, dirs)
    && (if !ok then |dirs| == |tape| && Onward(dir0, dirs, |dirs|)
        else
          && dirs != [] && Onward(dir0, dirs, |dirs| - 1)
          && Opposed(Facing(dir0, dirs, |dirs| - 1), dirs[|dirs| - 1])
          && var moves := dirs[..|dirs| - 1];
             && c' == Trail(c, xDim, x, y, moves) && x' == PathX(x, moves) && y' == PathY(y, moves)
             && rest == tape[|dirs|..])
  }

  lemma NothingDrawn(c: seq<Cell>, xDim: int, yDim: int, x: int, y: int, dir0: int, tape: seq<nat>)
    ensures Drawn(c, xDim, yDim, x, y, dir0, tape, []) && Onward(dir0, [], 0) && Facing(dir0, [], 0) == dir0
    ensures Trail(c, xDim, x, y, []) == c && PathX(x, []) == x && PathY(y, []) == y
  {
  }

  /** One direction more. */
  lemma OneDrawn(c: seq<Cell>, xDim: int, yDim: int, x: int, y: int, dir0: int, tape: seq<nat>, dirs: seq<int>,
      dir: int)
    requires Drawn(c, xDim, yDim, x, y, dir0, tape, dirs) && Onward(dir0, dirs, |dirs|) && |dirs| < |tape|
    requires InShare(Trail(c, xDim, x, y, dirs), xDim, yDim, PathX(x, dirs), PathY(y, dirs),
                     Facing(dir0, dirs, |dirs|), tape[|dirs|], dir)
    ensures var more := dirs + [dir];
            && Drawn(c, xDim, yDim, x, y, dir0, tape, more) && Onward(dir0, more, |dirs|)
            && more[..|dirs|] == dirs && more[|dirs|] == dir && Facing(dir0, more, |dirs|) == Facing(dir0, dirs, |dirs|)
            && Facing(dir0, more, |more|) == dir
            && (!Opposed(Facing(dir0, dirs, |dirs|), dir) ==> Onward(dir0, more, |more|))
            && Trail(c, xDim, x, y, more)
               == Bitten(Trail(c, xDim, x, y, dirs), xDim, PathX(x, dirs), PathY(y, dirs), dir)
            && PathX(x, more) == PathX(x, dirs) + 2 * StepX(dir) && PathY(y, more) == PathY(y, dirs) + 2 * StepY(dir)
  {
    hide InShare, Bitten, Opposed;
    var more := dirs + [dir];
    assert more[..|dirs|] == dirs;
    forall k | 0 <= k < |more| ensures DrawnAt(c, xDim, yDim, x, y, dir0, tape, more, k) {
      if k < |dirs| {
        assert more[..k] == dirs[..k] && DrawnAt(c, xDim, yDim, x, y, dir0, tape, dirs, k);
      }
    }
    forall k | 0 <= k < |dirs| ensures !Opposed(Facing(dir0, more, k), more[k]) {
      assert Facing(dir0, more, k) == Facing(dir0, dirs, k);
    }
  }

  /** How far a worm has come, without leading back. */
  ghost predicate Along(c: seq<Cell>, xDim: int, yDim: int, x0: int, y0: int, dir0: int, tape: seq<nat>,
                        dirs: seq<int>, c': seq<Cell>, x: int, y: int, facing: int, rest: seq<nat>) {
    && Drawn(c, xDim, yDim, x0, y0, dir0, tape, dirs) && Onward(dir0, dirs, |dirs|)
    && c' == Trail(c, xDim, x0, y0, dirs) && x == PathX(x0, dirs) && y == PathY(y0, dirs)
    && facing == Facing(dir0, dirs, |dirs|) && |dirs| <= |tape| && rest == tape[|dirs|..]
  }

  lemma AlongStart(c: seq<Cell>, xDim: int, yDim: int, x: int, y: int, dir: int, tape: seq<nat>)
    ensures Along(c, xDim, yDim, x, y, dir, tape, [], c, x, y, dir, tape)
  {
    NothingDrawn(c, xDim, yDim, x, y, dir, tape);
  }

  /** The next direction leads on, or back and to the end. */
  lemma AlongMore(c: seq<Cell>, xDim: int, yDim: int, x0: int, y0: int, dir0: int, tape: seq<nat>,
      dirs: seq<int>, c': seq<Cell>, x: int, y: int, facing: int, rest: seq<nat>, dir: int)
    requires Along(c, xDim, yDim, x0, y0, dir0, tape, dirs, c', x, y, facing, rest) && rest != []
    requires InShare(c', xDim, yDim, x, y, facing, rest[0], dir)
    ensures if Opposed(facing, dir)
            then Wandered(c, xDim, yDim, x0, y0, dir0, tape, dirs + [dir], true, c', x, y, rest[1..])
            else Along(c, xDim, yDim, x0, y0, dir0, tape, dirs + [dir], Bitten(c', xDim, x, y, dir),
                       x + 2 * StepX(dir), y + 2 * StepY(dir), dir, rest[1..])
  {
    hide InShare, Bitten, Opposed, Drawn, Onward, Trail, PathX, PathY, Facing;
    OneDrawn(c, xDim, yDim, x0, y0, dir0, tape, dirs, dir);
  }

  lemma AlongOut(c: seq<Cell>, xDim: int, yDim: int, x0: int, y0: int, dir0: int, tape: seq<nat>,
      dirs: seq<int>, c': seq<Cell>, x: int, y: int, facing: int)
    requires Along(c, xDim, yDim, x0, y0, dir0, tape, dirs, c', x, y, facing, [])
    ensures forall d: seq<Cell>, a, b, rest: seq<nat> ::
              Wandered(c, xDim, yDim, x0, y0, dir0, tape, dirs, false, d, a, b, rest)
  {
    hide Drawn, Onward, Trail, PathX, PathY, Facing;
  }

  /** The function of the worm, one value further on. */
  lemma WormOn(c: seq<Cell>, xDim: int, yDim: int, x: int, y: int, prefDir: int, tape: seq<nat>)
    requires 0 <= prefDir < 4
    ensures Worm(c, xDim, yDim, x, y, prefDir, tape) ==
            if tape == [] then Lost
            else
              var dir := Turn(c, xDim, yDim, x, y, prefDir, tape[0]);
              if Opposed(prefDir, dir) then Ended(c, x, y, tape[1..])
              else Worm(Bitten(c, xDim, x, y, dir), xDim, yDim, x + 2 * StepX(dir), y + 2 * StepY(dir), dir, tape[1..])
  {
    hide Turn, Bitten;
  }

  lemma TurnedBackIs(d: int, e: int)
    requires 0 <= d < 4 && 0 <= e < 4
    ensures Opposed(d, e) <==> (e - d + 4) % 4 == 2
  {
  }

  /** Where a worm starts and which way it faces, and which pair of random values named the point. */
  datatype WormStart = WormStart(pair: nat, x: int, y: int, dir: int)

  /** The point is the first one that a pair of values names and that is still walled; the next value says which way the
      worm faces. */
  ghost predicate StartsAt(c: seq<Cell>, xDim: int, yDim: int, tape: seq<nat>, s: WormStart)
    requires 0 < xDim && 0 < yDim
  {
    && 2 * s.pair + 2 < |tape|
    && (forall j | 0 <= j < s.pair :: NamesBad(tape, xDim, yDim, OpenCells(c), j))
    && !NamesBad(tape, xDim, yDim, OpenCells(c), s.pair)
    && s.x == tape[2 * s.pair] % xDim * 2 + 1 && s.y == tape[2 * s.pair + 1] % yDim * 2 + 1
    && s.dir == tape[2 * s.pair + 2] % 4
  }

  /** A worm: where it started, how it went, the maze and the point it left, and the values behind it. */
  datatype WormRun = WormRun(start: WormStart, dirs: seq<int>, cells: seq<Cell>, x: int, y: int, rest: seq<nat>)

  ghost predicate RunFrom(c: seq<Cell>, xDim: int, yDim: int, tape: seq<nat>, run: WormRun)
    requires 0 < xDim && 0 < yDim
  {
    var i := MazeIndex(xDim, run.start.x, run.start.y);
    && StartsAt(c, xDim, yDim, tape, run.start) && 0 <= i < |c|
    && Wandered(c[i := NONE], xDim, yDim, run.start.x, run.start.y, run.start.dir, tape[2 * run.start.pair + 3..],
                run.dirs, true, run.cells, run.x, run.y, run.rest)
  }

  /** One worm after another, each while some point is still walled. */
  ghost predicate Chain(c: seq<Cell>, xDim: int, yDim: int, tape: seq<nat>, runs: seq<WormRun>)
    requires 0 < xDim && 0 < yDim
  {
    forall k | 0 <= k < |runs| :: ChainAt(c, xDim, yDim, tape, runs, k)
  }

  ghost predicate ChainAt(c: seq<Cell>, xDim: int, yDim: int, tape: seq<nat>, runs: seq<WormRun>, k: nat)
    requires 0 < xDim && 0 < yDim && k < |runs|
  {
    && RunFrom(CellsBefore(c, runs, k), xDim, yDim, TapeBefore(tape, runs, k), runs[k])
    && Walled(CellsBefore(c, runs, k), xDim, yDim) != {}
  }

  function CellsBefore(c: seq<Cell>, runs: seq<WormRun>, k: nat): seq<Cell>
    requires k <= |runs|
  {
    if k == 0 then c else runs[k - 1].cells
  }

  function TapeBefore(tape: seq<nat>, runs: seq<WormRun>, k: nat): seq<nat>
    requires k <= |runs|
  {
    if k == 0 then tape else runs[k - 1].rest
  }

  lemma NoRuns(c: seq<Cell>, xDim: int, yDim: int, tape: seq<nat>)
    requires 0 < xDim && 0 < yDim
    ensures Chain(c, xDim, yDim, tape, []) && CellsBefore(c, [], 0) == c && TapeBefore(tape, [], 0) == tape
  {
  }

  lemma OneRunMore(c: seq<Cell>, xDim: int, yDim: int, tape: seq<nat>, runs: seq<WormRun>, run: WormRun)
    requires 0 < xDim && 0 < yDim && Chain(c, xDim, yDim, tape, runs)
    requires RunFrom(CellsBefore(c, runs, |runs|), xDim, yDim, TapeBefore(tape, runs, |runs|), run)
    requires Walled(CellsBefore(c, runs, |runs|), xDim, yDim) != {}
    ensures Chain(c, xDim, yDim, tape, runs + [run])
    ensures CellsBefore(c, runs + [run], |runs| + 1) == run.cells
  {
    hide RunFrom, Walled, CellsBefore, TapeBefore;
    var more := runs + [run];
    forall k | 0 <= k < |more| ensures ChainAt(c, xDim, yDim, tape, more, k) {
      SameBefore(c, tape, runs, run, k);
      if k < |runs| {
        assert ChainAt(c, xDim, yDim, tape, runs, k);
      }
    }
    LastBefore(c, runs, run);
  }

  lemma SameBefore(c: seq<Cell>, tape: seq<nat>, runs: seq<WormRun>, run: WormRun, k: nat)
    requires k <= |runs|
    ensures CellsBefore(c, runs + [run], k) == CellsBefore(c, runs, k)
    ensures TapeBefore(tape, runs + [run], k) == TapeBefore(tape, runs, k)
  {
  }

  lemma LastBefore(c: seq<Cell>, runs: seq<WormRun>, run: WormRun)
    ensures CellsBefore(c, runs + [run], |runs| + 1) == run.cells
  {
  }

  lemma StartIs(c: seq<Cell>, xDim: int, yDim: int, tape: seq<nat>) returns (s: WormStart)
    requires 0 < xDim && 0 < yDim
    requires var d := DrawGood(tape, xDim, yDim, OpenCells(c)); d.Point? && d.rest != []
    ensures StartsAt(c, xDim, yDim, tape, s)
    ensures var d := DrawGood(tape, xDim, yDim, OpenCells(c));
            && s.x == d.x && s.y == d.y && d.rest[1..] == tape[2 * s.pair + 3..] && s.dir == RandomBelow(d.rest[0], 4)
  {
    hide NamesBad, OpenCells, DrawGood;
    var d := DrawGood(tape, xDim, yDim, OpenCells(c));
    var k := FirstGood(tape, xDim, yDim, OpenCells(c));
    s := WormStart(k, d.x, d.y, RandomBelow(d.rest[0], 4));
  }

  /** A worm from the first drawn point that is still walled. */
  ghost function NewWorm(c: seq<Cell>, xDim: int, yDim: int, tape: seq<nat>): (w: WormEnd)
    requires 0 < xDim && 0 < yDim
    ensures w.Ended? ==> |w.rest| < |tape|
  {
    var d := DrawGood(tape, xDim, yDim, OpenCells(c));
    if d.NoDraw? || d.rest == [] then Lost
    else
      var i := MazeIndex(xDim, d.x, d.y);
      Worm(if 0 <= i < |c| then c[i := NONE] else c, xDim, yDim, d.x, d.y, RandomBelow(d.rest[0], 4), d.rest[1..])
  }

  /** Worms until no lattice point is walled. */
  ghost function Worms(c: seq<Cell>, xDim: int, yDim: int, x: int, y: int, tape: seq<nat>): WormEnd
    requires 0 < xDim && 0 < yDim
    decreases |tape|
  {
    if Walled(c, xDim, yDim) == {} then Ended(c, x, y, tape)
    else
      var w := NewWorm(c, xDim, yDim, tape);
      if w.Lost? then Lost else Worms(w.cells, xDim, yDim, w.x, w.y, w.rest)
  }

  /** Four values that make a worm dig out a walled point and turn back there at once. */
  lemma ShortWorm(c: seq<Cell>, xDim: int, yDim: int, x: int, y: int, g: seq<nat>) returns (t: seq<nat>)
    requires GoodDims(xDim, yDim) && |c| == MAZE_SIZE && IsLatticePoint(xDim, yDim, x, y)
    requires 0 <= MazeIndex(xDim, x, y) < |c| && c[MazeIndex(xDim, x, y)].wall
    ensures NewWorm(c, xDim, yDim, t) == Ended(c[MazeIndex(xDim, x, y) := NONE], x, y, g)
  {
    hide MazeIndex, RandomBelow, IsLatticePoint, Turn, Bitten;
    var e := c[MazeIndex(xDim, x, y) := NONE];
    Halves(xDim, yDim, x, y);
    var prefDir: int, back: nat := if y > 1 then 2 else 0, if y > 1 then 0 else 2;
    var draw := TurnsBack(e, xDim, yDim, x, y, prefDir, back);
    t := [x / 2, y / 2, prefDir, draw] + g;
    Exactly(x / 2, xDim);
    Exactly(y / 2, yDim);
    Exactly(prefDir, 4);
    assert t[2..][0] == prefDir && t[2..][1..] == [draw] + g && ([draw] + g)[1..] == g;
    assert DrawGood(t, xDim, yDim, OpenCells(c)) == Point(x, y, t[2..]);
  }

  /** Some value makes a worm turn that way. */
  lemma TurnsBack(c: seq<Cell>, xDim: int, yDim: int, x: int, y: int, prefDir: int, back: nat) returns (draw: nat)
    requires GoodDims(xDim, yDim) && |c| == MAZE_SIZE && IsLatticePoint(xDim, yDim, x, y)
    requires (y > 1 && prefDir == 2 && back == 0) || (y == 1 && prefDir == 0 && back == 2)
    ensures Turn(c, xDim, yDim, x, y, prefDir, draw) == back
  {
    hide MazeIndex, WeightBefore, Weight, TurnWeight, RandomBelow;
    BackWeight(c, xDim, yDim, x, y, prefDir, back);
    draw := WeightBefore(c, xDim, yDim, x, y, prefDir, back);
    Exactly(draw, WeightBefore(c, xDim, yDim, x, y, prefDir, 4));
  }

  lemma Halves(xDim: int, yDim: int, x: int, y: int)
    requires IsLatticePoint(xDim, yDim, x, y)
    ensures 0 <= x / 2 < xDim && x / 2 * 2 + 1 == x && 0 <= y / 2 < yDim && y / 2 * 2 + 1 == y && 1 <= y
  {
  }

  lemma Exactly(a: nat, n: int)
    requires a < n
    ensures RandomBelow(a, n) == a
  {
  }

  /** Straight up from below the top row, or straight down from it, has a share of the weights. */
  lemma BackWeight(c: seq<Cell>, xDim: int, yDim: int, x: int, y: int, prefDir: int, back: nat)
    requires GoodDims(xDim, yDim) && IsLatticePoint(xDim, yDim, x, y)
    requires (y > 1 && prefDir == 2 && back == 0) || (y == 1 && prefDir == 0 && back == 2)
    ensures 0 <= WeightBefore(c, xDim, yDim, x, y, prefDir, 0) <= WeightBefore(c, xDim, yDim, x, y, prefDir, 1)
    ensures WeightBefore(c, xDim, yDim, x, y, prefDir, 1) <= WeightBefore(c, xDim, yDim, x, y, prefDir, 2)
    ensures WeightBefore(c, xDim, yDim, x, y, prefDir, 2) <= WeightBefore(c, xDim, yDim, x, y, prefDir, 3)
    ensures WeightBefore(c, xDim, yDim, x, y, prefDir, 3) <= WeightBefore(c, xDim, yDim, x, y, prefDir, 4)
    ensures WeightBefore(c, xDim, yDim, x, y, prefDir, back) < WeightBefore(c, xDim, yDim, x, y, prefDir, back + 1)
  {
    hide MazeIndex, TurnWeight, Weight;
    forall k: nat | k < 4
      ensures WeightBefore(c, xDim, yDim, x, y, prefDir, k) <= WeightBefore(c, xDim, yDim, x, y, prefDir, k + 1)
    {
      assert 0 <= Weight(c, xDim, yDim, x, y, prefDir, k);
    }
    assert 0 < Weight(c, xDim, yDim, x, y, prefDir, back);
  }

  /** From whatever worms have dug, some values finish the phase, with as many left over as one likes. */
  lemma {:induction false} WormsTape(c: seq<Cell>, xDim: int, yDim: int, x: int, y: int, g: seq<nat>)
    returns (t: seq<nat>)
    requires Dug(c, xDim, yDim)
    ensures var w := Worms(c, xDim, yDim, x, y, t); w.Ended? && w.rest == g
    decreases |Walled(c, xDim, yDim)|
  {
    hide Dug, Lattice, MazeIndex, NewWorm;
    DugDims(c, xDim, yDim);
    if Walled(c, xDim, yDim) == {} {
      t := g;
    } else {
      var i, px, py := WalledPoint(c, xDim, yDim);
      DigPoint(c, xDim, yDim, i);
      WalledSize(c, xDim, yDim, i);
      var later := WormsTape(c[i := NONE], xDim, yDim, px, py, g);
      t := ShortWorm(c, xDim, yDim, px, py, later);
    }
  }

  lemma WalledPoint(c: seq<Cell>, xDim: int, yDim: int) returns (i: int, x: int, y: int)
    requires Walled(c, xDim, yDim) != {}
    ensures IsLatticePoint(xDim, yDim, x, y) && i == MazeIndex(xDim, x, y) && i in Walled(c, xDim, yDim)
    ensures 0 <= i < |c| && c[i].wall && i in Lattice(xDim, yDim)
  {
    hide MazeIndex;
    i :| i in Walled(c, xDim, yDim);
    x, y :| 0 <= x < 2 * xDim && 0 <= y < 2 * yDim && x % 2 == 1 && y % 2 == 1 && MazeIndex(xDim, x, y) == i;
  }
}
