/** MP2/maze.c: the maze array and the operations that build, search and read it. */
module MazeModel {
  import opened Common
  import opened MazeCells
  import opened MazeGraph
  import opened MazeSearch
  import opened MazeDig
  import opened MazeDraw
  import opened MazeWorms
  import opened MazeTape
  import opened MazeScan
  import opened MazeRepair
  import opened MazePlay
  import opened MazeSupply
  import opened MazeRender

  /** The outcomes of make_maze: 0, -1, or a random sequence too short to finish. */
  datatype Built = Made | BadSize | Starved

  class Maze {
    const blocks: seq<seq<byte>>
    const cells: array<Cell>
    var xDim: int
    var yDim: int
    var nFruits: int
    var exitX: int
    var exitY: int

    /** The game's blocks, and a maze array with no maze in it yet. */
    constructor (blocks: seq<seq<byte>>)
      ensures this.blocks == blocks && cells.Length == MAZE_SIZE && fresh(cells)
    {
      this.blocks := blocks;
      cells := new Cell[MAZE_SIZE](_ => NONE);
      xDim, yDim, nFruits, exitX, exitY := 0, 0, 0, 0, 0;
    }

    /** One direction of the search: a lattice point two cells away, unmarked and not
        walled off, is marked and queued. */
    method Explore(cur: int, d: int, q: array<int>, qEnd: int,
                   ghost c0: seq<Cell>, ghost s: int, ghost seen: set<int>)
      returns (end: int, ghost found: set<int>)
      requires q.Length == QUEUE_SIZE && 0 <= qEnd <= q.Length
      requires Searching(c0, xDim, yDim, s, seen, q[..qEnd]) && cells[..] == WithMarks(c0, seen)
      requires cur in seen && Direction(2 * xDim, d)
      modifies cells, q
      ensures qEnd <= end <= q.Length && seen <= found
      ensures q[..end] == old(q[..qEnd]) || q[..end] == old(q[..qEnd]) + [cur + 2 * d]
      ensures Searching(c0, xDim, yDim, s, found, q[..end]) && cells[..] == WithMarks(c0, found)
      ensures LookedAt(c0, xDim, yDim, cur, d, found)
      ensures forall done :: Explored(c0, xDim, yDim, done, seen) ==> Explored(c0, xDim, yDim, done, found)
      ensures forall i, e :: LookedAt(c0, xDim, yDim, i, e, seen) ==> LookedAt(c0, xDim, yDim, i, e, found)
    {
      hide Searching, WithMarks, Area, Lattice, Marked, Edge, Explored, Passage, LookedAt, Direction;
      LookAround(c0, xDim, yDim, s, seen, q[..qEnd], cur, d);
      end, found := qEnd, seen;
      if !cells[cur + d].wall && !cells[cur + 2 * d].reach {
        SearchMore(c0, xDim, yDim, s, seen, q[..qEnd], cur, cur + 2 * d);
        MarkOne(c0, seen, cur + 2 * d);
        cells[cur + 2 * d] := cells[cur + 2 * d].(reach := true);
        q[qEnd] := cur + 2 * d;
        end, found := qEnd + 1, seen + {cur + 2 * d};
        assert q[..end] == old(q[..qEnd]) + [cur + 2 * d];
      }
      MoreSeen(c0, xDim, yDim, seen, found);
      LookedThere(c0, xDim, yDim, cur, d, found);
    }

    /** All four directions from the lattice point at the front of the queue. */
    method ExploreAround(cur: int, q: array<int>, qEnd: int,
                         ghost c0: seq<Cell>, ghost s: int, ghost seen: set<int>, ghost done: set<int>)
      returns (end: int, ghost found: set<int>)
      requires q.Length == QUEUE_SIZE && 0 <= qEnd <= q.Length
      requires Searching(c0, xDim, yDim, s, seen, q[..qEnd]) && cells[..] == WithMarks(c0, seen)
      requires cur in seen && Explored(c0, xDim, yDim, done, seen)
      modifies cells, q
      ensures qEnd <= end <= q.Length && seen <= found && old(q[..qEnd]) <= q[..end]
      ensures Searching(c0, xDim, yDim, s, found, q[..end]) && cells[..] == WithMarks(c0, found)
      ensures Explored(c0, xDim, yDim, done + {cur}, found)
    {
      hide Searching, WithMarks, Explored, LookedAt;
      end, found := Explore(cur, -2 * xDim, q, qEnd, c0, s, seen);
      end, found := Explore(cur, 1, q, end, c0, s, found);
      end, found := Explore(cur, 2 * xDim, q, end, c0, s, found);
      end, found := Explore(cur, -1, q, end, c0, s, found);
      LookedAllAround(c0, xDim, yDim, cur, done, found);
    }

    /** mark_maze_area: breadth-first search from (x,y). */
    method MarkMazeArea(x: int, y: int) returns (n: int)
      requires Bordered(cells[..], xDim, yDim)
      requires MazeIndex(xDim, x, y) in Lattice(xDim, yDim) - Marked(cells[..], xDim, yDim)
      modifies cells
      ensures cells[..] ==
              WithMarks(old(cells[..]),
                  Area(old(cells[..]), xDim, yDim, Marked(old(cells[..]), xDim, yDim), MazeIndex(xDim, x, y)))
      ensures n == |Area(old(cells[..]), xDim, yDim, Marked(old(cells[..]), xDim, yDim), MazeIndex(xDim, x, y))|
    {
      hide Searching, WithMarks, Area, Lattice, Marked, Explored, Bordered, Entries;
      ghost var c0 := cells[..];
      var q := new int[QUEUE_SIZE];
      var s := MazeIndex(xDim, x, y);
      SearchStart(c0, xDim, yDim, s);
      q[0] := s;
      cells[s] := cells[s].(reach := true);
      var qStart, qEnd := 0, 1;
      ghost var seen, done := {s}, {};
      NoEntries();
      assert q[..1] == [s];
      while qStart != qEnd
        invariant 0 <= qStart <= qEnd <= q.Length
        invariant Searching(c0, xDim, yDim, s, seen, q[..qEnd]) && cells[..] == WithMarks(c0, seen)
        invariant done == Entries(q[..qStart])
        invariant s in seen && Explored(c0, xDim, yDim, done, seen)
        decreases |Lattice(xDim, yDim)| - qStart
      {
        var cur := q[qStart];
        ghost var queue, before := q[..qEnd], done;
        assert queue[qStart] == cur;
        assert |queue| == qEnd && queue[..qStart] == q[..qStart];
        EntriesMore(queue, qStart);
        SearchSet(c0, xDim, yDim, s, seen, queue);
        SearchQueue(c0, xDim, yDim, s, seen, queue);
        qStart := qStart + 1;
        done := done + {cur};
        qEnd, seen := ExploreAround(cur, q, qEnd, c0, s, seen, before);
        assert q[..qStart] == queue[..qStart];
      }
      SearchSet(c0, xDim, yDim, s, seen, q[..qEnd]);
      SearchDone(c0, xDim, yDim, s, seen, q[..qEnd]);
      n := qEnd;
    }

    /** A random (odd,odd) point, from the next two values of random(). */
    method PointFrom(tape: seq<nat>) returns (ok: bool, x: int, y: int, rest: seq<nat>)
      requires GoodDims(xDim, yDim)
      ensures DrawPoint(tape, xDim, yDim) == if ok then Point(x, y, rest) else NoDraw
      ensures |rest| <= |tape| && (ok ==> |rest| < |tape| && IsLatticePoint(xDim, yDim, x, y))
      ensures ok ==> 0 <= MazeIndex(xDim, x, y) < MAZE_SIZE && MazeIndex(xDim, x, y) in Lattice(xDim, yDim)
    {
      if |tape| < 2 {
        return false, 1, 1, tape;
      }
      OddBelow(RandomBelow(tape[0], xDim), xDim);
      OddBelow(RandomBelow(tape[1], yDim), yDim);
      x, y := RandomBelow(tape[0], xDim) * 2 + 1, RandomBelow(tape[1], yDim) * 2 + 1;
      PointInLattice(xDim, yDim, x, y);
      hide Lattice, MazeIndex, RandomBelow;
      LatticeAround(xDim, yDim, MazeIndex(xDim, x, y));
      return true, x, y, tape[2..];
    }

    /** The weighted choice of a worm's next direction; only directions with room have weight. */
    method ChooseDirection(x: int, y: int, prefDir: int, draw: nat) returns (dir: int)
      requires GoodDims(xDim, yDim) && cells.Length == MAZE_SIZE
      requires IsLatticePoint(xDim, yDim, x, y) && 0 <= prefDir < 4
      ensures 0 <= dir < 4 && HasRoom(xDim, yDim, x, y, dir)
      ensures var c := cells[..];
              && 0 < WeightBefore(c, xDim, yDim, x, y, prefDir, 4)
              && var pick := RandomBelow(draw, WeightBefore(c, xDim, yDim, x, y, prefDir, 4));
                 && WeightBefore(c, xDim, yDim, x, y, prefDir, dir) <= pick
                 && pick < WeightBefore(c, xDim, yDim, x, y, prefDir, dir + 1)
      ensures dir == Turn(cells[..], xDim, yDim, x, y, prefDir, draw)
    {
      hide IsLatticePoint, HasRoom, GoodDims, RandomBelow, WeightBefore, Turn;
      ghost var c := cells[..];
      var wt := new int[4];
      var total := Weigh(x, y, prefDir, wt);
      var pick := RandomBelow(draw, total);
      dir := 0;
      while pick >= wt[dir]
        invariant 0 <= dir < 4
        invariant WeightBefore(c, xDim, yDim, x, y, prefDir, dir) <= pick
        decreases 4 - dir
      {
        dir := dir + 1;
      }
      TurnIs(c, xDim, yDim, x, y, prefDir, draw, dir);
    }

    /** The table of weights up to each direction, and their sum. */
    method Weigh(x: int, y: int, prefDir: int, wt: array<int>) returns (total: int)
      requires GoodDims(xDim, yDim) && cells.Length == MAZE_SIZE && wt.Length == 4
      requires IsLatticePoint(xDim, yDim, x, y) && 0 <= prefDir < 4
      modifies wt
      ensures forall d | 0 <= d < 4 :: wt[d] == WeightBefore(cells[..], xDim, yDim, x, y, prefDir, d + 1)
      ensures total == WeightBefore(cells[..], xDim, yDim, x, y, prefDir, 4) > 0
      ensures WeightBefore(cells[..], xDim, yDim, x, y, prefDir, 0) == 0
      ensures forall d | 0 <= d < 4 && !HasRoom(xDim, yDim, x, y, d) ::
                WeightBefore(cells[..], xDim, yDim, x, y, prefDir, d + 1)
                == WeightBefore(cells[..], xDim, yDim, x, y, prefDir, d)
    {
      hide MazeIndex, TurnWeight, WeightBefore, Weight;
      PointsAround(xDim, yDim, x, y);
      ghost var c := cells[..];
      WeightsAre(c, xDim, yDim, x, y, prefDir);
      total := 0;
      if y > 1 {
        total := total + TurnWeight(prefDir, cells[MazeIndex(xDim, x, y - 2)] == WALL);
      }
      wt[0] := total;
      if x < xDim * 2 - 1 {
        total := total + TurnWeight((prefDir + 3) % 4, cells[MazeIndex(xDim, x + 2, y)] == WALL);
      }
      wt[1] := total;
      if y < yDim * 2 - 1 {
        total := total + TurnWeight((prefDir + 2) % 4, cells[MazeIndex(xDim, x, y + 2)] == WALL);
      }
      wt[2] := total;
      if x > 1 {
        total := total + TurnWeight((prefDir + 1) % 4, cells[MazeIndex(xDim, x - 2, y)] == WALL);
      }
      wt[3] := total;
    }

    /** A worm at the dug point (x,y) eats its way one point on. */
    method WormMove(x: int, y: int, dir: int, remaining: int) returns (x': int, y': int, remaining': int)
      requires Dug(cells[..], xDim, yDim) && IsLatticePoint(xDim, yDim, x, y)
      requires Passage(cells[..], MazeIndex(xDim, x, y)) && remaining == |Walled(cells[..], xDim, yDim)|
      requires 0 <= dir < 4 && HasRoom(xDim, yDim, x, y, dir)
      modifies cells
      ensures Dug(cells[..], xDim, yDim) && IsLatticePoint(xDim, yDim, x', y')
      ensures Passage(cells[..], MazeIndex(xDim, x', y')) && remaining' == |Walled(cells[..], xDim, yDim)|
      ensures x' == x + 2 * StepX(dir) && y' == y + 2 * StepY(dir)
      ensures cells[..] == Bitten(old(cells[..]), xDim, x, y, dir)
    {
      ghost var e := MazeIndex(xDim, x + StepX(dir), y + StepY(dir));
      ghost var t := MazeIndex(xDim, x + 2 * StepX(dir), y + 2 * StepY(dir));
      hide Dug, Walled, Lattice, MazeIndex, Passage, IsLatticePoint, HasRoom;
      WormStep(cells[..], xDim, yDim, x, y, dir, e, t);
      match dir {
        case 0 =>
          cells[MazeIndex(xDim, x, y - 1)] := NONE;
          x', y' := x, y - 2;
        case 1 =>
          cells[MazeIndex(xDim, x + 1, y)] := NONE;
          x', y' := x + 2, y;
        case 2 =>
          cells[MazeIndex(xDim, x, y + 1)] := NONE;
          x', y' := x, y + 2;
        case _ =>
          cells[MazeIndex(xDim, x - 1, y)] := NONE;
          x', y' := x - 2, y;
      }
      remaining' := remaining;
      if cells[MazeIndex(xDim, x', y')] == WALL {
        remaining' := remaining' - 1;
      }
      cells[MazeIndex(xDim, x', y')] := NONE;
    }

    /** A random point that is still walled. */
    method DrawWalled(tape: seq<nat>) returns (ok: bool, x: int, y: int, rest: seq<nat>)
      requires GoodDims(xDim, yDim) && cells.Length == MAZE_SIZE
      ensures ok ==> |rest| < |tape| && IsLatticePoint(xDim, yDim, x, y)
      ensures ok ==> 0 <= MazeIndex(xDim, x, y) < MAZE_SIZE && MazeIndex(xDim, x, y) in Lattice(xDim, yDim)
      ensures ok ==> cells[MazeIndex(xDim, x, y)].wall
      ensures DrawGood(tape, xDim, yDim, OpenCells(cells[..])) == if ok then Point(x, y, rest) else NoDraw
    {
      hide MazeIndex, DrawPoint, Lattice, IsLatticePoint;
      ok, x, y, rest := PointFrom(tape);
      while ok && !cells[MazeIndex(xDim, x, y)].wall
        invariant ok ==> |rest| < |tape| && IsLatticePoint(xDim, yDim, x, y)
        invariant ok ==> 0 <= MazeIndex(xDim, x, y) < MAZE_SIZE && MazeIndex(xDim, x, y) in Lattice(xDim, yDim)
        invariant DrawGood(tape, xDim, yDim, OpenCells(cells[..])) ==
                  if !ok then NoDraw
                  else if cells[MazeIndex(xDim, x, y)].wall then Point(x, y, rest)
                  else DrawGood(rest, xDim, yDim, OpenCells(cells[..]))
        decreases ok, |rest|
      {
        ok, x, y, rest := PointFrom(rest);
      }
    }

    /** One worm, from a random walled point until it turns back on itself. */
    method OneWorm(tape: seq<nat>, walled: int)
      returns (ok: bool, x: int, y: int, remaining: int, rest: seq<nat>, ghost run: WormRun)
      requires Dug(cells[..], xDim, yDim) && walled == |Walled(cells[..], xDim, yDim)| && GoodDims(xDim, yDim)
      modifies cells
      ensures 0 < xDim && 0 < yDim
      ensures Dug(cells[..], xDim, yDim)
      ensures ok ==> IsLatticePoint(xDim, yDim, x, y) && remaining == |Walled(cells[..], xDim, yDim)| && |rest| < |tape|
      ensures NewWorm(old(cells[..]), xDim, yDim, tape) == if ok then Ended(cells[..], x, y, rest) else Lost
      ensures ok ==> RunFrom(old(cells[..]), xDim, yDim, tape, run)
      ensures ok ==> run.cells == cells[..] && run.x == x && run.y == y && run.rest == rest
    {
      hide Dug, Walled, Lattice, MazeIndex, Worm, DrawGood, IsLatticePoint, Wandered, StartsAt;
      run := WormRun(WormStart(0, 1, 1, 0), [], [], 1, 1, []);
      DugDims(cells[..], xDim, yDim);
      ghost var c := cells[..];
      ok, x, y, rest := DrawWalled(tape);
      if !ok || rest == [] {
        return false, 1, 1, 0, [], run;
      }
      ghost var start := StartIs(c, xDim, yDim, tape);
      DigPoint(cells[..], xDim, yDim, MazeIndex(xDim, x, y));
      WalledSize(cells[..], xDim, yDim, MazeIndex(xDim, x, y));
      cells[MazeIndex(xDim, x, y)] := NONE;
      assert cells[..] == c[MazeIndex(xDim, x, y) := NONE];
      ghost var dirs;
      ok, x, y, remaining, rest, dirs := Wander(x, y, RandomBelow(rest[0], 4), walled - 1, rest[1..]);
      run := WormRun(start, dirs, cells[..], x, y, rest);
    }

    /** A worm from a point it has dug until it turns back on itself. */
    method Wander(x0: int, y0: int, dir0: int, walled: int, tape: seq<nat>)
      returns (ok: bool, x: int, y: int, remaining: int, rest: seq<nat>, ghost dirs: seq<int>)
      requires Dug(cells[..], xDim, yDim) && walled == |Walled(cells[..], xDim, yDim)| && GoodDims(xDim, yDim)
      requires IsLatticePoint(xDim, yDim, x0, y0) && Passage(cells[..], MazeIndex(xDim, x0, y0)) && 0 <= dir0 < 4
      modifies cells
      ensures Dug(cells[..], xDim, yDim)
      ensures ok ==> IsLatticePoint(xDim, yDim, x, y) && remaining == |Walled(cells[..], xDim, yDim)| && |rest| < |tape|
      ensures Worm(old(cells[..]), xDim, yDim, x0, y0, dir0, tape) == if ok then Ended(cells[..], x, y, rest) else Lost
      ensures Wandered(old(cells[..]), xDim, yDim, x0, y0, dir0, tape, dirs, ok, cells[..], x, y, rest)
    {
      hide Dug, Walled, Lattice, MazeIndex, Turn, Bitten, IsLatticePoint, Passage, Worm, Along, Wandered, Opposed;
      hide WeightBefore, HasRoom, StepX, StepY;
      DugDims(cells[..], xDim, yDim);
      ghost var c := cells[..];
      dirs := [];
      AlongStart(c, xDim, yDim, x0, y0, dir0, tape);
      x, y, remaining, rest := x0, y0, walled, tape;
      var prefDir := dir0;
      while true
        invariant Dug(cells[..], xDim, yDim) && remaining == |Walled(cells[..], xDim, yDim)|
        invariant IsLatticePoint(xDim, yDim, x, y) && Passage(cells[..], MazeIndex(xDim, x, y))
        invariant 0 <= prefDir < 4 && |rest| <= |tape|
        invariant Worm(c, xDim, yDim, x0, y0, dir0, tape) == Worm(cells[..], xDim, yDim, x, y, prefDir, rest)
        invariant Along(c, xDim, yDim, x0, y0, dir0, tape, dirs, cells[..], x, y, prefDir, rest)
        decreases |rest|
      {
        WormOn(cells[..], xDim, yDim, x, y, prefDir, rest);
        if rest == [] {
          AlongOut(c, xDim, yDim, x0, y0, dir0, tape, dirs, cells[..], x, y, prefDir);
          return false, 1, 1, 0, [], dirs;
        }
        var dir := ChooseDirection(x, y, prefDir, rest[0]);
        AlongMore(c, xDim, yDim, x0, y0, dir0, tape, dirs, cells[..], x, y, prefDir, rest, dir);
        TurnedBackIs(prefDir, dir);
        dirs := dirs + [dir];
        rest := rest[1..];
        if (dir - prefDir + 4) % 4 == 2 {
          break;
        }
        prefDir := dir;
        x, y, remaining := WormMove(x, y, prefDir, remaining);
      }
      ok := true;
    }

    /** The worm phase: worms until no lattice point is walled. */
    method WormPhase(tape: seq<nat>) returns (ok: bool, x: int, y: int, rest: seq<nat>, ghost runs: seq<WormRun>)
      requires GoodDims(xDim, yDim) && cells.Length == MAZE_SIZE
      requires forall i | 0 <= i < cells.Length :: cells[i] == WALL
      modifies cells
      ensures 0 < xDim && 0 < yDim
      ensures ok ==>
              Dug(cells[..], xDim, yDim) && Walled(cells[..], xDim, yDim) == {} && IsLatticePoint(xDim, yDim, x, y)
      ensures Worms(old(cells[..]), xDim, yDim, 1, 1, tape) == if ok then Ended(cells[..], x, y, rest) else Lost
      ensures Chain(old(cells[..]), xDim, yDim, tape, runs)
      ensures ok ==> runs != [] && var last := runs[|runs| - 1];
                     last.cells == cells[..] && last.x == x && last.y == y && last.rest == rest
    {
      hide Dug, Walled, Lattice, NewWorm, Chain, RunFrom;
      AllWalls(cells[..], xDim, yDim);
      ghost var c := cells[..];
      runs := [];
      NoRuns(c, xDim, yDim, tape);
      var remaining := xDim * yDim;
      ok, x, y, rest := true, 1, 1, tape;
      while remaining > 0
        invariant Dug(cells[..], xDim, yDim) && remaining == |Walled(cells[..], xDim, yDim)|
        invariant IsLatticePoint(xDim, yDim, x, y)
        invariant Worms(old(cells[..]), xDim, yDim, 1, 1, tape) == Worms(cells[..], xDim, yDim, x, y, rest)
        invariant Chain(c, xDim, yDim, tape, runs) && cells[..] == CellsBefore(c, runs, |runs|)
        invariant runs == [] ==> remaining > 0 && rest == tape
        invariant runs != [] ==> runs[|runs| - 1].x == x && runs[|runs| - 1].y == y && runs[|runs| - 1].rest == rest
        decreases |rest|
      {
        ghost var run;
        ok, x, y, remaining, rest, run := OneWorm(rest, remaining);
        if !ok {
          return;
        }
        OneRunMore(c, xDim, yDim, tape, runs, run);
        runs := runs + [run];
      }
      ok := true;
    }

    /** Take down the wall at distance k from the unreached point (x,y), towards a reached neighbour,
        and mark what is now connected. */
    method Join(x: int, y: int, k: int, remaining: int, ghost d: seq<Cell>) returns (left: int, ghost e: seq<Cell>)
      requires Repairing(d, cells[..], xDim, yDim) && Leads(xDim, yDim, MazeIndex(xDim, x, y), k)
      requires MazeIndex(xDim, x, y) !in Component(d, xDim, yDim)
      requires MazeIndex(xDim, x, y) + 2 * k in Component(d, xDim, yDim)
      requires remaining == xDim * yDim - |Component(d, xDim, yDim)|
      modifies cells
      ensures Repairing(e, cells[..], xDim, yDim) && left == xDim * yDim - |Component(e, xDim, yDim)|
      ensures left < remaining
      ensures 0 <= MazeIndex(xDim, x, y) + k < |d| && e == d[MazeIndex(xDim, x, y) + k := NONE]
    {
      hide Repairing, Component, Lattice, Leads, MazeIndex, Marked, Area, WithMarks, Bordered;
      ghost var cur := MazeIndex(xDim, x, y);
      RepairStep(d, cells[..], xDim, yDim, cur, k);
      e := d[cur + k := NONE];
      cells[MazeIndex(xDim, x, y) + k] := NONE;
      var found := MarkMazeArea(x, y);
      left := remaining - found;
    }

    /** Try to join the unreached point (x,y) to a reached neighbour. */
    method Connect(x: int, y: int, remaining: int, ghost d: seq<Cell>)
      returns (hit: bool, left: int, ghost e: seq<Cell>)
      requires Repairing(d, cells[..], xDim, yDim) && IsLatticePoint(xDim, yDim, x, y)
      requires MazeIndex(xDim, x, y) !in Component(d, xDim, yDim)
      requires remaining == xDim * yDim - |Component(d, xDim, yDim)|
      modifies cells
      ensures Repairing(e, cells[..], xDim, yDim) && left == xDim * yDim - |Component(e, xDim, yDim)|
      ensures hit ==> left < remaining && exists k :: JoinedBy(d, e, xDim, yDim, MazeIndex(xDim, x, y), k)
      ensures !hit ==> e == d && left == remaining && !Frontier(Component(d, xDim, yDim), xDim, yDim, x, y)
      ensures e == JoinedAt(d, xDim, yDim, x, y)
    {
      hide Repairing, Component, Lattice, Leads, MazeIndex, IsLatticePoint, Frontier, JoinedAt;
      var cur := MazeIndex(xDim, x, y);
      RepairDims(d, cells[..], xDim, yDim);
      LookBeyond(d, cells[..], xDim, yDim, x, y);
      hit := true;
      ghost var k := 0;
      if y > 1 && cells[cur - 4 * xDim].reach {
        k := -2 * xDim;
        left, e := Join(x, y, -2 * xDim, remaining, d);
      } else if x > 1 && cells[cur - 2].reach {
        k := -1;
        left, e := Join(x, y, -1, remaining, d);
      } else if x < 2 * xDim - 1 && cells[cur + 2].reach {
        k := 1;
        left, e := Join(x, y, 1, remaining, d);
      } else if y < 2 * yDim - 1 && cells[cur + 4 * xDim].reach {
        k := 2 * xDim;
        left, e := Join(x, y, 2 * xDim, remaining, d);
      } else {
        hit, left, e := false, remaining, d;
        NoFrontier(Component(d, xDim, yDim), xDim, yDim, x, y, cur);
      }
      JoinedBeside(d, xDim, yDim, x, y, cur, k);
      assert hit ==> JoinedBy(d, e, xDim, yDim, cur, k);
    }

    /** The body of the repair loop, once it has a point: if that is unreached, try to join it. (fx,fy) is a point that
        can be joined, while there is one. */
    method Attempt(x: int, y: int, remaining: int, ghost d: seq<Cell>, ghost fx: int, ghost fy: int)
      returns (left: int, ghost e: seq<Cell>, ghost gx: int, ghost gy: int)
      requires Repairing(d, cells[..], xDim, yDim) && IsLatticePoint(xDim, yDim, x, y)
      requires remaining == xDim * yDim - |Component(d, xDim, yDim)| && GoodDims(xDim, yDim)
      requires remaining > 0 ==> Frontier(Component(d, xDim, yDim), xDim, yDim, fx, fy)
      modifies cells
      ensures Repairing(e, cells[..], xDim, yDim) && left == xDim * yDim - |Component(e, xDim, yDim)|
      ensures 0 <= left <= remaining && (left == 0 <==> Component(e, xDim, yDim) == Lattice(xDim, yDim))
      ensures left > 0 ==> Frontier(Component(e, xDim, yDim), xDim, yDim, gx, gy)
      ensures left == remaining ==> e == d && gx == fx && gy == fy && (left == 0 || (x, y) != (fx, fy))
      ensures e == if MazeIndex(xDim, x, y) in Component(d, xDim, yDim) then d else JoinedAt(d, xDim, yDim, x, y)
    {
      hide Component, Lattice, Frontier, MazeIndex, Repairing, GoodDims, JoinedAt, JoinedBy, IsLatticePoint;
      ReachIs(d, cells[..], xDim, yDim, x, y, fx, fy);
      gx, gy := Unreached(d, xDim, yDim);
      left, e, gx, gy := remaining, d, fx, fy;
      if !cells[MazeIndex(xDim, x, y)].reach {
        var hit;
        hit, left, e := Connect(x, y, remaining, d);
        if hit {
          gx, gy := Unreached(e, xDim, yDim);
        }
      }
    }

    /** The repair phase: joins unreached points to reached ones, first at random, then scanning,
        until (1,1) reaches the whole lattice. `d` is the maze without its marks. Once fewer than 20 points are
        unreached it only scans, and it draws at most 100 times; all that can go wrong is such a draw. */
    method RepairPhase(x0: int, y0: int, tape: seq<nat>)
      returns (ok: bool, rest: seq<nat>, ghost d: seq<Cell>, ghost steps: nat)
      requires Dug(cells[..], xDim, yDim) && Walled(cells[..], xDim, yDim) == {} && IsLatticePoint(xDim, yDim, x0, y0)
      modifies cells
      ensures 0 < xDim && 0 < yDim
      ensures ok ==> Repairing(d, cells[..], xDim, yDim) && Component(d, xDim, yDim) == Lattice(xDim, yDim)
      ensures GoodDims(xDim, yDim)
      ensures RandomTries(old(cells[..]), xDim, yDim, 0, tape) == if ok then Through(rest) else Stuck
      ensures !ok ==> steps == 0
      ensures var unreached := xDim * yDim - |Component(old(cells[..]), xDim, yDim)|;
              0 <= unreached && (ok ==> steps <= if unreached == 0 then 1 else unreached * (xDim * yDim))
    {
      hide Dug, Walled, Repairing, Lattice, MazeIndex, RandomTries, WithMarks, Bordered, IsLatticePoint, Area;
      d := cells[..];
      RepairStart(d, xDim, yDim);
      DugDims(d, xDim, yDim);
      var remaining := MarkMazeArea(1, 1);
      remaining := xDim * yDim - remaining;
      ok, rest, d, steps := Repair(x0, y0, remaining, tape, d);
    }

    /** The loop of the repair phase. */
    method Repair(x0: int, y0: int, unreached: int, tape: seq<nat>, ghost d0: seq<Cell>)
      returns (ok: bool, rest: seq<nat>, ghost d: seq<Cell>, ghost steps: nat)
      requires Repairing(d0, cells[..], xDim, yDim) && IsLatticePoint(xDim, yDim, x0, y0) && GoodDims(xDim, yDim)
      requires unreached == xDim * yDim - |Component(d0, xDim, yDim)|
      modifies cells
      ensures 0 < xDim && 0 < yDim
      ensures ok ==> Repairing(d, cells[..], xDim, yDim) && Component(d, xDim, yDim) == Lattice(xDim, yDim)
      ensures RandomTries(d0, xDim, yDim, 0, tape) == if ok then Through(rest) else Stuck
      ensures !ok ==> steps == 0
      ensures 0 <= unreached && (ok ==> steps <= if unreached == 0 then 1 else unreached * (xDim * yDim))
    {
      hide Component, Lattice, Frontier, MazeIndex, Repairing, DrawGood, Trying;
      hide MarkedCells, RandomTries, JoinedAt, ScanNext, ToGo, Rows, Scanned, Laps, IsLatticePoint;
      d := d0;
      var remaining, trials := unreached, 0;
      var x, y := x0, y0;
      rest := tape;
      ghost var fx, fy := Unreached(d, xDim, yDim);
      ghost var size: nat := Rows(xDim, yDim);
      ghost var draws, since := 0, 0;
      steps := 0;
      ScanStart(unreached, size);
      TryingStart(d, tape, xDim, yDim);
      var again := true;
      while again
        invariant Repairing(d, cells[..], xDim, yDim) && GoodDims(xDim, yDim) && IsLatticePoint(xDim, yDim, x, y)
        invariant 0 <= remaining == xDim * yDim - |Component(d, xDim, yDim)|
        invariant remaining == 0 <==> Component(d, xDim, yDim) == Lattice(xDim, yDim)
        invariant remaining > 0 ==> Frontier(Component(d, xDim, yDim), xDim, yDim, fx, fy)
        invariant remaining <= unreached && (!again ==> remaining == 0)
        invariant Trying(d0, tape, d, rest, xDim, yDim, draws, trials)
        invariant remaining >= 20 && trials < RANDOM_TRIALS ==> steps == 0 && since == 0
        invariant Scanned(steps, since, unreached, remaining, again, size)
        invariant remaining > 0 ==> since + ToGo(xDim, yDim, x, y, fx, fy) <= size
        decreases again, if remaining < 20 || trials >= RANDOM_TRIALS then 0 else RANDOM_TRIALS - trials, remaining,
                  ToGo(xDim, yDim, x, y, fx, fy)
      {
        ghost var was, before := d, remaining;
        FrontierPoint(Component(d, xDim, yDim), xDim, yDim, fx, fy);
        var scan := remaining < 20;
        if !scan {
          trials := trials + 1;
          scan := trials > RANDOM_TRIALS;
        }
        if scan {
          ScanStep(xDim, yDim, x, y, fx, fy);
          ScanGoesOn(steps, since, unreached, remaining, size);
          steps, since := steps + 1, since + 1;
          var next := ScanNext(xDim, yDim, x, y);
          x, y := next.0, next.1;
        } else {
          TryingDraw(d0, tape, d, rest, cells[..], xDim, yDim, draws, trials - 1);
          ok, x, y, rest := DrawUnreached(rest);
          if !ok {
            return;
          }
        }
        remaining, d, fx, fy := Attempt(x, y, remaining, d, fx, fy);
        if remaining < before {
          ScanHit(steps, since, unreached, before, remaining, size);
          since := 0;
        }
        if scan {
          TryingScan(d0, tape, was, rest, xDim, yDim, draws, if before < 20 then trials else trials - 1, d);
        } else {
          draws := draws + 1;
        }
        again := remaining > 0;
      }
      ok := true;
      TryingDone(d0, tape, d, rest, xDim, yDim, draws, trials);
      ScanDone(steps, since, unreached, xDim, yDim);
    }

    /** A random unreached point. */
    method DrawUnreached(tape: seq<nat>) returns (ok: bool, x: int, y: int, rest: seq<nat>)
      requires GoodDims(xDim, yDim) && cells.Length == MAZE_SIZE
      ensures ok ==> IsLatticePoint(xDim, yDim, x, y) && 0 <= MazeIndex(xDim, x, y) < MAZE_SIZE
      ensures ok ==> !cells[MazeIndex(xDim, x, y)].reach
      ensures DrawGood(tape, xDim, yDim, MarkedCells(cells[..])) == if ok then Point(x, y, rest) else NoDraw
    {
      hide MazeIndex, DrawPoint;
      ok, x, y, rest := PointFrom(tape);
      while ok && cells[MazeIndex(xDim, x, y)].reach
        invariant ok ==> IsLatticePoint(xDim, yDim, x, y) && 0 <= MazeIndex(xDim, x, y) < MAZE_SIZE
        invariant DrawGood(tape, xDim, yDim, MarkedCells(cells[..])) ==
                  if !ok then NoDraw
                  else if cells[MazeIndex(xDim, x, y)].reach then DrawGood(rest, xDim, yDim, MarkedCells(cells[..]))
                  else Point(x, y, rest)
        decreases ok, |rest|
      {
        ok, x, y, rest := PointFrom(rest);
      }
    }

    /** Undo the marks of the repair: play reuses them for what the player has seen. */
    method ClearMarks(ghost d: seq<Cell>)
      requires Repairing(d, cells[..], xDim, yDim) && Component(d, xDim, yDim) == Lattice(xDim, yDim)
      modifies cells
      ensures cells[..] == d
    {
      hide Repairing, Component, Lattice, ToClear, WithMarks, MazeIndex;
      ClearStart(d, cells[..], xDim, yDim);
      var x := 1;
      while x < 2 * xDim
        invariant 1 <= x <= 2 * xDim + 1 && x % 2 == 1
        invariant cells[..] == WithMarks(d, ToClear(xDim, yDim, x, 1))
      {
        var y := 1;
        while y < 2 * yDim
          invariant 1 <= y <= 2 * yDim + 1 && y % 2 == 1
          invariant cells[..] == WithMarks(d, ToClear(xDim, yDim, x, y))
        {
          ClearStep(d, xDim, yDim, x, y);
          cells[MazeIndex(xDim, x, y)] := cells[MazeIndex(xDim, x, y)].(reach := false);
          y := y + 2;
        }
        ClearStep(d, xDim, yDim, x, 1);
        x := x + 2;
      }
      NoMarks(d);
    }

    /** _add_a_fruit without drawing: a random fruit on a random unfruited lattice point. */
    method AddFruit(tape: seq<nat>) returns (ok: bool, rest: seq<nat>)
      requires ProperWalls(cells[..], xDim, yDim) && FruitsOnLattice(cells[..], xDim, yDim)
      requires nFruits == |Fruited(cells[..])|
      modifies cells, `nFruits
      ensures 0 < xDim && 0 < yDim
      ensures ProperWalls(cells[..], xDim, yDim) && FruitsOnLattice(cells[..], xDim, yDim)
      ensures nFruits == |Fruited(cells[..])|
      ensures nFruits == old(nFruits) + (if ok then 1 else 0) && GoodDims(xDim, yDim)
      ensures OneFruit(old(cells[..]), xDim, yDim, tape) == if ok then Grown(cells[..], rest) else Short
      ensures !ok ==> cells[..] == old(cells[..])
      ensures forall i | 0 <= i < cells.Length ::
              cells[i].exit == old(cells[i].exit) && cells[i].reach == old(cells[i].reach)
      ensures forall i | 0 <= i < cells.Length :: old(cells[i].fruit) != 0 ==> cells[i].fruit == old(cells[i].fruit)
    {
      hide ProperWalls, FruitsOnLattice, Fruited, Lattice, MazeIndex, RandomBelow, GoodDims, DrawGood, IsLatticePoint;
      ProperDims(cells[..], xDim, yDim);
      ghost var c := cells[..];
      var x, y;
      ok, x, y, rest := DrawUnfruited(tape);
      if !ok || rest == [] {
        return false, [];
      }
      var i := MazeIndex(xDim, x, y);
      var f := RandomBelow(rest[0], 7) + 1;
      FruitAdded(cells[..], xDim, yDim, i, f);
      cells[i] := cells[i].(fruit := f);
      assert cells[..] == c[i := c[i].(fruit := f)];
      nFruits := nFruits + 1;
      rest := rest[1..];
    }

    /** A random lattice point without a fruit. */
    method DrawUnfruited(tape: seq<nat>) returns (ok: bool, x: int, y: int, rest: seq<nat>)
      requires GoodDims(xDim, yDim) && cells.Length == MAZE_SIZE
      ensures ok ==> IsLatticePoint(xDim, yDim, x, y) && 0 <= MazeIndex(xDim, x, y) < MAZE_SIZE
      ensures ok ==> MazeIndex(xDim, x, y) in Lattice(xDim, yDim) && cells[MazeIndex(xDim, x, y)].fruit == 0
      ensures DrawGood(tape, xDim, yDim, Fruited(cells[..])) == if ok then Point(x, y, rest) else NoDraw
    {
      hide MazeIndex, DrawPoint, Lattice;
      ok, x, y, rest := PointFrom(tape);
      while ok && cells[MazeIndex(xDim, x, y)].fruit != 0
        invariant ok ==> IsLatticePoint(xDim, yDim, x, y) && 0 <= MazeIndex(xDim, x, y) < MAZE_SIZE
        invariant ok ==> MazeIndex(xDim, x, y) in Lattice(xDim, yDim)
        invariant DrawGood(tape, xDim, yDim, Fruited(cells[..])) ==
                  if !ok then NoDraw
                  else if cells[MazeIndex(xDim, x, y)].fruit != 0 then DrawGood(rest, xDim, yDim, Fruited(cells[..]))
                  else Point(x, y, rest)
        decreases ok, |rest|
      {
        ok, x, y, rest := PointFrom(rest);
      }
    }

    /** The required fruits, and the exit on an unfruited point. */
    method Furnish(startFruits: int, tape: seq<nat>) returns (ok: bool)
      requires ProperWalls(cells[..], xDim, yDim) && FruitsOnLattice(cells[..], xDim, yDim) && |Fruited(cells[..])| == 0
      requires forall i | 0 <= i < cells.Length :: !cells[i].exit && !cells[i].reach
      modifies cells, `nFruits, `exitX, `exitY
      ensures 0 < xDim && 0 < yDim
      ensures GoodDims(xDim, yDim)
      ensures var d := ExitDraw(old(cells[..]), xDim, yDim, Fruits(startFruits), tape);
              ok == d.Point? && (ok ==> exitX == d.x && exitY == d.y)
      ensures ok ==> Playable(cells[..], xDim, yDim, nFruits, exitX, exitY)
      ensures ok ==> nFruits == Fruits(startFruits) && nFruits < xDim * yDim
      ensures ok ==> forall i | 0 <= i < cells.Length :: !cells[i].reach && (cells[i].exit ==> cells[i].fruit == 0)
    {
      hide ProperWalls, FruitsOnLattice, Fruited, Playable, Lattice, DrawGood, OneFruit, MazeIndex;
      ProperDims(cells[..], xDim, yDim);
      nFruits := 0;
      var i, rest := 0, tape;
      while i < startFruits
        invariant ProperWalls(cells[..], xDim, yDim) && FruitsOnLattice(cells[..], xDim, yDim)
        invariant nFruits == |Fruited(cells[..])|
        invariant forall j | 0 <= j < cells.Length :: !cells[j].exit && !cells[j].reach
        invariant nFruits == i && 0 <= i <= Fruits(startFruits)
        invariant Grow(old(cells[..]), xDim, yDim, Fruits(startFruits), tape) ==
                  Grow(cells[..], xDim, yDim, Fruits(startFruits) - i, rest)
      {
        ok, rest := AddFruit(rest);
        if !ok {
          return;
        }
        i := i + 1;
      }
      ProperDims(cells[..], xDim, yDim);
      hide GoodDims, MazeIndex, IsLatticePoint;
      var x, y;
      ok, x, y, rest := DrawUnfruited(rest);
      if !ok {
        return;
      }
      RoomForExit(cells[..], xDim, yDim, MazeIndex(xDim, x, y));
      ExitPlaced(cells[..], xDim, yDim, x, y);
      cells[MazeIndex(xDim, x, y)] := cells[MazeIndex(xDim, x, y)].(exit := true);
      exitX, exitY := x, y;
    }

    /** Both phases of the digging, without the marks they leave. */
    method Dig(tape: seq<nat>) returns (ok: bool, rest: seq<nat>)
      requires GoodDims(xDim, yDim) && cells.Length == MAZE_SIZE
      requires forall i | 0 <= i < cells.Length :: cells[i] == WALL
      modifies cells
      ensures 0 < xDim && 0 < yDim
      ensures ok ==>
              ProperWalls(cells[..], xDim, yDim) && FruitsOnLattice(cells[..], xDim, yDim) && |Fruited(cells[..])| == 0
      ensures ok ==> forall i | 0 <= i < cells.Length :: !cells[i].exit && !cells[i].reach
      ensures Digging(old(cells[..]), xDim, yDim, tape) == if ok then Through(rest) else Stuck
    {
      hide RandomTries, Worms;
      hide Dug, Walled, Repairing, Component, Lattice, ProperWalls, FruitsOnLattice, Fruited;
      var x, y;
      ghost var runs;
      ok, x, y, rest, runs := WormPhase(tape);
      if !ok {
        return;
      }
      ghost var d;
      ghost var steps;
      ok, rest, d, steps := RepairPhase(x, y, rest);
      if !ok {
        return;
      }
      RepairedProper(d, cells[..], xDim, yDim);
      ClearMarks(d);
    }

    /** make_maze. The tape is what random() returns, in order; a run that would need more of it is Starved. */
    method MakeMaze(newX: int, newY: int, startFruits: int, tape: seq<nat>) returns (built: Built)
      requires cells.Length == MAZE_SIZE
      modifies this, cells
      ensures built == BadSize <==> !GoodDims(newX, newY)
      ensures built == BadSize ==>
                && xDim == old(xDim) && yDim == old(yDim) && cells[..] == old(cells[..])
                && nFruits == old(nFruits) && exitX == old(exitX) && exitY == old(exitY)
      ensures built == Made ==>
                && xDim == newX && yDim == newY
                && Playable(cells[..], xDim, yDim, nFruits, exitX, exitY)
                && nFruits == (if startFruits < 0 then 0 else startFruits)
                && (forall i | 0 <= i < cells.Length :: !cells[i].reach && (cells[i].exit ==> cells[i].fruit == 0))
      ensures built == Made ==> startFruits < newX * newY
      ensures built == Made <==> GoodDims(newX, newY) && Suffices(tape, newX, newY, startFruits)
    {
      hide Playable, ProperWalls, FruitsOnLattice, Fruited, Digging, ExitDraw;
      if newX < MAZE_MIN_X_DIM || newX > MAZE_MAX_X_DIM || newY < MAZE_MIN_Y_DIM || newY > MAZE_MAX_Y_DIM {
        return BadSize;
      }
      xDim, yDim := newX, newY;
      forall i | 0 <= i < cells.Length {
        cells[i] := WALL;
      }
      ghost var walls := cells[..];
      assert walls == seq(MAZE_SIZE, _ => WALL);
      var ok, rest := Dig(tape);
      if ok {
        NoFruits(cells[..], walls);
        ExitByFruits(cells[..], walls, xDim, yDim, Fruits(startFruits), rest);
        ok := Furnish(startFruits, rest);
      }
      return if ok then Made else Starved;
    }

    /** The maze array and the block table have their sizes, and fruit numbers have a picture. */
    ghost predicate Drawable()
      reads this, cells
    {
      && GoodDims(xDim, yDim) && cells.Length == MAZE_SIZE && GoodBlocks(blocks)
      && forall i | 0 <= i < cells.Length :: 0 <= cells[i].fruit <= 7
    }

    /** Pixel (px,py) of a complete drawing of this maze. */
    ghost function Rendered(px: int, py: int): byte
      reads this, cells
    {
      Render(blocks, cells[..], nFruits, xDim, px, py)
    }

    /** find_block: every read is inside the array, and the answer inside the block table. */
    method BlockAt(x: int, y: int) returns (b: int)
      requires Drawable() && 0 <= x <= 2 * xDim && 0 <= y <= 2 * yDim
      ensures b == FindBlock(cells[..], nFruits, xDim, x, y) && 0 <= b < NUM_BLOCKS
    {
      IndexInArray(xDim, yDim, x, y);
      IndexInArray(xDim, yDim, x, y - 1);
      IndexInArray(xDim, yDim, x, y + 1);
      IndexSteps(xDim, x, y + 1);
      hide MazeIndex;
      var cell := cells[MazeIndex(xDim, x, y)];
      if nFruits == 0 && cell.exit {
        return BLOCK_EXIT;
      }
      if !cell.reach {
        if cell.fruit != 0 {
          return BLOCK_FRUIT_SHADOW;
        }
        return BLOCK_SHADOW;
      }
      if cell.fruit != 0 {
        return BLOCK_FRUIT_1 + cell.fruit - 1;
      }
      if !cell.wall {
        return BLOCK_EMPTY;
      }
      b := WallBit(cells[MazeIndex(xDim, x, y - 1)].wall, 1) + WallBit(cells[MazeIndex(xDim, x + 1, y)].wall, 2)
           + WallBit(cells[MazeIndex(xDim, x, y + 1)].wall, 4) + WallBit(cells[MazeIndex(xDim, x - 1, y)].wall, 8);
    }

    /** fill_horiz_buffer: the pixels of a horizontal line, block by block. */
    method FillHorizBuffer(x: int, y: int, buf: array<byte>)
      requires Drawable() && 0 <= x && x + buf.Length <= (2 * xDim + 1) * BLOCK_X_DIM
      requires 0 <= y < (2 * yDim + 1) * BLOCK_Y_DIM
      modifies buf
      ensures forall k | 0 <= k < buf.Length :: buf[k] == Render(blocks, cells[..], nFruits, xDim, x + k, y)
    {
      hide FindBlock;
      var mapX, mapY := x / BLOCK_X_DIM, y / BLOCK_Y_DIM;
      var subX, subY := x - mapX * BLOCK_X_DIM, y - mapY * BLOCK_Y_DIM;
      var idx := 0;
      while idx < buf.Length
        invariant 0 <= idx <= buf.Length && 0 <= subX < BLOCK_X_DIM && 0 <= mapX
        invariant idx < buf.Length ==> mapX * BLOCK_X_DIM + subX == x + idx
        invariant cells[..] == old(cells[..])
        invariant forall k | 0 <= k < idx :: buf[k] == Render(blocks, cells[..], nFruits, xDim, x + k, y)
      {
        var b := BlockAt(mapX, mapY);
        var block := subY * BLOCK_X_DIM + subX;
        while idx < buf.Length && subX < BLOCK_X_DIM
          invariant 0 <= idx <= buf.Length && 0 <= subX <= BLOCK_X_DIM
          invariant mapX * BLOCK_X_DIM + subX == x + idx && block == subY * BLOCK_X_DIM + subX
          invariant cells[..] == old(cells[..])
          invariant forall k | 0 <= k < idx :: buf[k] == Render(blocks, cells[..], nFruits, xDim, x + k, y)
          decreases buf.Length - idx
        {
          assert (x + idx) / BLOCK_X_DIM == mapX && (x + idx) % BLOCK_X_DIM == subX;
          buf[idx] := blocks[b][block];
          block := block + 1;
          idx, subX := idx + 1, subX + 1;
        }
        mapX := mapX + 1;
        subX := 0;
      }
    }

    /** fill_vert_buffer: the pixels of a vertical line, block by block. */
    method FillVertBuffer(x: int, y: int, buf: array<byte>)
      requires Drawable() && 0 <= x < (2 * xDim + 1) * BLOCK_X_DIM && 0 <= y
      requires y + buf.Length <= (2 * yDim + 1) * BLOCK_Y_DIM
      modifies buf
      ensures forall k | 0 <= k < buf.Length :: buf[k] == Render(blocks, cells[..], nFruits, xDim, x, y + k)
    {
      hide FindBlock;
      var mapX, mapY := x / BLOCK_X_DIM, y / BLOCK_Y_DIM;
      var subX, subY := x - mapX * BLOCK_X_DIM, y - mapY * BLOCK_Y_DIM;
      var idx := 0;
      while idx < buf.Length
        invariant 0 <= idx <= buf.Length && 0 <= subY < BLOCK_Y_DIM && 0 <= mapY
        invariant idx < buf.Length ==> mapY * BLOCK_Y_DIM + subY == y + idx
        invariant cells[..] == old(cells[..])
        invariant forall k | 0 <= k < idx :: buf[k] == Render(blocks, cells[..], nFruits, xDim, x, y + k)
      {
        var b := BlockAt(mapX, mapY);
        var block := subY * BLOCK_X_DIM + subX;
        while idx < buf.Length && subY < BLOCK_Y_DIM
          invariant 0 <= idx <= buf.Length && 0 <= subY <= BLOCK_Y_DIM
          invariant mapY * BLOCK_Y_DIM + subY == y + idx && block == subY * BLOCK_X_DIM + subX
          invariant cells[..] == old(cells[..])
          invariant forall k | 0 <= k < idx :: buf[k] == Render(blocks, cells[..], nFruits, xDim, x, y + k)
          decreases buf.Length - idx
        {
          assert (y + idx) / BLOCK_Y_DIM == mapY && (y + idx) % BLOCK_Y_DIM == subY;
          buf[idx] := blocks[b][block];
          idx, subY, block := idx + 1, subY + 1, block + BLOCK_X_DIM;
        }
        mapY := mapY + 1;
        subY := 0;
      }
    }
  }
}
