/** What the random values decide in make_maze (MP2/maze.c): which lattice point is drawn, and where a worm turns. */
module MazeDraw {
  import opened MazeCells
  import opened MazeDig

  /** A lattice point drawn from the tape, and the rest of the tape. */
  datatype Draw = NoDraw | Point(x: int, y: int, rest: seq<nat>)

  /** The point that the next two values of random() name. */
  function DrawPoint(tape: seq<nat>, xDim: int, yDim: int): Draw
    requires 0 < xDim && 0 < yDim
  {
    if |tape| < 2 then NoDraw
    else Point(RandomBelow(tape[0], xDim) * 2 + 1, RandomBelow(tape[1], yDim) * 2 + 1, tape[2..])
  }

  /** The first drawn point that is not a bad one. */
  function DrawGood(tape: seq<nat>, xDim: int, yDim: int, bad: set<int>): (d: Draw)
    requires 0 < xDim && 0 < yDim
    ensures d.Point? ==> |d.rest| < |tape| && MazeIndex(xDim, d.x, d.y) !in bad
  {
    var d := DrawPoint(tape, xDim, yDim);
    if d.Point? && MazeIndex(xDim, d.x, d.y) in bad then DrawGood(d.rest, xDim, yDim, bad) else d
  }

  /** Whatever is drawn is a lattice point. */
  lemma {:induction false} DrawnInLattice(tape: seq<nat>, xDim: int, yDim: int, bad: set<int>)
    requires 0 < xDim && 0 < yDim
    ensures var d := DrawGood(tape, xDim, yDim, bad);
            d.Point? ==> IsLatticePoint(xDim, yDim, d.x, d.y) && MazeIndex(xDim, d.x, d.y) in Lattice(xDim, yDim)
  {
    hide MazeIndex, Lattice, IsLatticePoint;
    var d := DrawPoint(tape, xDim, yDim);
    if d.Point? {
      if MazeIndex(xDim, d.x, d.y) in bad {
        DrawnInLattice(d.rest, xDim, yDim, bad);
      } else {
        OddPoint(xDim, yDim, RandomBelow(tape[0], xDim), RandomBelow(tape[1], yDim));
        PointInLattice(xDim, yDim, d.x, d.y);
      }
    }
  }

  lemma OddPoint(xDim: int, yDim: int, a: int, b: int)
    requires 0 <= a < xDim && 0 <= b < yDim
    ensures IsLatticePoint(xDim, yDim, a * 2 + 1, b * 2 + 1)
  {
  }

  /** Drawing fails exactly if every pair of values names a bad point. */
  lemma {:induction false} DrawFails(tape: seq<nat>, xDim: int, yDim: int, bad: set<int>)
    requires 0 < xDim && 0 < yDim
    ensures DrawGood(tape, xDim, yDim, bad) == NoDraw <==>
            forall k | 0 <= k < |tape| / 2 :: NamesBad(tape, xDim, yDim, bad, k)
  {
    hide MazeIndex, RandomBelow, NamesBad;
    if |tape| >= 2 {
      var later := tape[2..];
      DrawFails(later, xDim, yDim, bad);
      NamesLater(tape, xDim, yDim, bad);
      NamesFirst(tape, xDim, yDim, bad);
      if forall k | 0 <= k < |tape| / 2 :: NamesBad(tape, xDim, yDim, bad, k) {
        assert NamesBad(tape, xDim, yDim, bad, 0);
        forall k | 0 <= k < |later| / 2 ensures NamesBad(later, xDim, yDim, bad, k) {
          assert NamesBad(tape, xDim, yDim, bad, k + 1);
        }
      } else if DrawGood(tape, xDim, yDim, bad) == NoDraw {
        forall k | 0 <= k < |tape| / 2 ensures NamesBad(tape, xDim, yDim, bad, k) {
          assert k > 0 ==> NamesBad(later, xDim, yDim, bad, k - 1);
        }
      }
    }
  }

  /** The pairs after the first are those of the rest of the tape. */
  lemma NamesLater(tape: seq<nat>, xDim: int, yDim: int, bad: set<int>)
    requires 0 < xDim && 0 < yDim && |tape| >= 2
    ensures |tape[2..]| / 2 == |tape| / 2 - 1
    ensures forall k | 0 <= k < |tape[2..]| / 2 ::
              NamesBad(tape[2..], xDim, yDim, bad, k) == NamesBad(tape, xDim, yDim, bad, k + 1)
  {
    hide NamesBad;
    forall k | 0 <= k < |tape[2..]| / 2
      ensures NamesBad(tape[2..], xDim, yDim, bad, k) == NamesBad(tape, xDim, yDim, bad, k + 1)
    {
      NameLater(tape, xDim, yDim, bad, k);
    }
  }

  /** The first pair is passed over exactly if it names a bad point. */
  lemma NamesFirst(tape: seq<nat>, xDim: int, yDim: int, bad: set<int>)
    requires 0 < xDim && 0 < yDim && |tape| >= 2
    ensures if NamesBad(tape, xDim, yDim, bad, 0)
            then DrawGood(tape, xDim, yDim, bad) == DrawGood(tape[2..], xDim, yDim, bad)
            else DrawGood(tape, xDim, yDim, bad).Point?
  {
    hide MazeIndex, RandomBelow;
  }

  /** The k-th pair of values names a bad point. */
  predicate NamesBad(tape: seq<nat>, xDim: int, yDim: int, bad: set<int>, k: nat)
    requires 0 < xDim && 0 < yDim && 2 * k + 1 < |tape|
  {
    MazeIndex(xDim, RandomBelow(tape[2 * k], xDim) * 2 + 1, RandomBelow(tape[2 * k + 1], yDim) * 2 + 1) in bad
  }

  /** What is drawn is what the first pair names that does not name a bad point, and the values behind it are left. */
  lemma {:induction false} FirstGood(tape: seq<nat>, xDim: int, yDim: int, bad: set<int>) returns (k: nat)
    requires 0 < xDim && 0 < yDim && DrawGood(tape, xDim, yDim, bad).Point?
    ensures 2 * k + 1 < |tape| && !NamesBad(tape, xDim, yDim, bad, k)
    ensures forall j | 0 <= j < k :: NamesBad(tape, xDim, yDim, bad, j)
    ensures DrawGood(tape, xDim, yDim, bad)
            == Point(RandomBelow(tape[2 * k], xDim) * 2 + 1, RandomBelow(tape[2 * k + 1], yDim) * 2 + 1,
                     tape[2 * k + 2..])
  {
    hide MazeIndex, RandomBelow, NamesBad, DrawGood;
    DrawnAtAll(tape, xDim, yDim, bad);
    NamesFirst(tape, xDim, yDim, bad);
    if NamesBad(tape, xDim, yDim, bad, 0) {
      var i := FirstGood(tape[2..], xDim, yDim, bad);
      k := i + 1;
      PairsLater(tape, i);
      NameLater(tape, xDim, yDim, bad, i);
      forall j | 0 <= j < k ensures NamesBad(tape, xDim, yDim, bad, j) {
        if j > 0 {
          NameLater(tape, xDim, yDim, bad, j - 1);
        }
      }
    } else {
      k := 0;
      DrawnFirst(tape, xDim, yDim, bad);
    }
  }

  lemma DrawnAtAll(tape: seq<nat>, xDim: int, yDim: int, bad: set<int>)
    requires 0 < xDim && 0 < yDim && DrawGood(tape, xDim, yDim, bad).Point?
    ensures |tape| >= 2
  {
  }

  lemma NameLater(tape: seq<nat>, xDim: int, yDim: int, bad: set<int>, j: nat)
    requires 0 < xDim && 0 < yDim && 2 * j + 3 < |tape|
    ensures NamesBad(tape[2..], xDim, yDim, bad, j) == NamesBad(tape, xDim, yDim, bad, j + 1)
  {
    hide MazeIndex, RandomBelow;
    PairsLater(tape, j);
  }

  lemma PairsLater(tape: seq<nat>, i: nat)
    requires 2 * i + 3 < |tape|
    ensures tape[2..][2 * i] == tape[2 * (i + 1)] && tape[2..][2 * i + 1] == tape[2 * (i + 1) + 1]
    ensures tape[2..][2 * i + 2..] == tape[2 * (i + 1) + 2..]
  {
  }

  lemma DrawnFirst(tape: seq<nat>, xDim: int, yDim: int, bad: set<int>)
    requires 0 < xDim && 0 < yDim && |tape| >= 2 && !NamesBad(tape, xDim, yDim, bad, 0)
    ensures DrawGood(tape, xDim, yDim, bad)
            == Point(RandomBelow(tape[0], xDim) * 2 + 1, RandomBelow(tape[1], yDim) * 2 + 1, tape[2..])
  {
    hide MazeIndex, RandomBelow;
  }

  /** The cells that are open, and those that are marked. */
  ghost function OpenCells(c: seq<Cell>): set<int> {
    set i | 0 <= i < |c| && !c[i].wall
  }

  ghost function MarkedCells(c: seq<Cell>): set<int> {
    set i | 0 <= i < |c| && c[i].reach
  }

  /** The weight of a direction for a worm at (x,y): none without room. */
  function Weight(c: seq<Cell>, xDim: int, yDim: int, x: int, y: int, prefDir: int, dir: int): (w: int)
    requires 0 <= prefDir < 4 && 0 <= dir < 4
    ensures 0 <= w && (0 < w <==> HasRoom(xDim, yDim, x, y, dir))
  {
    var i := MazeIndex(xDim, x + 2 * StepX(dir), y + 2 * StepY(dir));
    if HasRoom(xDim, yDim, x, y, dir) then TurnWeight((prefDir + 4 - dir) % 4, 0 <= i < |c| && c[i] == WALL) else 0
  }

  /** One direction leads back from another. */
  predicate Opposed(d: int, e: int) {
    (d, e) in {(0, 2), (2, 0), (1, 3), (3, 1)}
  }

  /** A worm prefers to go straight on into a wall, to turn into one less, and to go anywhere else least of all. */
  lemma WeightIs(c: seq<Cell>, xDim: int, yDim: int, x: int, y: int, prefDir: int, dir: int)
    requires 0 <= prefDir < 4 && 0 <= dir < 4 && HasRoom(xDim, yDim, x, y, dir)
    ensures var i := MazeIndex(xDim, x + 2 * StepX(dir), y + 2 * StepY(dir));
            var walled := 0 <= i < |c| && c[i] == WALL;
            Weight(c, xDim, yDim, x, y, prefDir, dir) ==
            if Opposed(prefDir, dir) then 3 else if !walled then 1 else if dir == prefDir then 84 else 9
  {
  }

  /** The weight of the directions before one. */
  function WeightBefore(c: seq<Cell>, xDim: int, yDim: int, x: int, y: int, prefDir: int, dir: nat): (w: int)
    requires 0 <= prefDir < 4 && dir <= 4
    ensures 0 <= w
  {
    if dir == 0 then 0
    else WeightBefore(c, xDim, yDim, x, y, prefDir, dir - 1) + Weight(c, xDim, yDim, x, y, prefDir, dir - 1)
  }

  /** The four weights as the source finds them, one direction after another. */
  lemma WeightsAre(c: seq<Cell>, xDim: int, yDim: int, x: int, y: int, p: int)
    requires |c| == MAZE_SIZE && 0 <= p < 4
    requires 0 <= MazeIndex(xDim, x, y - 2) < MAZE_SIZE && 0 <= MazeIndex(xDim, x + 2, y) < MAZE_SIZE
    requires 0 <= MazeIndex(xDim, x, y + 2) < MAZE_SIZE && 0 <= MazeIndex(xDim, x - 2, y) < MAZE_SIZE
    ensures WeightBefore(c, xDim, yDim, x, y, p, 0) == 0
    ensures var w0 := if 1 < y then TurnWeight(p, c[MazeIndex(xDim, x, y - 2)] == WALL) else 0;
            var w1 := w0 + if x < 2 * xDim - 1 then TurnWeight((p + 3) % 4, c[MazeIndex(xDim, x + 2, y)] == WALL)
                else 0;
            var w2 := w1 + if y < 2 * yDim - 1 then TurnWeight((p + 2) % 4, c[MazeIndex(xDim, x, y + 2)] == WALL)
                else 0;
            var w3 := w2 + if 1 < x then TurnWeight((p + 1) % 4, c[MazeIndex(xDim, x - 2, y)] == WALL) else 0;
            && WeightBefore(c, xDim, yDim, x, y, p, 1) == w0 && WeightBefore(c, xDim, yDim, x, y, p, 2) == w1
            && WeightBefore(c, xDim, yDim, x, y, p, 3) == w2 && WeightBefore(c, xDim, yDim, x, y, p, 4) == w3
    ensures forall dir | 0 <= dir < 4
            && WeightBefore(c, xDim, yDim, x, y, p, dir) < WeightBefore(c, xDim, yDim, x, y, p, dir + 1) ::
              HasRoom(xDim, yDim, x, y, dir)
  {
    hide MazeIndex, TurnWeight;
    assert (p + 4) % 4 == p;
    assert WeightBefore(c, xDim, yDim, x, y, p, 1) == Weight(c, xDim, yDim, x, y, p, 0);
    assert WeightBefore(c, xDim, yDim, x, y, p, 2) ==
           WeightBefore(c, xDim, yDim, x, y, p, 1) + Weight(c, xDim, yDim, x, y, p, 1);
    assert WeightBefore(c, xDim, yDim, x, y, p, 3) ==
           WeightBefore(c, xDim, yDim, x, y, p, 2) + Weight(c, xDim, yDim, x, y, p, 2);
    assert WeightBefore(c, xDim, yDim, x, y, p, 4) ==
           WeightBefore(c, xDim, yDim, x, y, p, 3) + Weight(c, xDim, yDim, x, y, p, 3);
  }
}
