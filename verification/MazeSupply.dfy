/** Which random values let make_maze (MP2/maze.c) finish, and that there are such values. */
module MazeSupply {
  import opened MazeCells
  import opened MazeGraph
  import opened MazeDig
  import opened MazeDraw
  import opened MazeWorms
  import opened MazeTape
  import opened MazeRepair
  import opened MazeSearch
  import opened MazePlay

  /** The maze with its fruits and the values left, unless there were not enough of them. */
  datatype Growth = Short | Grown(cells: seq<Cell>, rest: seq<nat>)

  /** The maze after one fruit more: on the first drawn point without one, and of the kind drawn next. */
  ghost function OneFruit(c: seq<Cell>, xDim: int, yDim: int, tape: seq<nat>): Growth
    requires 0 < xDim && 0 < yDim
  {
    var d := DrawGood(tape, xDim, yDim, Fruited(c));
    if d.NoDraw? || d.rest == [] then Short
    else
      var i := MazeIndex(xDim, d.x, d.y);
      Grown(if 0 <= i < |c| then c[i := c[i].(fruit := RandomBelow(d.rest[0], 7) + 1)] else c, d.rest[1..])
  }

  /** The first pair of values that names a point without a fruit says where, and the next value which of the seven. */
  lemma OneFruitIs(c: seq<Cell>, xDim: int, yDim: int, tape: seq<nat>) returns (k: nat)
    requires 0 < xDim && 0 < yDim && OneFruit(c, xDim, yDim, tape).Grown?
    ensures 2 * k + 2 < |tape| && (forall j | 0 <= j < k :: NamesBad(tape, xDim, yDim, Fruited(c), j))
    ensures !NamesBad(tape, xDim, yDim, Fruited(c), k)
    ensures var i := MazeIndex(xDim, tape[2 * k] % xDim * 2 + 1, tape[2 * k + 1] % yDim * 2 + 1);
            0 <= i < |c| ==>
              OneFruit(c, xDim, yDim, tape)
              == Grown(c[i := c[i].(fruit := tape[2 * k + 2] % 7 + 1)], tape[2 * k + 3..])
  {
    hide MazeIndex, NamesBad, Fruited, DrawGood;
    k := FirstGood(tape, xDim, yDim, Fruited(c));
  }

  /** The maze after n fruits more. */
  ghost function Grow(c: seq<Cell>, xDim: int, yDim: int, n: nat, tape: seq<nat>): Growth
    requires 0 < xDim && 0 < yDim
    decreases n
  {
    if n == 0 then Grown(c, tape)
    else
      var g := OneFruit(c, xDim, yDim, tape);
      if g.Short? then Short else Grow(g.cells, xDim, yDim, n - 1, g.rest)
  }

  /** The point where the exit goes. */
  ghost function ExitDraw(c: seq<Cell>, xDim: int, yDim: int, n: nat, tape: seq<nat>): Draw
    requires 0 < xDim && 0 < yDim
  {
    var g := Grow(c, xDim, yDim, n, tape);
    if g.Short? then NoDraw else DrawGood(g.rest, xDim, yDim, Fruited(g.cells))
  }

  /** With values in plenty and more points than fruits, all fruits find a place, and so does the exit. */
  lemma {:induction false} GrowthSucceeds(c: seq<Cell>, xDim: int, yDim: int, n: nat, tape: seq<nat>)
    requires |c| == MAZE_SIZE && FruitsOnLattice(c, xDim, yDim) && GoodDims(xDim, yDim)
    requires |Fruited(c)| + n < xDim * yDim && Plenty(tape, xDim, yDim, n + 1)
    ensures ExitDraw(c, xDim, yDim, n, tape).Point?
    decreases n
  {
    hide FruitsOnLattice, Fruited, Lattice, MazeIndex, DrawGood, Missing, RandomBelow, IsLatticePoint, Plenty;
    FruitsLeaveRoom(c, xDim, yDim);
    PlentyHits(tape, xDim, yDim, n + 1, Fruited(c));
    if n > 0 {
      var d := DrawGood(tape, xDim, yDim, Fruited(c));
      DrawnInLattice(tape, xDim, yDim, Fruited(c));
      var i, f := MazeIndex(xDim, d.x, d.y), RandomBelow(d.rest[0], 7) + 1;
      NoFruit(c, xDim, yDim, i);
      FruitPlaced(c, xDim, yDim, i, f);
      GrowthSucceeds(c[i := c[i].(fruit := f)], xDim, yDim, n - 1, d.rest[1..]);
    }
  }

  lemma FruitsLeaveRoom(c: seq<Cell>, xDim: int, yDim: int)
    requires FruitsOnLattice(c, xDim, yDim) && GoodDims(xDim, yDim) && |Fruited(c)| < xDim * yDim
    ensures Missing(Fruited(c), xDim, yDim)
  {
    LatticeSize(xDim, yDim);
    FewMissing(Fruited(c), xDim, yDim);
  }

  /** A lattice point without a fruit means that there are fewer fruits than points. */
  lemma RoomForExit(c: seq<Cell>, xDim: int, yDim: int, i: int)
    requires FruitsOnLattice(c, xDim, yDim) && GoodDims(xDim, yDim)
    requires i in Lattice(xDim, yDim) && 0 <= i < |c| && c[i].fruit == 0
    ensures |Fruited(c)| < xDim * yDim
  {
    hide Lattice, MazeIndex;
    LatticeSize(xDim, yDim);
    SubsetSize(Fruited(c) + {i}, Lattice(xDim, yDim));
  }

  lemma NoFruit(c: seq<Cell>, xDim: int, yDim: int, i: int)
    requires |c| == MAZE_SIZE && GoodDims(xDim, yDim) && i in Lattice(xDim, yDim) && i !in Fruited(c)
    ensures 0 <= i < |c| && c[i].fruit == 0
  {
    LatticeAround(xDim, yDim, i);
  }

  function Fruits(startFruits: int): nat {
    if startFruits < 0 then 0 else startFruits
  }

  /** What the digging leaves of the values, if they last. */
  ghost function Digging(c: seq<Cell>, xDim: int, yDim: int, tape: seq<nat>): Tries
    requires 0 < xDim && 0 < yDim
  {
    var w := Worms(c, xDim, yDim, 1, 1, tape);
    if w.Lost? then Stuck else RandomTries(w.cells, xDim, yDim, 0, w.rest)
  }

  /** The values last for the worms, for the random tries of the repair, and for the fruits and the exit. */
  ghost predicate Suffices(tape: seq<nat>, xDim: int, yDim: int, startFruits: int)
    requires 0 < xDim && 0 < yDim
  {
    var c := seq(MAZE_SIZE, _ => WALL);
    var t := Digging(c, xDim, yDim, tape);
    t.Through? && ExitDraw(c, xDim, yDim, Fruits(startFruits), t.rest).Point?
  }

  /** Where the fruits are is all that the places of further fruits and of the exit depend on. */
  lemma {:induction false} ExitByFruits(c: seq<Cell>, d: seq<Cell>, xDim: int, yDim: int, n: nat, tape: seq<nat>)
    requires 0 < xDim && 0 < yDim && |c| == |d| && Fruited(c) == Fruited(d)
    ensures ExitDraw(c, xDim, yDim, n, tape) == ExitDraw(d, xDim, yDim, n, tape)
    decreases n
  {
    hide DrawGood, Fruited, MazeIndex, RandomBelow;
    if n > 0 {
      var g, h := OneFruit(c, xDim, yDim, tape), OneFruit(d, xDim, yDim, tape);
      if g.Grown? {
        var p := DrawGood(tape, xDim, yDim, Fruited(c));
        var i := MazeIndex(xDim, p.x, p.y);
        if 0 <= i < |c| {
          FruitsWith(c, i, RandomBelow(p.rest[0], 7) + 1);
          FruitsWith(d, i, RandomBelow(p.rest[0], 7) + 1);
        }
        ExitByFruits(g.cells, h.cells, xDim, yDim, n - 1, g.rest);
      }
    }
  }

  lemma NoFruits(c: seq<Cell>, walls: seq<Cell>)
    requires |Fruited(c)| == 0 && walls == seq(|walls|, _ => WALL)
    ensures Fruited(c) == Fruited(walls)
  {
  }

  lemma FruitsWith(c: seq<Cell>, i: int, f: int)
    requires 0 <= i < |c| && f != 0
    ensures Fruited(c[i := c[i].(fruit := f)]) == Fruited(c) + {i}
  {
  }

  /** The values finish the worm phase and are plenty for the repair, the fruits and the exit; and there are more
      lattice points than fruits. */
  ghost predicate Ample(tape: seq<nat>, xDim: int, yDim: int, startFruits: int)
    requires 0 < xDim && 0 < yDim
  {
    var w := Worms(seq(MAZE_SIZE, _ => WALL), xDim, yDim, 1, 1, tape);
    && startFruits < xDim * yDim && w.Ended?
    && Plenty(w.rest, xDim, yDim, RANDOM_TRIALS + Fruits(startFruits) + 1)
  }

  /** Such values suffice. */
  lemma AmpleSuffices(tape: seq<nat>, xDim: int, yDim: int, startFruits: int)
    requires GoodDims(xDim, yDim) && Ample(tape, xDim, yDim, startFruits)
    ensures Suffices(tape, xDim, yDim, startFruits)
  {
    hide Worms, Plenty, RandomTries, ExitDraw;
    var c := seq(MAZE_SIZE, _ => WALL);
    var w := Worms(c, xDim, yDim, 1, 1, tape);
    TriesThrough(w.cells, xDim, yDim, 0, w.rest, Fruits(startFruits) + 1);
    assert Fruited(c) == {};
    GrowthSucceeds(c, xDim, yDim, Fruits(startFruits), RandomTries(w.cells, xDim, yDim, 0, w.rest).rest);
  }

  /** For every permitted size and any number of fruits that leaves a point for the exit, some random values suffice. */
  lemma SufficientTape(xDim: int, yDim: int, startFruits: int) returns (tape: seq<nat>)
    requires GoodDims(xDim, yDim) && startFruits < xDim * yDim
    ensures Suffices(tape, xDim, yDim, startFruits)
  {
    hide Dug, Walled, Plenty, Worms, Suffices;
    var c := seq(MAZE_SIZE, _ => WALL);
    AllWalls(c, xDim, yDim);
    var rest := PlentyExists(xDim, yDim, RANDOM_TRIALS + Fruits(startFruits) + 1);
    tape := WormsTape(c, xDim, yDim, 1, 1, rest);
    AmpleSuffices(tape, xDim, yDim, startFruits);
  }
}
