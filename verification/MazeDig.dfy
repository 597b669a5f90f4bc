/** The worm phase of make_maze (MP2/maze.c): what the maze looks like while worms dig it. */
module MazeDig {
  import opened MazeCells
  import opened MazeGraph

  /** turn_wt: how likely a worm is to turn by `turn` quarter turns, into open space or into wall. */
  function TurnWeight(turn: int, intoWall: bool): (weight: int)
    requires 0 <= turn < 4
    ensures 0 < weight <= 84
  {
    match turn
    case 0 => if intoWall then 84 else 1
    case 1 => if intoWall then 9 else 1
    case 2 => 3
    case _ => if intoWall then 9 else 1
  }

  /** `random() % n`. */
  function RandomBelow(draw: nat, n: int): (r: int)
    requires 0 < n
    ensures 0 <= r < n
  {
    draw % n
  }

  lemma OddBelow(a: int, n: int)
    requires 0 <= a < n
    ensures 0 <= a * 2 + 1 < 2 * n && (a * 2 + 1) % 2 == 1
  {
  }

  /** The lattice points still walled. */
  ghost function Walled(c: seq<Cell>, xDim: int, yDim: int): set<int> {
    set i | i in Lattice(xDim, yDim) && 0 <= i < |c| && c[i].wall
  }

  /** A dug edge joins two dug points. */
  ghost predicate RowEdgesJoin(c: seq<Cell>, xDim: int, yDim: int) {
    forall i | i in RowEdges(xDim, yDim) && Passage(c, i) :: Passage(c, i - 1) && Passage(c, i + 1)
  }

  ghost predicate ColumnEdgesJoin(c: seq<Cell>, xDim: int, yDim: int) {
    forall i | i in ColumnEdges(xDim, yDim) && Passage(c, i) :: Passage(c, i - 2 * xDim) && Passage(c, i + 2 * xDim)
  }

  /** Only lattice points and the cells between them are dug, so the boundary and the (even,even)
      cells are still wall, and dug edges join dug points. */
  ghost predicate Dug(c: seq<Cell>, xDim: int, yDim: int) {
    && |c| == MAZE_SIZE && GoodDims(xDim, yDim)
    && (forall i | 0 <= i < |c| :: c[i] == WALL || c[i] == NONE)
    && (forall i | 0 <= i < |c| && !c[i].wall ::
        i in Lattice(xDim, yDim) + RowEdges(xDim, yDim) + ColumnEdges(xDim, yDim))
    && RowEdgesJoin(c, xDim, yDim) && ColumnEdgesJoin(c, xDim, yDim)
  }

  lemma DugDims(c: seq<Cell>, xDim: int, yDim: int)
    requires Dug(c, xDim, yDim)
    ensures |c| == MAZE_SIZE && GoodDims(xDim, yDim)
  {
  }

  /** Lattice points and the edges of either kind are different cells. */
  lemma CellKinds(xDim: int, yDim: int)
    requires 0 < xDim
    ensures Lattice(xDim, yDim) !! RowEdges(xDim, yDim) !! ColumnEdges(xDim, yDim)
  {
    var L, R, C := Lattice(xDim, yDim), RowEdges(xDim, yDim), ColumnEdges(xDim, yDim);
    forall i | i in R ensures i !in L && i !in C {
      var x, y :| 0 < x < 2 * xDim && 0 < y < 2 * yDim && x % 2 == 0 && y % 2 == 1 && MazeIndex(xDim, x, y) == i;
      InLattice(xDim, yDim, x, y);
      InColumnEdges(xDim, yDim, x, y);
    }
    forall i | i in C ensures i !in L {
      var x, y :| 0 < x < 2 * xDim && 0 < y < 2 * yDim && x % 2 == 1 && y % 2 == 0 && MazeIndex(xDim, x, y) == i;
      InLattice(xDim, yDim, x, y);
    }
  }

  lemma DugBordered(c: seq<Cell>, xDim: int, yDim: int)
    requires Dug(c, xDim, yDim)
    ensures Bordered(c, xDim, yDim)
  {
    forall x, y | 0 <= x <= 2 * xDim && 0 <= y <= 2 * yDim && (x == 0 || x == 2 * xDim || y == 0 || y == 2 * yDim)
      ensures 0 <= MazeIndex(xDim, x, y) < MAZE_SIZE && c[MazeIndex(xDim, x, y)].wall
    {
      IndexInArray(xDim, yDim, x, y);
      InLattice(xDim, yDim, x, y);
      InRowEdges(xDim, yDim, x, y);
      InColumnEdges(xDim, yDim, x, y);
    }
  }

  /** The (even,even) cells stay walls too. */
  lemma DugPillars(c: seq<Cell>, xDim: int, yDim: int, x: int, y: int)
    requires Dug(c, xDim, yDim) && 0 <= x <= 2 * xDim && 0 <= y <= 2 * yDim && x % 2 == 0 && y % 2 == 0
    ensures !Passage(c, MazeIndex(xDim, x, y))
  {
    InLattice(xDim, yDim, x, y);
    InRowEdges(xDim, yDim, x, y);
    InColumnEdges(xDim, yDim, x, y);
  }

  lemma WalledSize(c: seq<Cell>, xDim: int, yDim: int, t: int)
    requires |c| == MAZE_SIZE && t in Lattice(xDim, yDim) && 0 <= t < |c|
    ensures |Walled(c, xDim, yDim) - {t}| == |Walled(c, xDim, yDim)| - if c[t].wall then 1 else 0
  {
    var w := Walled(c, xDim, yDim);
    if !c[t].wall {
      assert w - {t} == w;
    }
  }

  lemma DigPoint(c: seq<Cell>, xDim: int, yDim: int, p: int)
    requires Dug(c, xDim, yDim) && p in Lattice(xDim, yDim) && 0 <= p < |c|
    ensures Dug(c[p := NONE], xDim, yDim)
    ensures Walled(c[p := NONE], xDim, yDim) == Walled(c, xDim, yDim) - {p}
    ensures c[p] == WALL <==> c[p].wall
  {
    CellKinds(xDim, yDim);
    hide Lattice, RowEdges, ColumnEdges;
    var c' := c[p := NONE];
    assert MoreOpen(c, c');
    forall i | i in RowEdges(xDim, yDim) && Passage(c', i) ensures Passage(c', i - 1) && Passage(c', i + 1) {
      assert Passage(c, i - 1) && Passage(c, i + 1);
    }
    forall i | i in ColumnEdges(xDim, yDim) && Passage(c', i)
      ensures Passage(c', i - 2 * xDim) && Passage(c', i + 2 * xDim)
    {
      assert Passage(c, i - 2 * xDim) && Passage(c, i + 2 * xDim);
    }
  }

  /** A step `d` leads from lattice point `p` over an edge to the lattice point beyond. */
  ghost predicate Leads(xDim: int, yDim: int, p: int, d: int) {
    && p in Lattice(xDim, yDim) && p + 2 * d in Lattice(xDim, yDim)
    && (((d == 1 || d == -1) && p + d in RowEdges(xDim, yDim))
        || ((d == 2 * xDim || d == -2 * xDim) && p + d in ColumnEdges(xDim, yDim)))
  }

  lemma DigEdgeJoins(c: seq<Cell>, xDim: int, yDim: int, p: int, d: int)
    requires Dug(c, xDim, yDim) && Leads(xDim, yDim, p, d) && Passage(c, p) && Passage(c, p + 2 * d) && 0 <= p + d < |c|
    ensures RowEdgesJoin(c[p + d := NONE], xDim, yDim)
    ensures ColumnEdgesJoin(c[p + d := NONE], xDim, yDim)
  {
    DigRowEdge(c, xDim, yDim, p, d);
    DigColumnEdge(c, xDim, yDim, p, d);
  }

  lemma DigRowEdge(c: seq<Cell>, xDim: int, yDim: int, p: int, d: int)
    requires Dug(c, xDim, yDim) && Leads(xDim, yDim, p, d) && Passage(c, p) && Passage(c, p + 2 * d) && 0 <= p + d < |c|
    ensures RowEdgesJoin(c[p + d := NONE], xDim, yDim)
  {
    CellKinds(xDim, yDim);
    hide Lattice, RowEdges, ColumnEdges, ColumnEdgesJoin;
    var c' := c[p + d := NONE];
    forall i | i in RowEdges(xDim, yDim) && Passage(c', i) ensures Passage(c', i - 1) && Passage(c', i + 1) {
      assert i != p + d ==> Passage(c, i - 1) && Passage(c, i + 1);
    }
  }

  lemma DigColumnEdge(c: seq<Cell>, xDim: int, yDim: int, p: int, d: int)
    requires Dug(c, xDim, yDim) && Leads(xDim, yDim, p, d) && Passage(c, p) && Passage(c, p + 2 * d) && 0 <= p + d < |c|
    ensures ColumnEdgesJoin(c[p + d := NONE], xDim, yDim)
  {
    CellKinds(xDim, yDim);
    hide Lattice, RowEdges, ColumnEdges, RowEdgesJoin;
    var c' := c[p + d := NONE];
    forall i | i in ColumnEdges(xDim, yDim) && Passage(c', i)
      ensures Passage(c', i - 2 * xDim) && Passage(c', i + 2 * xDim)
    {
      assert i != p + d ==> Passage(c, i - 2 * xDim) && Passage(c, i + 2 * xDim);
    }
  }

  lemma DigEdge(c: seq<Cell>, xDim: int, yDim: int, p: int, d: int)
    requires Dug(c, xDim, yDim) && Leads(xDim, yDim, p, d) && Passage(c, p) && Passage(c, p + 2 * d) && 0 <= p + d < |c|
    ensures Dug(c[p + d := NONE], xDim, yDim)
    ensures Walled(c[p + d := NONE], xDim, yDim) == Walled(c, xDim, yDim)
  {
    CellKinds(xDim, yDim);
    DigEdgeJoins(c, xDim, yDim, p, d);
    hide Lattice, RowEdges, ColumnEdges, RowEdgesJoin, ColumnEdgesJoin;
  }

  /** A worm leaving a dug point `p` eats the cell in between and the next point. */
  lemma DigMove(c: seq<Cell>, xDim: int, yDim: int, p: int, d: int)
    requires Dug(c, xDim, yDim) && Passage(c, p) && Leads(xDim, yDim, p, d)
    requires 0 <= p + d < |c| && 0 <= p + 2 * d < |c|
    ensures Dug(c[p + d := NONE][p + 2 * d := NONE], xDim, yDim)
    ensures Walled(c[p + d := NONE][p + 2 * d := NONE], xDim, yDim) == Walled(c, xDim, yDim) - {p + 2 * d}
    ensures Passage(c[p + d := NONE][p + 2 * d := NONE], p + 2 * d)
    ensures c[p + d := NONE][p + 2 * d] == c[p + 2 * d] && (c[p + 2 * d].wall <==> c[p + 2 * d] == WALL)
    ensures |Walled(c, xDim, yDim) - {p + 2 * d}| == |Walled(c, xDim, yDim)| - if c[p + 2 * d] == WALL then 1 else 0
  {
    var e, t := p + d, p + 2 * d;
    hide Dug, Lattice, RowEdges, ColumnEdges, Walled;
    DugDims(c, xDim, yDim);
    WalledSize(c, xDim, yDim, t);
    DigPoint(c, xDim, yDim, t);
    DigEdge(c[t := NONE], xDim, yDim, p, d);
    assert c[e := NONE][t := NONE] == c[t := NONE][e := NONE];
  }

  /** Whether a worm at (x,y) has room to move in direction `dir` (0 up, 1 right, 2 down, 3 left). */
  predicate HasRoom(xDim: int, yDim: int, x: int, y: int, dir: int) {
    || (dir == 0 && 1 < y) || (dir == 1 && x < 2 * xDim - 1)
    || (dir == 2 && y < 2 * yDim - 1) || (dir == 3 && 1 < x)
  }

  predicate IsLatticePoint(xDim: int, yDim: int, x: int, y: int) {
    0 <= x < 2 * xDim && 0 <= y < 2 * yDim && x % 2 == 1 && y % 2 == 1
  }

  function StepX(dir: int): int { if dir == 1 then 1 else if dir == 3 then -1 else 0 }

  function StepY(dir: int): int { if dir == 0 then -1 else if dir == 2 then 1 else 0 }

  /** One step in direction `dir`, as a distance in the array. */
  function Step(xDim: int, dir: int): int {
    if dir == 0 then -2 * xDim else if dir == 1 then 1 else if dir == 2 then 2 * xDim else -1
  }

  lemma StepIndex(xDim: int, x: int, y: int, dir: int)
    requires 0 <= dir < 4 && 1 <= y
    ensures MazeIndex(xDim, x + StepX(dir), y + StepY(dir)) == MazeIndex(xDim, x, y) + Step(xDim, dir)
    ensures MazeIndex(xDim, x + 2 * StepX(dir), y + 2 * StepY(dir)) == MazeIndex(xDim, x, y) + 2 * Step(xDim, dir)
  {
    IndexSteps(xDim, x, y);
  }

  /** Parity and bounds of a move with room: another lattice point, over an edge cell. */
  lemma MovePoint(xDim: int, yDim: int, x: int, y: int, dir: int)
    requires IsLatticePoint(xDim, yDim, x, y) && 0 <= dir < 4 && HasRoom(xDim, yDim, x, y, dir)
    ensures IsLatticePoint(xDim, yDim, x + 2 * StepX(dir), y + 2 * StepY(dir))
    ensures 0 < x + StepX(dir) < 2 * xDim && 0 < y + StepY(dir) < 2 * yDim
    ensures if dir == 1 || dir == 3 then (x + StepX(dir)) % 2 == 0 && y % 2 == 1
            else x % 2 == 1 && (y + StepY(dir)) % 2 == 0
  {
  }

  lemma PointInLattice(xDim: int, yDim: int, x: int, y: int)
    requires IsLatticePoint(xDim, yDim, x, y)
    ensures MazeIndex(xDim, x, y) in Lattice(xDim, yDim)
  {
  }

  lemma MoveLeads(xDim: int, yDim: int, x: int, y: int, dir: int)
    requires GoodDims(xDim, yDim) && IsLatticePoint(xDim, yDim, x, y)
    requires 0 <= dir < 4 && HasRoom(xDim, yDim, x, y, dir)
    ensures IsLatticePoint(xDim, yDim, x + 2 * StepX(dir), y + 2 * StepY(dir))
    ensures Leads(xDim, yDim, MazeIndex(xDim, x, y), Step(xDim, dir))
  {
    hide Lattice, RowEdges, ColumnEdges, MazeIndex;
    assert 1 <= y;
    hide IsLatticePoint, HasRoom;
    StepIndex(xDim, x, y, dir);
    MovePoint(xDim, yDim, x, y, dir);
    PointInLattice(xDim, yDim, x, y);
    PointInLattice(xDim, yDim, x + 2 * StepX(dir), y + 2 * StepY(dir));
    if dir == 1 || dir == 3 {
      InRowEdges(xDim, yDim, x + StepX(dir), y);
    } else {
      InColumnEdges(xDim, yDim, x, y + StepY(dir));
    }
  }

  lemma MoveInArray(xDim: int, yDim: int, x: int, y: int, dir: int)
    requires GoodDims(xDim, yDim) && IsLatticePoint(xDim, yDim, x, y) && 0 <= dir < 4
    ensures 0 <= MazeIndex(xDim, x + StepX(dir), y + StepY(dir)) < MAZE_SIZE
    ensures 0 <= MazeIndex(xDim, x + 2 * StepX(dir), y + 2 * StepY(dir)) < MAZE_SIZE
  {
    StepIndex(xDim, x, y, dir);
    InLattice(xDim, yDim, x, y);
    LatticeAround(xDim, yDim, MazeIndex(xDim, x, y));
  }

  lemma PointsAround(xDim: int, yDim: int, x: int, y: int)
    requires GoodDims(xDim, yDim) && IsLatticePoint(xDim, yDim, x, y)
    ensures 0 <= MazeIndex(xDim, x, y - 2) < MAZE_SIZE && 0 <= MazeIndex(xDim, x + 2, y) < MAZE_SIZE
    ensures 0 <= MazeIndex(xDim, x, y + 2) < MAZE_SIZE && 0 <= MazeIndex(xDim, x - 2, y) < MAZE_SIZE
  {
    IndexSteps(xDim, x, y);
    PointInLattice(xDim, yDim, x, y);
    LatticeAround(xDim, yDim, MazeIndex(xDim, x, y));
  }

  /** What a worm's move from the dug point (x,y) makes of the maze. */
  lemma WormStep(c: seq<Cell>, xDim: int, yDim: int, x: int, y: int, dir: int, e: int, t: int)
    requires Dug(c, xDim, yDim) && IsLatticePoint(xDim, yDim, x, y) && Passage(c, MazeIndex(xDim, x, y))
    requires 0 <= dir < 4 && HasRoom(xDim, yDim, x, y, dir)
    requires e == MazeIndex(xDim, x + StepX(dir), y + StepY(dir))
    requires t == MazeIndex(xDim, x + 2 * StepX(dir), y + 2 * StepY(dir))
    ensures |c| == MAZE_SIZE && 0 <= e < |c| && 0 <= t < |c|
    ensures IsLatticePoint(xDim, yDim, x + 2 * StepX(dir), y + 2 * StepY(dir))
    ensures Dug(c[e := NONE][t := NONE], xDim, yDim) && Passage(c[e := NONE][t := NONE], t)
    ensures |Walled(c[e := NONE][t := NONE], xDim, yDim)|
            == |Walled(c, xDim, yDim)| - if c[e := NONE][t] == WALL then 1 else 0
  {
    hide Dug, Lattice, Walled, RowEdges, ColumnEdges, Step, Leads, MazeIndex, HasRoom, Passage;
    DugDims(c, xDim, yDim);
    MoveInArray(xDim, yDim, x, y, dir);
    MoveLeads(xDim, yDim, x, y, dir);
    StepIndex(xDim, x, y, dir);
    DigMove(c, xDim, yDim, MazeIndex(xDim, x, y), Step(xDim, dir));
  }

  /** The maze as make_maze first fills it. */
  lemma AllWalls(c: seq<Cell>, xDim: int, yDim: int)
    requires GoodDims(xDim, yDim) && |c| == MAZE_SIZE && forall i | 0 <= i < |c| :: c[i] == WALL
    ensures Dug(c, xDim, yDim) && |Walled(c, xDim, yDim)| == xDim * yDim
    ensures IsLatticePoint(xDim, yDim, 1, 1)
  {
    LatticeSize(xDim, yDim);
    forall i | i in Lattice(xDim, yDim) ensures i in Walled(c, xDim, yDim) {
      LatticeAround(xDim, yDim, i);
    }
    assert Walled(c, xDim, yDim) == Lattice(xDim, yDim);
  }
}
