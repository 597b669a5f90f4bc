/** What a finished maze is, and what play keeps: the walls never change, the lattice is connected,
    fruits lie on lattice points and are counted, and one lattice point is the exit. */
module MazePlay {
  import opened MazeCells
  import opened MazeGraph
  import opened MazeSearch
  import opened MazeDig
  import opened MazeRepair

  /** The walls alone. */
  ghost function Bare(c: seq<Cell>): seq<Cell> {
    seq(|c|, i requires 0 <= i < |c| => if c[i].wall then WALL else NONE)
  }

  /** A proper maze: every lattice point is open and joined to (1,1), the boundary and pillars are wall. */
  ghost predicate ProperWalls(c: seq<Cell>, xDim: int, yDim: int) {
    && Dug(Bare(c), xDim, yDim) && Walled(Bare(c), xDim, yDim) == {}
    && Component(Bare(c), xDim, yDim) == Lattice(xDim, yDim)
  }

  /** The cells that hold a fruit. */
  ghost function Fruited(c: seq<Cell>): set<int> {
    set i | 0 <= i < |c| && c[i].fruit != 0
  }

  ghost predicate FruitsOnLattice(c: seq<Cell>, xDim: int, yDim: int) {
    && (forall i | 0 <= i < |c| :: 0 <= c[i].fruit <= 7)
    && Fruited(c) <= Lattice(xDim, yDim)
  }

  ghost predicate Playable(c: seq<Cell>, xDim: int, yDim: int, nFruits: int, exitX: int, exitY: int) {
    && ProperWalls(c, xDim, yDim)
    && FruitsOnLattice(c, xDim, yDim) && nFruits == |Fruited(c)|
    && IsLatticePoint(xDim, yDim, exitX, exitY)
    && (forall i | 0 <= i < |c| :: c[i].exit <==> i == MazeIndex(xDim, exitX, exitY))
  }

  /** Any lattice point of a proper maze can be reached from any other through open cells. */
  lemma ProperConnected(c: seq<Cell>, xDim: int, yDim: int, p: int, q: int)
    requires ProperWalls(c, xDim, yDim) && p in Lattice(xDim, yDim) && q in Lattice(xDim, yDim)
    ensures Passage(c, p) && Passage(c, q) && Reaches(c, 2 * xDim, {}, p, q)
  {
    hide MazeIndex, Lattice, Reaches;
    var s, w, b := MazeIndex(xDim, 1, 1), 2 * xDim, Bare(c);
    assert p in Component(b, xDim, yDim) && q in Component(b, xDim, yDim);
    ReachesBack(b, w, {}, s, p);
    ReachesJoin(b, w, {}, p, s, q);
    ReachesMore(b, c, w, {}, {}, p, q);
    LatticeAround(xDim, yDim, p);
    LatticeAround(xDim, yDim, q);
    assert p !in Walled(b, xDim, yDim) && q !in Walled(b, xDim, yDim);
  }

  lemma ProperBordered(c: seq<Cell>, xDim: int, yDim: int)
    requires ProperWalls(c, xDim, yDim)
    ensures Bordered(c, xDim, yDim)
  {
    DugBordered(Bare(c), xDim, yDim);
  }

  /** Changing anything but the walls keeps the maze proper. */
  lemma SameWalls(c: seq<Cell>, i: int, v: Cell)
    requires 0 <= i < |c| && v.wall == c[i].wall
    ensures Bare(c[i := v]) == Bare(c)
  {
  }

  /** A fruit more, a fruit less. */
  lemma FruitCount(c: seq<Cell>, i: int, f: int)
    requires 0 <= i < |c| && (f == 0 <==> c[i].fruit != 0)
    ensures |Fruited(c[i := c[i].(fruit := f)])| == |Fruited(c)| + if f == 0 then -1 else 1
    ensures Fruited(c[i := c[i].(fruit := f)]) == if f == 0 then Fruited(c) - {i} else Fruited(c) + {i}
  {
    var a, b := Fruited(c), Fruited(c[i := c[i].(fruit := f)]);
    if f == 0 {
      assert b == a - {i};
    } else {
      assert b == a + {i};
    }
  }

  /** A fruit on an unfruited lattice point changes only itself and the count. */
  lemma FruitAdded(c: seq<Cell>, xDim: int, yDim: int, i: int, f: int)
    requires ProperWalls(c, xDim, yDim) && FruitsOnLattice(c, xDim, yDim)
    requires i in Lattice(xDim, yDim) && 0 <= i < |c| && c[i].fruit == 0 && 1 <= f <= 7
    ensures var e := c[i := c[i].(fruit := f)];
            ProperWalls(e, xDim, yDim) && FruitsOnLattice(e, xDim, yDim) && |Fruited(e)| == |Fruited(c)| + 1
  {
    SameWalls(c, i, c[i].(fruit := f));
    FruitPlaced(c, xDim, yDim, i, f);
  }

  lemma FruitPlaced(c: seq<Cell>, xDim: int, yDim: int, i: int, f: int)
    requires FruitsOnLattice(c, xDim, yDim)
    requires i in Lattice(xDim, yDim) && 0 <= i < |c| && c[i].fruit == 0 && 1 <= f <= 7
    ensures var e := c[i := c[i].(fruit := f)]; FruitsOnLattice(e, xDim, yDim) && |Fruited(e)| == |Fruited(c)| + 1
  {
    hide Lattice;
    FruitCount(c, i, f);
  }

  /** The repaired maze without its marks is a proper maze with nothing in it. */
  lemma RepairedProper(d: seq<Cell>, c: seq<Cell>, xDim: int, yDim: int)
    requires Repairing(d, c, xDim, yDim) && Component(d, xDim, yDim) == Lattice(xDim, yDim)
    ensures ProperWalls(d, xDim, yDim) && FruitsOnLattice(d, xDim, yDim) && |Fruited(d)| == 0
    ensures forall i | 0 <= i < |d| :: !d[i].exit && !d[i].reach
  {
    assert Bare(d) == d;
    assert Fruited(d) == {};
  }

  lemma NoMarks(d: seq<Cell>)
    ensures WithMarks(d, {}) == d
  {
  }

  lemma ClearOne(d: seq<Cell>, left: set<int>, i: int)
    requires 0 <= i < |d| && !d[i].reach
    ensures |WithMarks(d, left)| == |d|
    ensures WithMarks(d, left)[i := WithMarks(d, left)[i].(reach := false)] == WithMarks(d, left - {i})
  {
  }

  /** The lattice points of the columns from x on, without those of column x above row y. */
  ghost function ToClear(xDim: int, yDim: int, x: int, y: int): set<int> {
    set x', y' | 0 <= x' < 2 * xDim && 0 <= y' < 2 * yDim && x' % 2 == 1 && y' % 2 == 1
        && (x < x' || (x == x' && y <= y')) ::
      MazeIndex(xDim, x', y')
  }

  lemma ToClearSteps(xDim: int, yDim: int, x: int, y: int)
    requires GoodDims(xDim, yDim) && x % 2 == 1 && y % 2 == 1 && 0 <= x < 2 * xDim && 0 <= y
    ensures ToClear(xDim, yDim, 1, 1) == Lattice(xDim, yDim)
    ensures ToClear(xDim, yDim, 2 * xDim + 1, 1) == {}
    ensures 2 * yDim <= y ==> ToClear(xDim, yDim, x, y) == ToClear(xDim, yDim, x + 2, 1)
    ensures y < 2 * yDim ==> ToClear(xDim, yDim, x, y + 2) == ToClear(xDim, yDim, x, y) - {MazeIndex(xDim, x, y)}
  {
    hide Lattice, ToClear, MazeIndex, GoodDims;
    ToClearAll(xDim, yDim);
    ToClearNone(xDim, yDim);
    if 2 * yDim <= y {
      ToClearColumn(xDim, yDim, x, y);
    } else {
      ToClearPoint(xDim, yDim, x, y);
    }
  }

  lemma ToClearAll(xDim: int, yDim: int)
    ensures ToClear(xDim, yDim, 1, 1) == Lattice(xDim, yDim)
  {
    hide MazeIndex;
  }

  lemma ToClearNone(xDim: int, yDim: int)
    ensures ToClear(xDim, yDim, 2 * xDim + 1, 1) == {}
  {
    hide MazeIndex;
  }

  lemma ToClearColumn(xDim: int, yDim: int, x: int, y: int)
    requires x % 2 == 1 && 2 * yDim <= y
    ensures ToClear(xDim, yDim, x, y) == ToClear(xDim, yDim, x + 2, 1)
  {
    hide MazeIndex;
  }

  lemma ToClearPoint(xDim: int, yDim: int, x: int, y: int)
    requires GoodDims(xDim, yDim) && x % 2 == 1 && y % 2 == 1 && 0 <= x < 2 * xDim && 0 <= y < 2 * yDim
    ensures ToClear(xDim, yDim, x, y + 2) == ToClear(xDim, yDim, x, y) - {MazeIndex(xDim, x, y)}
  {
    hide MazeIndex;
    if y < 2 * yDim {
      var a, b, i := ToClear(xDim, yDim, x, y), ToClear(xDim, yDim, x, y + 2), MazeIndex(xDim, x, y);
      assert i !in b by {
        if i in b {
          var x', y' :| 0 <= x' < 2 * xDim && 0 <= y' < 2 * yDim && x' % 2 == 1 && y' % 2 == 1
                        && (x < x' || (x == x' && y + 2 <= y')) && MazeIndex(xDim, x', y') == i;
          IndexAlias(xDim, x, y, x', y');
        }
      }
    }
  }

  lemma ClearStart(d: seq<Cell>, c: seq<Cell>, xDim: int, yDim: int)
    requires Repairing(d, c, xDim, yDim) && Component(d, xDim, yDim) == Lattice(xDim, yDim)
    ensures GoodDims(xDim, yDim) && |d| == |c| == MAZE_SIZE && c == WithMarks(d, ToClear(xDim, yDim, 1, 1))
    ensures ToClear(xDim, yDim, 2 * xDim + 1, 1) == {}
    ensures forall i | 0 <= i < |d| :: !d[i].reach
  {
    hide Lattice, ToClear, RowEdges, ColumnEdges, RowEdgesJoin, ColumnEdgesJoin, Component, Walled;
    ToClearSteps(xDim, yDim, 1, 1);
  }

  /** Clearing the mark of (x,y), and reaching the foot of a column. */
  lemma ClearStep(d: seq<Cell>, xDim: int, yDim: int, x: int, y: int)
    requires GoodDims(xDim, yDim) && |d| == MAZE_SIZE && forall i | 0 <= i < |d| :: !d[i].reach
    requires IsLatticePoint(xDim, yDim, x, y)
    ensures var c, i := WithMarks(d, ToClear(xDim, yDim, x, y)), MazeIndex(xDim, x, y);
            && |c| == MAZE_SIZE && 0 <= i < MAZE_SIZE
            && c[i := c[i].(reach := false)] == WithMarks(d, ToClear(xDim, yDim, x, y + 2))
    ensures ToClear(xDim, yDim, x, 2 * yDim + 1) == ToClear(xDim, yDim, x + 2, 1)
  {
    hide ToClear, Lattice, WithMarks;
    PointInLattice(xDim, yDim, x, y);
    LatticeAround(xDim, yDim, MazeIndex(xDim, x, y));
    ToClearSteps(xDim, yDim, x, y);
    ToClearSteps(xDim, yDim, x, 2 * yDim + 1);
    hide MazeIndex;
    ClearOne(d, ToClear(xDim, yDim, x, y), MazeIndex(xDim, x, y));
  }

  lemma ExitPlaced(c: seq<Cell>, xDim: int, yDim: int, x: int, y: int)
    requires ProperWalls(c, xDim, yDim) && FruitsOnLattice(c, xDim, yDim) && IsLatticePoint(xDim, yDim, x, y)
    requires forall i | 0 <= i < |c| :: !c[i].exit
    requires 0 <= MazeIndex(xDim, x, y) < |c|
    ensures var i := MazeIndex(xDim, x, y);
            Playable(c[i := c[i].(exit := true)], xDim, yDim, |Fruited(c)|, x, y)
  {
    var i := MazeIndex(xDim, x, y);
    var e := c[i := c[i].(exit := true)];
    SameWalls(c, i, c[i].(exit := true));
    assert Fruited(e) == Fruited(c);
  }

  lemma ProperDims(c: seq<Cell>, xDim: int, yDim: int)
    requires ProperWalls(c, xDim, yDim)
    ensures |c| == MAZE_SIZE && GoodDims(xDim, yDim)
  {
  }

  /** Play moves no wall and forgets nothing seen. */
  ghost predicate Grows(c: seq<Cell>, d: seq<Cell>) {
    |c| == |d| && forall i | 0 <= i < |c| :: c[i].wall == d[i].wall && (c[i].reach ==> d[i].reach)
  }

  lemma GrowsSelf(c: seq<Cell>)
    ensures Grows(c, c)
  {
  }

  lemma GrowsOn(c: seq<Cell>, d: seq<Cell>, e: seq<Cell>)
    requires Grows(c, d) && Grows(d, e)
    ensures Grows(c, e)
  {
  }

  /** Whether cell (x,y), if there is one, has been seen. */
  ghost predicate Seen(c: seq<Cell>, xDim: int, yDim: int, x: int, y: int) {
    var i := MazeIndex(xDim, x, y);
    0 <= x <= 2 * xDim && 0 <= y <= 2 * yDim && 0 <= i < |c| ==> c[i].reach
  }

  /** The maze after lattice coordinate (x,y) has been seen. */
  ghost function Unveiled(c: seq<Cell>, xDim: int, yDim: int, x: int, y: int): seq<Cell> {
    var i := MazeIndex(xDim, x, y);
    if 0 <= x <= 2 * xDim && 0 <= y <= 2 * yDim && 0 <= i < |c| then c[i := c[i].(reach := true)] else c
  }

  /** The maze after several coordinates have been seen, one after another. */
  ghost function UnveiledAll(c: seq<Cell>, xDim: int, yDim: int, ps: seq<(int, int)>): seq<Cell> {
    if ps == [] then c
    else
      var p := ps[|ps| - 1];
      Unveiled(UnveiledAll(c, xDim, yDim, ps[..|ps| - 1]), xDim, yDim, p.0, p.1)
  }

  /** Exactly the listed cells are seen in addition, whatever the order, and nothing else changes. */
  lemma {:induction false} UnveiledAllIs(c: seq<Cell>, xDim: int, yDim: int, ps: seq<(int, int)>, k: int)
    requires 0 <= k < |c|
    ensures |UnveiledAll(c, xDim, yDim, ps)| == |c|
    ensures var listed := exists p ::
            p in ps && 0 <= p.0 <= 2 * xDim && 0 <= p.1 <= 2 * yDim && MazeIndex(xDim, p.0, p.1) == k;
            UnveiledAll(c, xDim, yDim, ps)[k] == if listed then c[k].(reach := true) else c[k]
  {
    hide MazeIndex;
    if ps != [] {
      var early, p := ps[..|ps| - 1], ps[|ps| - 1];
      UnveiledAllIs(c, xDim, yDim, early, k);
      assert ps == early + [p];
      assert forall q :: q in ps <==> q in early || q == p;
    }
  }

  /** The cells that a player at (x,y) sees: those around, and one more in each direction. */
  function Square(x: int, y: int): seq<(int, int)> {
    [ (x - 1, y - 1), (x - 1, y), (x - 1, y + 1),
      (x, y - 1), (x, y), (x, y + 1),
      (x + 1, y - 1), (x + 1, y), (x + 1, y + 1) ]
  }

  function Sight(x: int, y: int): seq<(int, int)> {
    Square(x, y) + [(x, y - 2), (x + 2, y), (x, y + 2), (x - 2, y)]
  }

  /** The maze after a player has come to cell (x,y): its fruit is gone, and what is in sight has been seen. */
  ghost function LookedAround(c: seq<Cell>, xDim: int, yDim: int, x: int, y: int): seq<Cell> {
    var i := MazeIndex(xDim, x, y);
    UnveiledAll(if 0 <= i < |c| then c[i := c[i].(fruit := 0)] else c, xDim, yDim, Sight(x, y))
  }

  /** The squared distance of two cells. */
  function Distance2(x: int, y: int, x': int, y': int): int {
    (x' - x) * (x' - x) + (y' - y) * (y' - y)
  }

  /** In sight is what is no more than two cells away. */
  lemma InSight(x: int, y: int, p: (int, int))
    ensures p in Sight(x, y) <==> Distance2(x, y, p.0, p.1) <= 4
  {
    var a, b := p.0 - x, p.1 - y;
    Square4(a);
    Square4(b);
    assert Sight(x, y) == Square(x, y) + [(x, y - 2), (x + 2, y), (x, y + 2), (x - 2, y)];
    assert p in Square(x, y) <==> -1 <= a <= 1 && -1 <= b <= 1;
    assert p in Sight(x, y) <==>
           (-1 <= a <= 1 && -1 <= b <= 1) || (a == 0 && (b == 2 || b == -2)) || (b == 0 && (a == 2 || a == -2));
  }

  lemma Square4(a: int)
    ensures a * a >= 0 && (a == 0 ==> a * a == 0) && (a == 1 || a == -1 ==> a * a == 1)
    ensures (a == 2 || a == -2 ==> a * a == 4) && (a >= 3 || a <= -3 ==> a * a >= 9)
  {
    if a >= 3 {
      assert a * a == (a - 3) * (a + 3) + 9 && (a - 3) * (a + 3) >= 0;
    } else if a <= -3 {
      assert a * a == (-a - 3) * (-a + 3) + 9 && (-a - 3) * (-a + 3) >= 0;
    }
  }

  /** A player who has come to cell (x,y) has eaten its fruit and seen the cells of the maze that are no more than two
      cells away; nothing else has changed. */
  lemma LookedAroundIs(c: seq<Cell>, xDim: int, yDim: int, x: int, y: int, k: int)
    requires 0 <= k < |c|
    ensures |LookedAround(c, xDim, yDim, x, y)| == |c|
    ensures var d := LookedAround(c, xDim, yDim, x, y)[k];
            && d.wall == c[k].wall && d.exit == c[k].exit
            && d.fruit == (if k == MazeIndex(xDim, x, y) then 0 else c[k].fruit)
            && (d.reach <==> c[k].reach || exists p: (int, int) ::
                  && MazeIndex(xDim, p.0, p.1) == k && 0 <= p.0 <= 2 * xDim && 0 <= p.1 <= 2 * yDim
                  && Distance2(x, y, p.0, p.1) <= 4)
  {
    hide MazeIndex, Sight, Distance2, UnveiledAll;
    var i := MazeIndex(xDim, x, y);
    UnveiledAllIs(if 0 <= i < |c| then c[i := c[i].(fruit := 0)] else c, xDim, yDim, Sight(x, y), k);
    forall p: (int, int) ensures p in Sight(x, y) <==> Distance2(x, y, p.0, p.1) <= 4 {
      InSight(x, y, p);
    }
  }

  lemma LookedAroundSize(c: seq<Cell>, xDim: int, yDim: int, x: int, y: int)
    ensures |LookedAround(c, xDim, yDim, x, y)| == |c|
  {
    hide MazeIndex, Sight;
    var i := MazeIndex(xDim, x, y);
    UnveiledSize(if 0 <= i < |c| then c[i := c[i].(fruit := 0)] else c, xDim, yDim, Sight(x, y));
  }

  lemma {:induction false} UnveiledSize(c: seq<Cell>, xDim: int, yDim: int, ps: seq<(int, int)>)
    ensures |UnveiledAll(c, xDim, yDim, ps)| == |c|
  {
    if ps != [] {
      UnveiledSize(c, xDim, yDim, ps[..|ps| - 1]);
    }
  }

  lemma UnveiledPlayable(c: seq<Cell>, xDim: int, yDim: int, x: int, y: int, n: int, exitX: int, exitY: int)
    requires Playable(c, xDim, yDim, n, exitX, exitY)
    ensures Playable(Unveiled(c, xDim, yDim, x, y), xDim, yDim, n, exitX, exitY)
    ensures Grows(c, Unveiled(c, xDim, yDim, x, y)) && Seen(Unveiled(c, xDim, yDim, x, y), xDim, yDim, x, y)
  {
    hide MazeIndex, Lattice, IsLatticePoint;
    var i := MazeIndex(xDim, x, y);
    var e := Unveiled(c, xDim, yDim, x, y);
    if 0 <= i < |c| {
      SameWalls(c, i, c[i].(reach := true));
    }
    assert Fruited(e) == Fruited(c);
  }

  /** The maze after the fruit at index i, if any, has been eaten. */
  lemma EatenPlayable(c: seq<Cell>, xDim: int, yDim: int, i: int, n: int, exitX: int, exitY: int)
    requires Playable(c, xDim, yDim, n, exitX, exitY) && 0 <= i < |c| && c[i].fruit != 0
    ensures Playable(c[i := c[i].(fruit := 0)], xDim, yDim, n - 1, exitX, exitY) && 0 < n
    ensures Grows(c, c[i := c[i].(fruit := 0)]) && i in Lattice(xDim, yDim)
  {
    hide MazeIndex, Lattice, IsLatticePoint;
    SameWalls(c, i, c[i].(fruit := 0));
    FruitCount(c, i, 0);
    assert i in Fruited(c);
  }

  lemma PlayableFacts(c: seq<Cell>, xDim: int, yDim: int, n: int, exitX: int, exitY: int)
    requires Playable(c, xDim, yDim, n, exitX, exitY)
    ensures |c| == MAZE_SIZE && GoodDims(xDim, yDim) && Bordered(c, xDim, yDim)
    ensures IsLatticePoint(xDim, yDim, exitX, exitY)
    ensures forall i | 0 <= i < |c| :: 0 <= c[i].fruit <= 7
    ensures forall i | 0 <= i < |c| :: c[i].exit <==> i == MazeIndex(xDim, exitX, exitY)
  {
    ProperDims(c, xDim, yDim);
    ProperBordered(c, xDim, yDim);
  }
}
