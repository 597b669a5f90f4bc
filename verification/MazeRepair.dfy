/** The repair phase of make_maze (MP2/maze.c): joining what the worms left apart, and why it ends. */
module MazeRepair {
  import opened MazeCells
  import opened MazeGraph
  import opened MazeSearch
  import opened MazeDig
  import opened MazeDraw
  import opened MazeTape
  import opened MazeScan

  /** Knocking down one edge joins its two ends and nothing else. */
  lemma NewEdge(d: seq<Cell>, xDim: int, yDim: int, p: int, k: int, i: int, j: int)
    requires GoodDims(xDim, yDim) && |d| == MAZE_SIZE && Leads(xDim, yDim, p, k) && 0 <= p + k < |d|
    requires i in Lattice(xDim, yDim) && Edge(d[p + k := NONE], 2 * xDim, i, j)
    ensures Edge(d, 2 * xDim, i, j) || (i == p && j == p + 2 * k) || (i == p + 2 * k && j == p)
  {
    hide Lattice, RowEdges, ColumnEdges;
    CellsBeside(xDim, yDim, i);
    CellKinds(xDim, yDim);
  }

  /** The cells beside a point of a row are no edges of a column, nor the other way round. */
  lemma CellsBeside(xDim: int, yDim: int, i: int)
    requires GoodDims(xDim, yDim) && i in Lattice(xDim, yDim)
    ensures i - 1 !in ColumnEdges(xDim, yDim) && i + 1 !in ColumnEdges(xDim, yDim)
    ensures i - 2 * xDim !in RowEdges(xDim, yDim) && i + 2 * xDim !in RowEdges(xDim, yDim)
  {
    var x, y :| 0 <= x < 2 * xDim && 0 <= y < 2 * yDim && x % 2 == 1 && y % 2 == 1 && i == MazeIndex(xDim, x, y);
    IndexSteps(xDim, x, y);
    InRowEdges(xDim, yDim, x, y + 1);
    InRowEdges(xDim, yDim, x, y - 1);
    InColumnEdges(xDim, yDim, x + 1, y);
    InColumnEdges(xDim, yDim, x - 1, y);
  }

  /** Marks change no wall, so they change no area. */
  lemma AreaIgnoresMarks(d: seq<Cell>, marks: set<int>, xDim: int, yDim: int, avoid: set<int>, s: int)
    ensures Area(WithMarks(d, marks), xDim, yDim, avoid, s) == Area(d, xDim, yDim, avoid, s)
  {
    var c, w := WithMarks(d, marks), 2 * xDim;
    forall i | i in Lattice(xDim, yDim) ensures Reaches(c, w, avoid, s, i) <==> Reaches(d, w, avoid, s, i) {
      if Reaches(c, w, avoid, s, i) {
        ReachesMore(c, d, w, avoid, avoid, s, i);
      } else if Reaches(d, w, avoid, s, i) {
        ReachesMore(d, c, w, avoid, avoid, s, i);
      }
    }
  }

  /** The part of the maze that (1,1) reaches. */
  ghost function Component(d: seq<Cell>, xDim: int, yDim: int): set<int> {
    Area(d, xDim, yDim, {}, MazeIndex(xDim, 1, 1))
  }

  lemma ComponentInLattice(d: seq<Cell>, xDim: int, yDim: int)
    ensures Component(d, xDim, yDim) <= Lattice(xDim, yDim)
  {
  }

  lemma ComponentClosed(d: seq<Cell>, xDim: int, yDim: int, i: int, j: int)
    requires Bordered(d, xDim, yDim) && i in Component(d, xDim, yDim) && Edge(d, 2 * xDim, i, j)
    ensures j in Component(d, xDim, yDim)
  {
    LatticeEdge(d, xDim, yDim, i, j);
    ReachesStep(d, 2 * xDim, {}, MazeIndex(xDim, 1, 1), i, j);
  }

  /** With the edge down between the reached point `n` and the unreached `n + 2 k`, everything in the
      area of the new point is reached. */
  lemma JoinedGrows(d: seq<Cell>, xDim: int, yDim: int, n: int, k: int, i: int)
    requires 0 <= n + k < |d| && n in Component(d, xDim, yDim) && Leads(xDim, yDim, n, k)
    requires i in Component(d, xDim, yDim) + Area(d[n + k := NONE], xDim, yDim, Component(d, xDim, yDim), n + 2 * k)
    ensures i in Component(d[n + k := NONE], xDim, yDim)
  {
    var s, w, p, e, r := MazeIndex(xDim, 1, 1), 2 * xDim, n + 2 * k, d[n + k := NONE], Component(d, xDim, yDim);
    if i in r {
      ReachesMore(d, e, w, {}, {}, s, i);
    } else {
      ReachesMore(d, e, w, {}, {}, s, n);
      ReachesStep(e, w, {}, s, n, p);
      ReachesMore(e, e, w, r, {}, p, i);
      ReachesJoin(e, w, {}, s, p, i);
    }
  }

  /** No open edge leaves the old component and the new area together. */
  lemma JoinedClosed(d: seq<Cell>, xDim: int, yDim: int, n: int, k: int, a: set<int>, u: int, v: int)
    requires Bordered(d, xDim, yDim) && 0 <= n + k < |d| && Bordered(d[n + k := NONE], xDim, yDim)
    requires n in Component(d, xDim, yDim) && Leads(xDim, yDim, n, k)
    requires a == Area(d[n + k := NONE], xDim, yDim, Component(d, xDim, yDim), n + 2 * k) && n + 2 * k in a
    requires u in Component(d, xDim, yDim) + a && Edge(d[n + k := NONE], 2 * xDim, u, v)
    ensures v in Component(d, xDim, yDim) + a
  {
    var w, p, e, r := 2 * xDim, n + 2 * k, d[n + k := NONE], Component(d, xDim, yDim);
    LatticeEdge(e, xDim, yDim, u, v);
    if u in a {
      if v !in r {
        ReachesStep(e, w, r, p, u, v);
      }
    } else {
      NewEdge(d, xDim, yDim, n, k, u, v);
      if Edge(d, w, u, v) {
        ComponentClosed(d, xDim, yDim, u, v);
      }
    }
  }

  lemma StartReached(d: seq<Cell>, xDim: int, yDim: int)
    requires GoodDims(xDim, yDim)
    ensures MazeIndex(xDim, 1, 1) in Component(d, xDim, yDim)
  {
    PointInLattice(xDim, yDim, 1, 1);
    ReachesSelf(d, 2 * xDim, {}, MazeIndex(xDim, 1, 1));
  }

  /** ... and nothing else is. */
  lemma JoinedOnly(d: seq<Cell>, xDim: int, yDim: int, n: int, k: int, i: int)
    requires Bordered(d, xDim, yDim) && 0 <= n + k < |d| && Bordered(d[n + k := NONE], xDim, yDim)
    requires n in Component(d, xDim, yDim) && n + 2 * k !in Component(d, xDim, yDim) && Leads(xDim, yDim, n, k)
    requires i in Component(d[n + k := NONE], xDim, yDim)
    ensures i in Component(d, xDim, yDim) + Area(d[n + k := NONE], xDim, yDim, Component(d, xDim, yDim), n + 2 * k)
  {
    var w, p, e, r := 2 * xDim, n + 2 * k, d[n + k := NONE], Component(d, xDim, yDim);
    var a := Area(e, xDim, yDim, r, p);
    ReachesSelf(e, w, r, p);
    StartReached(d, xDim, yDim);
    forall u, v | u in r + a && Edge(e, w, u, v) ensures v in r + a {
      JoinedClosed(d, xDim, yDim, n, k, a, u, v);
    }
    ReachesInside(e, w, {}, r + a, MazeIndex(xDim, 1, 1), i);
  }

  /** What (1,1) reaches after the edge from `n` by `k` is knocked down, as the search finds it. */
  lemma Joined(d: seq<Cell>, xDim: int, yDim: int, n: int, k: int)
    requires Bordered(d, xDim, yDim) && 0 <= n + k < |d| && Bordered(d[n + k := NONE], xDim, yDim)
    requires n in Component(d, xDim, yDim) && n + 2 * k !in Component(d, xDim, yDim) && Leads(xDim, yDim, n, k)
    ensures Component(d[n + k := NONE], xDim, yDim)
            == Component(d, xDim, yDim) + Area(d[n + k := NONE], xDim, yDim, Component(d, xDim, yDim), n + 2 * k)
    ensures Component(d, xDim, yDim) !! Area(d[n + k := NONE], xDim, yDim, Component(d, xDim, yDim), n + 2 * k)
    ensures n + 2 * k in Area(d[n + k := NONE], xDim, yDim, Component(d, xDim, yDim), n + 2 * k)
  {
    var e, r := d[n + k := NONE], Component(d, xDim, yDim);
    var a := Area(e, xDim, yDim, r, n + 2 * k);
    ReachesSelf(e, 2 * xDim, r, n + 2 * k);
    forall i ensures i in Component(e, xDim, yDim) <==> i in r + a {
      if i in Component(e, xDim, yDim) {
        JoinedOnly(d, xDim, yDim, n, k, i);
      } else if i in r + a {
        JoinedGrows(d, xDim, yDim, n, k, i);
      }
    }
  }

  /** An unreached lattice point next to a reached one: where the repair can knock down a wall. */
  ghost predicate Frontier(marks: set<int>, xDim: int, yDim: int, x: int, y: int) {
    && IsLatticePoint(xDim, yDim, x, y) && MazeIndex(xDim, x, y) !in marks
    && exists dir | 0 <= dir < 4 ::
        HasRoom(xDim, yDim, x, y, dir) && MazeIndex(xDim, x, y) + 2 * Step(xDim, dir) in marks
  }

  /** From any unreached point, walking towards (1,1) crosses the frontier. */
  lemma FrontierOnWay(marks: set<int>, xDim: int, yDim: int, x: int, y: int) returns (fx: int, fy: int)
    requires IsLatticePoint(xDim, yDim, x, y) && MazeIndex(xDim, x, y) !in marks && MazeIndex(xDim, 1, 1) in marks
    ensures Frontier(marks, xDim, yDim, fx, fy)
    decreases x + y
  {
    fx, fy := x, y;
    IndexSteps(xDim, x, y);
    if x > 1 {
      if MazeIndex(xDim, x - 2, y) in marks {
        assert HasRoom(xDim, yDim, x, y, 3);
      } else {
        fx, fy := FrontierOnWay(marks, xDim, yDim, x - 2, y);
      }
    } else if y > 1 {
      if MazeIndex(xDim, x, y - 2) in marks {
        assert HasRoom(xDim, yDim, x, y, 0);
      } else {
        fx, fy := FrontierOnWay(marks, xDim, yDim, x, y - 2);
      }
    }
  }

  /** While some lattice point is unreached, there is a frontier. */
  lemma FrontierExists(marks: set<int>, xDim: int, yDim: int) returns (fx: int, fy: int)
    requires 0 < xDim && 0 < yDim && marks < Lattice(xDim, yDim) && MazeIndex(xDim, 1, 1) in marks
    ensures Frontier(marks, xDim, yDim, fx, fy)
  {
    var i :| i in Lattice(xDim, yDim) && i !in marks;
    var x, y :| 0 <= x < 2 * xDim && 0 <= y < 2 * yDim && x % 2 == 1 && y % 2 == 1 && i == MazeIndex(xDim, x, y);
    fx, fy := FrontierOnWay(marks, xDim, yDim, x, y);
  }

  /** Between repairs: `d` is the maze without marks, fully dug, and the marks are what (1,1) reaches. */
  ghost predicate Repairing(d: seq<Cell>, c: seq<Cell>, xDim: int, yDim: int) {
    Dug(d, xDim, yDim) && Walled(d, xDim, yDim) == {} && c == WithMarks(d, Component(d, xDim, yDim))
  }

  lemma MarksAre(d: seq<Cell>, xDim: int, yDim: int, marks: set<int>)
    requires Dug(d, xDim, yDim) && marks <= Lattice(xDim, yDim)
    ensures Marked(WithMarks(d, marks), xDim, yDim) == marks
    ensures Bordered(WithMarks(d, marks), xDim, yDim)
  {
    DugBordered(d, xDim, yDim);
    var c := WithMarks(d, marks);
    forall i | i in Lattice(xDim, yDim) ensures i in Marked(c, xDim, yDim) <==> i in marks {
      LatticeAround(xDim, yDim, i);
    }
  }

  lemma LeadsBack(xDim: int, yDim: int, p: int, k: int)
    requires Leads(xDim, yDim, p, k)
    ensures Leads(xDim, yDim, p + 2 * k, -k) && p in Lattice(xDim, yDim) && p + k !in Lattice(xDim, yDim)
  {
    CellKinds(xDim, if xDim > 0 then yDim else 0);
  }

  /** In a fully dug maze, taking down an edge leaves it dug. */
  lemma KnockedDug(d: seq<Cell>, xDim: int, yDim: int, p: int, k: int)
    requires Dug(d, xDim, yDim) && Walled(d, xDim, yDim) == {} && Leads(xDim, yDim, p, k)
    ensures 0 <= p + k < |d| && Dug(d[p + k := NONE], xDim, yDim) && Walled(d[p + k := NONE], xDim, yDim) == {}
  {
    LatticeAround(xDim, yDim, p);
    LatticeAround(xDim, yDim, p + 2 * k);
    assert p !in Walled(d, xDim, yDim) && p + 2 * k !in Walled(d, xDim, yDim);
    DigEdge(d, xDim, yDim, p, k);
  }

  lemma MarksTwice(d: seq<Cell>, a: set<int>, b: set<int>)
    ensures WithMarks(WithMarks(d, a), b) == WithMarks(d, a + b)
  {
  }

  lemma MarksElsewhere(d: seq<Cell>, marks: set<int>, e: int)
    requires 0 <= e < |d| && e !in marks
    ensures |WithMarks(d, marks)| == |d| && WithMarks(d, marks)[e := NONE] == WithMarks(d[e := NONE], marks)
  {
  }

  /** `e` is `d` with the edge between `p` and a reached neighbour knocked down. */
  ghost predicate JoinedBy(d: seq<Cell>, e: seq<Cell>, xDim: int, yDim: int, p: int, k: int) {
    && Leads(xDim, yDim, p, k) && p + 2 * k in Component(d, xDim, yDim)
    && 0 <= p + k < |d| && e == d[p + k := NONE]
  }

  /** One repair: the edge from the unmarked point `p` to a marked neighbour goes down, and a search
      from `p` marks all that is now reached. */
  lemma RepairStep(d: seq<Cell>, c: seq<Cell>, xDim: int, yDim: int, p: int, k: int)
    requires Repairing(d, c, xDim, yDim) && Leads(xDim, yDim, p, k)
    requires p !in Component(d, xDim, yDim) && p + 2 * k in Component(d, xDim, yDim)
    ensures 0 <= p + k < |c| == |d| && Bordered(c[p + k := NONE], xDim, yDim)
    ensures p in Lattice(xDim, yDim) - Marked(c[p + k := NONE], xDim, yDim)
    ensures var area := Area(c[p + k := NONE], xDim, yDim, Marked(c[p + k := NONE], xDim, yDim), p);
            && Repairing(d[p + k := NONE], WithMarks(c[p + k := NONE], area), xDim, yDim)
            && |Component(d[p + k := NONE], xDim, yDim)| == |Component(d, xDim, yDim)| + |area| && 0 < |area|
  {
    hide Dug, Bordered, Lattice, Component, Area, Leads, WithMarks, Marked, Walled;
    var r := Component(d, xDim, yDim);
    ComponentInLattice(d, xDim, yDim);
    LeadsBack(xDim, yDim, p, k);
    KnockedDug(d, xDim, yDim, p, k);
    var e := d[p + k := NONE];
    MarksElsewhere(d, r, p + k);
    MarksAre(e, xDim, yDim, r);
    DugBordered(d, xDim, yDim);
    DugBordered(e, xDim, yDim);
    Joined(d, xDim, yDim, p + 2 * k, -k);
    AreaIgnoresMarks(e, r, xDim, yDim, r, p);
    MarksTwice(e, r, Area(e, xDim, yDim, r, p));
  }

  /** Before the first search nothing is marked, and the search from (1,1) marks its component. */
  lemma RepairStart(d: seq<Cell>, xDim: int, yDim: int)
    requires Dug(d, xDim, yDim) && Walled(d, xDim, yDim) == {}
    ensures Bordered(d, xDim, yDim) && Marked(d, xDim, yDim) == {}
    ensures MazeIndex(xDim, 1, 1) in Lattice(xDim, yDim)
    ensures Area(d, xDim, yDim, Marked(d, xDim, yDim), MazeIndex(xDim, 1, 1)) == Component(d, xDim, yDim)
    ensures Repairing(d, WithMarks(d, Component(d, xDim, yDim)), xDim, yDim)
  {
    DugBordered(d, xDim, yDim);
    PointInLattice(xDim, yDim, 1, 1);
    assert forall i | 0 <= i < |d| :: !d[i].reach;
  }

  lemma RepairDims(d: seq<Cell>, c: seq<Cell>, xDim: int, yDim: int)
    requires Repairing(d, c, xDim, yDim)
    ensures 0 < xDim && 0 < yDim
  {
    DugDims(d, xDim, yDim);
  }

  lemma NoFrontier(marks: set<int>, xDim: int, yDim: int, x: int, y: int, p: int)
    requires p == MazeIndex(xDim, x, y)
    requires (y > 1 ==> p - 4 * xDim !in marks) && (x > 1 ==> p - 2 !in marks)
    requires (x < 2 * xDim - 1 ==> p + 2 !in marks) && (y < 2 * yDim - 1 ==> p + 4 * xDim !in marks)
    ensures !Frontier(marks, xDim, yDim, x, y)
  {
    hide MazeIndex;
  }

  lemma FrontierPoint(r: set<int>, xDim: int, yDim: int, x: int, y: int)
    ensures Frontier(r, xDim, yDim, x, y) ==> IsLatticePoint(xDim, yDim, x, y)
  {
  }

  /** The count of unreached points, and where to look for one that can be joined. */
  lemma Unreached(d: seq<Cell>, xDim: int, yDim: int) returns (fx: int, fy: int)
    requires GoodDims(xDim, yDim)
    ensures |Component(d, xDim, yDim)| <= xDim * yDim
    ensures |Component(d, xDim, yDim)| == xDim * yDim <==> Component(d, xDim, yDim) == Lattice(xDim, yDim)
    ensures |Component(d, xDim, yDim)| < xDim * yDim ==> Frontier(Component(d, xDim, yDim), xDim, yDim, fx, fy)
  {
    hide Component, Lattice, Frontier, MazeIndex;
    fx, fy := 1, 1;
    var r, L := Component(d, xDim, yDim), Lattice(xDim, yDim);
    ComponentInLattice(d, xDim, yDim);
    LatticeSize(xDim, yDim);
    SubsetSize(r, L);
    StartReached(d, xDim, yDim);
    if r != L {
      assert |L - r| + |r| == |L|;
      assert L - r != {};
      fx, fy := FrontierExists(r, xDim, yDim);
    }
  }

  /** While some lattice point is unreached, the scan comes to a point that can be joined, after no more steps than
      there are lattice points. */
  lemma ScanMeetsFrontier(d: seq<Cell>, xDim: nat, yDim: nat, x: nat, y: nat) returns (n: nat)
    requires GoodDims(xDim, yDim) && IsLatticePoint(xDim, yDim, x, y)
    requires Component(d, xDim, yDim) != Lattice(xDim, yDim)
    ensures 1 <= n <= xDim * yDim
    ensures var p := ScanAfter(xDim, yDim, x, y, n); Frontier(Component(d, xDim, yDim), xDim, yDim, p.0, p.1)
  {
    hide Component, Lattice, MazeIndex;
    var fx, fy := Unreached(d, xDim, yDim);
    ScanMeets(xDim, yDim, x, y, fx, fy);
    n := StepsTo(xDim, yDim, x, y, fx, fy);
  }

  /** What the neighbour test in direction `k` reads: a mark two cells away is a reached lattice point. */
  ghost predicate SeesBeyond(d: seq<Cell>, c: seq<Cell>, xDim: int, yDim: int, p: int, k: int, room: bool) {
    && 0 <= p + 2 * k < |c|
    && (room ==> Leads(xDim, yDim, p, k) && (c[p + 2 * k].reach <==> p + 2 * k in Component(d, xDim, yDim)))
  }

  lemma SeesOne(d: seq<Cell>, c: seq<Cell>, xDim: int, yDim: int, x: int, y: int, dir: int)
    requires Repairing(d, c, xDim, yDim) && IsLatticePoint(xDim, yDim, x, y) && 0 <= dir < 4
    ensures SeesBeyond(d, c, xDim, yDim, MazeIndex(xDim, x, y), Step(xDim, dir), HasRoom(xDim, yDim, x, y, dir))
  {
    hide MazeIndex, Lattice, Component;
    DugDims(d, xDim, yDim);
    PointInLattice(xDim, yDim, x, y);
    LatticeAround(xDim, yDim, MazeIndex(xDim, x, y));
    if HasRoom(xDim, yDim, x, y, dir) {
      MoveLeads(xDim, yDim, x, y, dir);
      var t := MazeIndex(xDim, x, y) + 2 * Step(xDim, dir);
      assert d[t] == NONE by {
        assert t !in Walled(d, xDim, yDim);
      }
    }
  }

  lemma LookBeyond(d: seq<Cell>, c: seq<Cell>, xDim: int, yDim: int, x: int, y: int)
    requires Repairing(d, c, xDim, yDim) && IsLatticePoint(xDim, yDim, x, y)
    ensures |c| == MAZE_SIZE
    ensures SeesBeyond(d, c, xDim, yDim, MazeIndex(xDim, x, y), -2 * xDim, y > 1)
    ensures SeesBeyond(d, c, xDim, yDim, MazeIndex(xDim, x, y), -1, x > 1)
    ensures SeesBeyond(d, c, xDim, yDim, MazeIndex(xDim, x, y), 1, x < 2 * xDim - 1)
    ensures SeesBeyond(d, c, xDim, yDim, MazeIndex(xDim, x, y), 2 * xDim, y < 2 * yDim - 1)
  {
    hide SeesBeyond;
    SeesOne(d, c, xDim, yDim, x, y, 0);
    SeesOne(d, c, xDim, yDim, x, y, 1);
    SeesOne(d, c, xDim, yDim, x, y, 2);
    SeesOne(d, c, xDim, yDim, x, y, 3);
  }

  /** The mark of a lattice point says whether it is reached; a frontier point has none. */
  lemma ReachIs(d: seq<Cell>, c: seq<Cell>, xDim: int, yDim: int, x: int, y: int, fx: int, fy: int)
    requires Repairing(d, c, xDim, yDim) && IsLatticePoint(xDim, yDim, x, y)
    ensures 0 <= MazeIndex(xDim, x, y) < |c| == MAZE_SIZE
    ensures c[MazeIndex(xDim, x, y)].reach <==> MazeIndex(xDim, x, y) in Component(d, xDim, yDim)
    ensures Frontier(Component(d, xDim, yDim), xDim, yDim, fx, fy) && x == fx && y == fy ==>
            !c[MazeIndex(xDim, x, y)].reach
    ensures Frontier(Component(d, xDim, yDim), xDim, yDim, fx, fy) ==> IsLatticePoint(xDim, yDim, fx, fy)
  {
    PointInLattice(xDim, yDim, x, y);
    LatticeAround(xDim, yDim, MazeIndex(xDim, x, y));
    assert d[MazeIndex(xDim, x, y)] == NONE by {
      assert MazeIndex(xDim, x, y) !in Walled(d, xDim, yDim);
    }
  }

  ghost function Opened(d: seq<Cell>, i: int): seq<Cell> {
    if 0 <= i < |d| then d[i := NONE] else d
  }

  /** The maze after a try to join (x,y) to a reached neighbour: above, left, right and below, in this order. */
  ghost function JoinedAt(d: seq<Cell>, xDim: int, yDim: int, x: int, y: int): seq<Cell> {
    var p, r := MazeIndex(xDim, x, y), Component(d, xDim, yDim);
    if y > 1 && p - 4 * xDim in r then Opened(d, p - 2 * xDim)
    else if x > 1 && p - 2 in r then Opened(d, p - 1)
    else if x < 2 * xDim - 1 && p + 2 in r then Opened(d, p + 1)
    else if y < 2 * yDim - 1 && p + 4 * xDim in r then Opened(d, p + 2 * xDim)
    else d
  }

  /** The lattice point next to (x,y) in a direction is reached. */
  ghost predicate ReachedBeyond(d: seq<Cell>, xDim: int, yDim: int, x: int, y: int, dir: int) {
    && 0 <= dir < 4 && HasRoom(xDim, yDim, x, y, dir)
    && MazeIndex(xDim, x + 2 * StepX(dir), y + 2 * StepY(dir)) in Component(d, xDim, yDim)
  }

  /** The order in which the neighbours are tried. */
  const TRIED := [0, 3, 1, 2]

  /** The edge that goes is the one to the first of the reached neighbours, and none if there is none. */
  lemma JoinedAtIs(d: seq<Cell>, xDim: int, yDim: int, x: int, y: int)
    requires GoodDims(xDim, yDim) && |d| == MAZE_SIZE && IsLatticePoint(xDim, yDim, x, y)
    ensures (forall j | 0 <= j < 4 :: !ReachedBeyond(d, xDim, yDim, x, y, TRIED[j])) ==>
              JoinedAt(d, xDim, yDim, x, y) == d
    ensures forall j | 0 <= j < 4 && ReachedBeyond(d, xDim, yDim, x, y, TRIED[j])
                       && (forall i | 0 <= i < j :: !ReachedBeyond(d, xDim, yDim, x, y, TRIED[i])) ::
              var e := MazeIndex(xDim, x + StepX(TRIED[j]), y + StepY(TRIED[j]));
              0 <= e < |d| && JoinedAt(d, xDim, yDim, x, y) == d[e := NONE]
  {
    hide MazeIndex, Component, ReachedBeyond, IsLatticePoint, GoodDims, StepX, StepY;
    Beyond(d, xDim, yDim, x, y, 0);
    Beyond(d, xDim, yDim, x, y, 3);
    Beyond(d, xDim, yDim, x, y, 1);
    Beyond(d, xDim, yDim, x, y, 2);
    assert TRIED[0] == 0 && TRIED[1] == 3 && TRIED[2] == 1 && TRIED[3] == 2;
  }

  /** The same by distances in the array. */
  lemma Beyond(d: seq<Cell>, xDim: int, yDim: int, x: int, y: int, dir: int)
    requires GoodDims(xDim, yDim) && IsLatticePoint(xDim, yDim, x, y) && 0 <= dir < 4
    ensures ReachedBeyond(d, xDim, yDim, x, y, dir) <==>
            HasRoom(xDim, yDim, x, y, dir)
            && MazeIndex(xDim, x, y) + 2 * Step(xDim, dir) in Component(d, xDim, yDim)
    ensures MazeIndex(xDim, x + StepX(dir), y + StepY(dir)) == MazeIndex(xDim, x, y) + Step(xDim, dir)
    ensures 0 <= MazeIndex(xDim, x + StepX(dir), y + StepY(dir)) < MAZE_SIZE
  {
    hide MazeIndex, Component;
    StepIndex(xDim, x, y, dir);
    MoveInArray(xDim, yDim, x, y, dir);
  }

  /** The edge that goes, as a distance, or 0 for none. */
  lemma JoinedBeside(d: seq<Cell>, xDim: int, yDim: int, x: int, y: int, p: int, k: int)
    requires 0 < xDim && p == MazeIndex(xDim, x, y)
    requires var r := Component(d, xDim, yDim);
             k == if y > 1 && p - 4 * xDim in r then -2 * xDim else if x > 1 && p - 2 in r then -1
                  else if x < 2 * xDim - 1 && p + 2 in r then 1
                  else if y < 2 * yDim - 1 && p + 4 * xDim in r then 2 * xDim else 0
    ensures JoinedAt(d, xDim, yDim, x, y) == if k == 0 then d else Opened(d, p + k)
  {
    hide MazeIndex, Component;
  }

  /** What the random tries of the repair leave of the tape, if it lasts. */
  datatype Tries = Stuck | Through(rest: seq<nat>)

  /** The random tries that the tape describes: each draws an unreached point and tries to join it, until fewer than 20
      points are unreached or 100 tries are made. */
  ghost function RandomTries(d: seq<Cell>, xDim: int, yDim: int, tries: nat, tape: seq<nat>): Tries
    requires 0 < xDim && 0 < yDim
    decreases RANDOM_TRIALS - tries
  {
    if xDim * yDim - |Component(d, xDim, yDim)| < 20 || tries >= RANDOM_TRIALS then Through(tape)
    else
      var g := DrawGood(tape, xDim, yDim, Component(d, xDim, yDim));
      if g.NoDraw? then Stuck else RandomTries(JoinedAt(d, xDim, yDim, g.x, g.y), xDim, yDim, tries + 1, g.rest)
  }

  /** How far the repair of `d0` has come: after `draws` tries the maze without its marks is `d`, and `rest` is left of
      the tape. */
  ghost predicate Trying(d0: seq<Cell>, tape: seq<nat>, d: seq<Cell>, rest: seq<nat>, xDim: int, yDim: int,
                         draws: nat, trials: int) {
    && 0 < xDim && 0 < yDim && draws <= RANDOM_TRIALS && draws <= trials
    && (xDim * yDim - |Component(d, xDim, yDim)| >= 20 ==>
          draws == if trials < RANDOM_TRIALS then trials else RANDOM_TRIALS)
    && RandomTries(d0, xDim, yDim, 0, tape) == RandomTries(d, xDim, yDim, draws, rest)
  }

  lemma TryingStart(d: seq<Cell>, tape: seq<nat>, xDim: int, yDim: int)
    requires 0 < xDim && 0 < yDim
    ensures Trying(d, tape, d, tape, xDim, yDim, 0, 0)
  {
  }

  /** Scanning instead of drawing leaves the tape alone. */
  lemma TryingScan(d0: seq<Cell>, tape: seq<nat>, d: seq<Cell>, rest: seq<nat>, xDim: int, yDim: int, draws: nat,
      trials: int, e: seq<Cell>)
    requires Trying(d0, tape, d, rest, xDim, yDim, draws, trials)
    requires xDim * yDim - |Component(d, xDim, yDim)| < 20 || trials >= RANDOM_TRIALS
    requires |Component(d, xDim, yDim)| <= |Component(e, xDim, yDim)|
    ensures Trying(d0, tape, e, rest, xDim, yDim, draws, trials)
    ensures trials >= RANDOM_TRIALS ==> Trying(d0, tape, e, rest, xDim, yDim, draws, trials + 1)
  {
    hide Component;
  }

  /** A random try. */
  lemma TryingDraw(d0: seq<Cell>, tape: seq<nat>, d: seq<Cell>, rest: seq<nat>, c: seq<Cell>, xDim: int, yDim: int,
      draws: nat, trials: int)
    requires Trying(d0, tape, d, rest, xDim, yDim, draws, trials) && Repairing(d, c, xDim, yDim)
    requires xDim * yDim - |Component(d, xDim, yDim)| >= 20 && trials < RANDOM_TRIALS
    ensures |c| == MAZE_SIZE && MarkedCells(c) == Component(d, xDim, yDim)
    ensures var g := DrawGood(rest, xDim, yDim, MarkedCells(c));
            if g.NoDraw? then RandomTries(d0, xDim, yDim, 0, tape).Stuck?
            else Trying(d0, tape, JoinedAt(d, xDim, yDim, g.x, g.y), g.rest, xDim, yDim, draws + 1, trials + 1)
  {
    hide Component, JoinedAt, DrawGood, Repairing;
    MarkedAre(d, c, xDim, yDim);
  }

  /** When all is reached, the tries have gone through. */
  lemma TryingDone(d0: seq<Cell>, tape: seq<nat>, d: seq<Cell>, rest: seq<nat>, xDim: int, yDim: int, draws: nat,
      trials: int)
    requires Trying(d0, tape, d, rest, xDim, yDim, draws, trials)
    requires xDim * yDim == |Component(d, xDim, yDim)|
    ensures RandomTries(d0, xDim, yDim, 0, tape) == Through(rest)
  {
    hide Component;
  }

  /** The marked cells are those of the component, so a random draw is one for a point that is not reached. */
  lemma MarkedAre(d: seq<Cell>, c: seq<Cell>, xDim: int, yDim: int)
    requires Repairing(d, c, xDim, yDim)
    ensures |c| == MAZE_SIZE && MarkedCells(c) == Component(d, xDim, yDim)
  {
    hide Lattice, Component;
    var r := Component(d, xDim, yDim);
    ComponentInLattice(d, xDim, yDim);
    forall i ensures i in MarkedCells(c) <==> i in r {
      if i in r {
        LatticeAround(xDim, yDim, i);
      }
    }
  }

  /** Plenty of values for all tries are enough for them, and leave plenty for what comes later. */
  lemma {:induction false} TriesThrough(d: seq<Cell>, xDim: int, yDim: int, tries: nat, tape: seq<nat>, later: nat)
    requires GoodDims(xDim, yDim) && tries <= RANDOM_TRIALS && Plenty(tape, xDim, yDim, RANDOM_TRIALS - tries + later)
    ensures var t := RandomTries(d, xDim, yDim, tries, tape); t.Through? && Plenty(t.rest, xDim, yDim, later)
    decreases RANDOM_TRIALS - tries
  {
    hide Component, JoinedAt, DrawGood, Plenty, Missing, Lattice;
    var r := Component(d, xDim, yDim);
    ComponentInLattice(d, xDim, yDim);
    LatticeSize(xDim, yDim);
    if |r| + 20 > xDim * yDim || tries >= RANDOM_TRIALS {
      PlentyForLess(tape, xDim, yDim, RANDOM_TRIALS - tries + later, later);
    } else {
      FewMissing(r, xDim, yDim);
      PlentyHits(tape, xDim, yDim, RANDOM_TRIALS - tries + later, r);
      var g := DrawGood(tape, xDim, yDim, r);
      TriesThrough(JoinedAt(d, xDim, yDim, g.x, g.y), xDim, yDim, tries + 1, g.rest, later);
    }
  }

  /** Tries that get stuck do so while at least 20 points are unreached, in a draw on some end of the tape. */
  lemma {:induction false} StuckSomewhere(d: seq<Cell>, xDim: int, yDim: int, tries: nat, tape: seq<nat>)
    returns (k: nat, reached: set<int>)
    requires 0 < xDim && 0 < yDim && RandomTries(d, xDim, yDim, tries, tape).Stuck?
    ensures k <= |tape| && ManyLeft(reached, xDim, yDim) && DrawGood(tape[k..], xDim, yDim, reached).NoDraw?
    decreases RANDOM_TRIALS - tries
  {
    hide Component, JoinedAt, DrawGood, Lattice;
    reached := Component(d, xDim, yDim);
    ComponentInLattice(d, xDim, yDim);
    var g := DrawGood(tape, xDim, yDim, reached);
    if g.NoDraw? {
      k := 0;
      assert tape[0..] == tape;
    } else {
      var j := DrawSuffix(tape, xDim, yDim, reached);
      k, reached := StuckSomewhere(JoinedAt(d, xDim, yDim, g.x, g.y), xDim, yDim, tries + 1, g.rest);
      assert tape[j..][k..] == tape[j + k..];
      k := j + k;
    }
  }
}
