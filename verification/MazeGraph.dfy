/** Reachability in the maze: lattice points are indices of the flat array, two cells
    apart along a row or along a column (`w` cells a row), and joined when the cell
    between them is no wall. */
module MazeGraph {
  import opened MazeCells

  ghost predicate Passage(c: seq<Cell>, k: int) {
    0 <= k < |c| && !c[k].wall
  }

  ghost predicate Edge(c: seq<Cell>, w: int, i: int, j: int) {
    || (j == i + 2 && Passage(c, i + 1))
    || (j == i - 2 && Passage(c, i - 1))
    || (j == i + 2 * w && Passage(c, i + w))
    || (j == i - 2 * w && Passage(c, i - w))
  }

  /** A walk along open edges that stays out of `avoid`. */
  ghost predicate Path(c: seq<Cell>, w: int, avoid: set<int>, p: seq<int>) {
    && p != []
    && (forall k | 0 <= k < |p| :: p[k] !in avoid)
    && (forall k | 0 < k < |p| :: Edge(c, w, p[k - 1], p[k]))
  }

  ghost predicate Reaches(c: seq<Cell>, w: int, avoid: set<int>, s: int, t: int) {
    exists p :: Path(c, w, avoid, p) && p[0] == s && p[|p| - 1] == t
  }

  /** Every wall of `d` is a wall of `c`. */
  ghost predicate MoreOpen(c: seq<Cell>, d: seq<Cell>) {
    |c| == |d| && forall k | 0 <= k < |c| :: d[k].wall ==> c[k].wall
  }

  lemma ReachesSelf(c: seq<Cell>, w: int, avoid: set<int>, s: int)
    requires s !in avoid
    ensures Reaches(c, w, avoid, s, s)
  {
    assert Path(c, w, avoid, [s]);
  }

  lemma ReachesStep(c: seq<Cell>, w: int, avoid: set<int>, s: int, t: int, u: int)
    requires Reaches(c, w, avoid, s, t) && Edge(c, w, t, u) && u !in avoid
    ensures Reaches(c, w, avoid, s, u)
  {
    var p :| Path(c, w, avoid, p) && p[0] == s && p[|p| - 1] == t;
    var q := p + [u];
    forall k | 0 < k < |q| ensures Edge(c, w, q[k - 1], q[k]) {
      assert k < |p| ==> Edge(c, w, p[k - 1], p[k]);
    }
    assert Path(c, w, avoid, q);
  }

  lemma ReachesJoin(c: seq<Cell>, w: int, avoid: set<int>, s: int, t: int, u: int)
    requires Reaches(c, w, avoid, s, t) && Reaches(c, w, avoid, t, u)
    ensures Reaches(c, w, avoid, s, u)
  {
    var q :| Path(c, w, avoid, q) && q[0] == t && q[|q| - 1] == u;
    for n := 1 to |q|
      invariant Reaches(c, w, avoid, s, q[n - 1])
    {
      assert Edge(c, w, q[n - 1], q[n]);
      ReachesStep(c, w, avoid, s, q[n - 1], q[n]);
    }
  }

  /** Edges have no direction, so neither has reachability. */
  lemma ReachesBack(c: seq<Cell>, w: int, avoid: set<int>, s: int, t: int)
    requires Reaches(c, w, avoid, s, t)
    ensures Reaches(c, w, avoid, t, s)
  {
    var p :| Path(c, w, avoid, p) && p[0] == s && p[|p| - 1] == t;
    ReachesSelf(c, w, avoid, t);
    var n := |p| - 1;
    while n > 0
      invariant 0 <= n < |p|
      invariant Reaches(c, w, avoid, t, p[n])
    {
      assert Edge(c, w, p[n - 1], p[n]);
      ReachesStep(c, w, avoid, t, p[n], p[n - 1]);
      n := n - 1;
    }
  }

  /** Opening cells and avoiding less loses no path. */
  lemma ReachesMore(c: seq<Cell>, d: seq<Cell>, w: int, avoid: set<int>, less: set<int>, s: int, t: int)
    requires Reaches(c, w, avoid, s, t) && MoreOpen(c, d) && less <= avoid
    ensures Reaches(d, w, less, s, t)
  {
    var p :| Path(c, w, avoid, p) && p[0] == s && p[|p| - 1] == t;
    forall k | 0 < k < |p| ensures Edge(d, w, p[k - 1], p[k]) {
      assert Edge(c, w, p[k - 1], p[k]);
    }
    assert Path(d, w, less, p);
  }

  /** A set that no open edge leaves (except into `avoid`) holds all that is reachable from inside it. */
  lemma ReachesInside(c: seq<Cell>, w: int, avoid: set<int>, inside: set<int>, s: int, t: int)
    requires Reaches(c, w, avoid, s, t) && s in inside
    requires forall i, j | i in inside && Edge(c, w, i, j) :: j in inside || j in avoid
    ensures t in inside
  {
    var p :| Path(c, w, avoid, p) && p[0] == s && p[|p| - 1] == t;
    for n := 1 to |p|
      invariant p[n - 1] in inside
    {
      assert Edge(c, w, p[n - 1], p[n]);
    }
  }

  /** Within the bordered maze, only inner cells are open. */
  lemma OpenInside(c: seq<Cell>, xDim: int, yDim: int, x: int, y: int)
    requires Bordered(c, xDim, yDim) && 0 <= x <= 2 * xDim && 0 <= y <= 2 * yDim
    requires Passage(c, MazeIndex(xDim, x, y))
    ensures 0 < x < 2 * xDim && 0 < y < 2 * yDim
  {
  }

  /** Inside walled boundaries, an open edge from a lattice point leads to a lattice point. */
  lemma LatticeEdge(c: seq<Cell>, xDim: int, yDim: int, i: int, j: int)
    requires Bordered(c, xDim, yDim) && i in Lattice(xDim, yDim)
    requires Edge(c, 2 * xDim, i, j)
    ensures j in Lattice(xDim, yDim)
  {
    hide Bordered, MazeIndex, Lattice, Passage;
    var x, y := LatticePoint(xDim, yDim, i);
    IndexSteps(xDim, x, y);
    if j == i + 2 && Passage(c, i + 1) {
      OpenInside(c, xDim, yDim, x + 1, y);
      InLattice(xDim, yDim, x + 2, y);
    } else if j == i - 2 && Passage(c, i - 1) {
      OpenInside(c, xDim, yDim, x - 1, y);
      InLattice(xDim, yDim, x - 2, y);
    } else if j == i + 4 * xDim && Passage(c, i + 2 * xDim) {
      OpenInside(c, xDim, yDim, x, y + 1);
      InLattice(xDim, yDim, x, y + 2);
    } else {
      OpenInside(c, xDim, yDim, x, y - 1);
      InLattice(xDim, yDim, x, y - 2);
    }
  }

  /** The cells a search from a lattice point looks at are all in the array. */
  lemma LatticeAround(xDim: int, yDim: int, i: int)
    requires GoodDims(xDim, yDim) && i in Lattice(xDim, yDim)
    ensures 0 <= i - 4 * xDim && i + 4 * xDim < MAZE_SIZE
  {
    hide MazeIndex, Lattice;
    var x, y := LatticePoint(xDim, yDim, i);
    IndexSteps(xDim, x, y);
    IndexInArray(xDim, yDim, x, y + 2);
    IndexInArray(xDim, yDim, x, y - 2);
  }
}
