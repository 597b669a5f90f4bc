/** What a breadth-first search of the maze (mark_maze_area in MP2/maze.c) finds, and the
    facts that carry its loop. */
module MazeSearch {
  import opened MazeCells
  import opened MazeGraph

  const QUEUE_SIZE := MAZE_MAX_X_DIM * MAZE_MAX_Y_DIM

  /** The lattice points that carry the MAZE_REACH mark. */
  ghost function Marked(c: seq<Cell>, xDim: int, yDim: int): set<int> {
    set i | i in Lattice(xDim, yDim) && 0 <= i < |c| && c[i].reach
  }

  /** The lattice points that can be reached from `s` without entering `avoid`. */
  ghost function Area(c: seq<Cell>, xDim: int, yDim: int, avoid: set<int>, s: int): set<int> {
    set i | i in Lattice(xDim, yDim) && Reaches(c, 2 * xDim, avoid, s, i)
  }

  /** `c` with the points of `seen` marked. */
  ghost function WithMarks(c: seq<Cell>, seen: set<int>): seq<Cell> {
    seq(|c|, i requires 0 <= i < |c| => if i in seen then c[i].(reach := true) else c[i])
  }

  /** A search of `c0` from `s` has found `seen`, queued in the order of `q`. */
  ghost predicate Searching(c0: seq<Cell>, xDim: int, yDim: int, s: int, seen: set<int>, q: seq<int>) {
    && Bordered(c0, xDim, yDim)
    && seen <= Area(c0, xDim, yDim, Marked(c0, xDim, yDim), s)
    && |seen| == |q|
    && (forall i :: i in q <==> i in seen)
  }

  /** The four steps of a search: along a row, or along a column of rows `w` cells long. */
  predicate Direction(w: int, d: int) {
    d == 1 || d == -1 || d == w || d == -w
  }

  /** What a search reads in one direction lies in the array, and past an open cell is a
      lattice point, whose mark says whether it was seen or avoided. */
  lemma LookAround(c0: seq<Cell>, xDim: int, yDim: int, s: int, seen: set<int>, q: seq<int>, cur: int, d: int)
    requires Searching(c0, xDim, yDim, s, seen, q) && cur in seen && Direction(2 * xDim, d)
    ensures |c0| == |WithMarks(c0, seen)| == MAZE_SIZE
    ensures 0 <= cur + d < MAZE_SIZE && 0 <= cur + 2 * d < MAZE_SIZE
    ensures c0[cur + d].wall == WithMarks(c0, seen)[cur + d].wall
    ensures !c0[cur + d].wall ==>
              && Edge(c0, 2 * xDim, cur, cur + 2 * d) && cur + 2 * d in Lattice(xDim, yDim)
              && (WithMarks(c0, seen)[cur + 2 * d].reach <==> cur + 2 * d in seen + Marked(c0, xDim, yDim))
  {
    hide Searching, Area, Lattice, Bordered;
    SeenInLattice(c0, xDim, yDim, s, seen, q);
    LatticeAround(xDim, yDim, cur);
    if !c0[cur + d].wall {
      LatticeEdge(c0, xDim, yDim, cur, cur + 2 * d);
    }
  }

  lemma SeenInLattice(c0: seq<Cell>, xDim: int, yDim: int, s: int, seen: set<int>, q: seq<int>)
    requires Searching(c0, xDim, yDim, s, seen, q)
    ensures seen <= Lattice(xDim, yDim) && Bordered(c0, xDim, yDim) && GoodDims(xDim, yDim) && |c0| == MAZE_SIZE
  {
    hide Lattice;
  }

  /** A newly seen point keeps the search going, and fits the queue. */
  lemma SearchMore(c0: seq<Cell>, xDim: int, yDim: int, s: int, seen: set<int>, q: seq<int>, cur: int, t: int)
    requires Searching(c0, xDim, yDim, s, seen, q)
    requires cur in seen && Edge(c0, 2 * xDim, cur, t)
    requires t in Lattice(xDim, yDim) && t !in seen + Marked(c0, xDim, yDim)
    ensures Searching(c0, xDim, yDim, s, seen + {t}, q + [t])
    ensures |q| < QUEUE_SIZE
  {
    ReachesStep(c0, 2 * xDim, Marked(c0, xDim, yDim), s, cur, t);
    LatticeSize(xDim, yDim);
    SubsetSize(seen + {t}, Lattice(xDim, yDim));
    MulLe(xDim, MAZE_MAX_X_DIM, yDim);
  }

  lemma MarkOne(c0: seq<Cell>, seen: set<int>, t: int)
    requires 0 <= t < |c0|
    ensures WithMarks(c0, seen)[t := WithMarks(c0, seen)[t].(reach := true)] == WithMarks(c0, seen + {t})
  {
  }

  lemma SearchStart(c0: seq<Cell>, xDim: int, yDim: int, s: int)
    requires Bordered(c0, xDim, yDim) && s in Lattice(xDim, yDim) - Marked(c0, xDim, yDim)
    ensures 0 <= s < |c0| && c0[s := c0[s].(reach := true)] == WithMarks(c0, {s})
    ensures Searching(c0, xDim, yDim, s, {s}, [s])
    ensures Explored(c0, xDim, yDim, {}, {s})
  {
    LatticeAround(xDim, yDim, s);
    ReachesSelf(c0, 2 * xDim, Marked(c0, xDim, yDim), s);
  }

  /** What was explored stays so when more is seen. */
  lemma MoreSeen(c0: seq<Cell>, xDim: int, yDim: int, seen: set<int>, found: set<int>)
    requires seen <= found
    ensures forall done :: Explored(c0, xDim, yDim, done, seen) ==> Explored(c0, xDim, yDim, done, found)
    ensures forall i, e :: LookedAt(c0, xDim, yDim, i, e, seen) ==> LookedAt(c0, xDim, yDim, i, e, found)
  {
    hide Edge, Marked, Passage;
  }

  /** A direction has been looked at when the point behind its open edge is seen or avoided. */
  lemma LookedThere(c0: seq<Cell>, xDim: int, yDim: int, cur: int, d: int, found: set<int>)
    requires 0 <= cur + d < |c0|
    requires !c0[cur + d].wall ==> cur + 2 * d in found + Marked(c0, xDim, yDim)
    ensures LookedAt(c0, xDim, yDim, cur, d, found)
  {
    hide Marked;
  }

  lemma SearchSet(c0: seq<Cell>, xDim: int, yDim: int, s: int, seen: set<int>, q: seq<int>)
    requires Searching(c0, xDim, yDim, s, seen, q)
    ensures Entries(q) == seen && |q| == |seen|
  {
    hide Area, Bordered;
    forall i ensures i in Entries(q) <==> i in seen {
      assert i in Entries(q) <==> i in q;
    }
  }

  function Entries(q: seq<int>): set<int> {
    set i | i in q
  }

  lemma NoEntries()
    ensures Entries([]) == {}
  {
  }

  lemma EntriesMore(q: seq<int>, n: nat)
    requires n < |q|
    ensures Entries(q[..n + 1]) == Entries(q[..n]) + {q[n]} && q[n] in Entries(q)
  {
    assert q[..n + 1] == q[..n] + [q[n]];
  }

  /** No point is queued twice, and there are no more entries than lattice points. */
  lemma SearchQueue(c0: seq<Cell>, xDim: int, yDim: int, s: int, seen: set<int>, q: seq<int>)
    requires Searching(c0, xDim, yDim, s, seen, q)
    ensures (forall j, k | 0 <= j < k < |q| :: q[j] != q[k]) && |q| <= |Lattice(xDim, yDim)|
  {
    SubsetSize(seen, Lattice(xDim, yDim));
    forall j, k | 0 <= j < k < |q| ensures q[j] != q[k] {
      if q[j] == q[k] {
        var others := q[..k] + q[k + 1..];
        assert forall i | i in seen :: i in others by {
          forall i | i in seen ensures i in others {
            var m :| 0 <= m < |q| && q[m] == i;
            assert others[if m < k then m else if m == k then j else m - 1] == i;
          }
        }
        FewerEntries(seen, others);
      }
    }
  }

  /** A sequence is at least as long as a set of its entries. */
  lemma {:induction false} FewerEntries<T>(seen: set<T>, q: seq<T>)
    requires forall i | i in seen :: i in q
    ensures |seen| <= |q|
  {
    if seen != {} {
      var i :| i in seen;
      assert i in q;
      FewerEntries(seen - {q[0]}, q[1..]);
    }
  }

  /** A search whose every found point has been explored has found its whole area. */
  lemma SearchDone(c0: seq<Cell>, xDim: int, yDim: int, s: int, seen: set<int>, q: seq<int>)
    requires Searching(c0, xDim, yDim, s, seen, q) && s in seen
    requires Explored(c0, xDim, yDim, seen, seen)
    ensures seen == Area(c0, xDim, yDim, Marked(c0, xDim, yDim), s)
  {
    var avoid := Marked(c0, xDim, yDim);
    forall i | i in Area(c0, xDim, yDim, Marked(c0, xDim, yDim), s) ensures i in seen {
      ReachesInside(c0, 2 * xDim, avoid, seen, s, i);
    }
  }

  ghost predicate Explored(c0: seq<Cell>, xDim: int, yDim: int, done: set<int>, seen: set<int>) {
    forall i, j | i in done && Edge(c0, 2 * xDim, i, j) :: j in seen || j in Marked(c0, xDim, yDim)
  }

  ghost predicate LookedAt(c0: seq<Cell>, xDim: int, yDim: int, cur: int, d: int, seen: set<int>) {
    Passage(c0, cur + d) ==> cur + 2 * d in seen || cur + 2 * d in Marked(c0, xDim, yDim)
  }

  /** A point is explored when its four directions have been looked at. */
  lemma LookedAllAround(c0: seq<Cell>, xDim: int, yDim: int, cur: int, done: set<int>, seen: set<int>)
    requires Explored(c0, xDim, yDim, done, seen)
    requires forall d | Direction(2 * xDim, d) :: LookedAt(c0, xDim, yDim, cur, d, seen)
    ensures Explored(c0, xDim, yDim, done + {cur}, seen)
  {
    hide Marked, Passage;
    var w := 2 * xDim;
    assert Direction(w, 1) && Direction(w, -1) && Direction(w, w) && Direction(w, -w);
  }

  lemma {:induction false} SubsetSize<T>(a: set<T>, b: set<T>)
    requires a <= b
    ensures |a| <= |b|
  {
    if a != {} {
      var x :| x in a;
      SubsetSize(a - {x}, b - {x});
    }
  }
}
