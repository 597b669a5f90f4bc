/** When the random values suffice for the draws that are repeated until they hit a wanted point, in make_maze
    (MP2/maze.c). */
module MazeTape {
  import opened MazeCells
  import opened MazeDig
  import opened MazeDraw

  /** After this many random tries the repair only scans. */
  const RANDOM_TRIALS := 100

  /** At least 20 points are not yet reached. */
  ghost predicate ManyLeft(reached: set<int>, xDim: int, yDim: int) {
    reached <= Lattice(xDim, yDim) && |reached| + 20 <= xDim * yDim
  }

  /** What a draw leaves is the end of the tape. */
  lemma {:induction false} DrawSuffix(tape: seq<nat>, xDim: int, yDim: int, bad: set<int>) returns (j: nat)
    requires 0 < xDim && 0 < yDim && DrawGood(tape, xDim, yDim, bad).Point?
    ensures j <= |tape| && DrawGood(tape, xDim, yDim, bad).rest == tape[j..]
  {
    var d := DrawPoint(tape, xDim, yDim);
    j := 2;
    if MazeIndex(xDim, d.x, d.y) in bad {
      j := DrawSuffix(d.rest, xDim, yDim, bad);
      assert tape[2..][j..] == tape[2 + j..];
      j := 2 + j;
    }
  }

  /** The values suffice for `draws` draws, each perhaps followed by one more value, as long as each draw has a point
      to hit. */
  ghost predicate Plenty(tape: seq<nat>, xDim: int, yDim: int, draws: nat)
    requires 0 < xDim && 0 < yDim
    decreases draws
  {
    draws == 0 || forall bad: set<int> | Missing(bad, xDim, yDim) ::
      var d := DrawGood(tape, xDim, yDim, bad);
      d.Point? && d.rest != [] && Plenty(d.rest, xDim, yDim, draws - 1) && Plenty(d.rest[1..], xDim, yDim, draws - 1)
  }

  /** Some lattice point is not a bad one. */
  ghost predicate Missing(bad: set<int>, xDim: int, yDim: int) {
    exists x, y | IsLatticePoint(xDim, yDim, x, y) :: MazeIndex(xDim, x, y) !in bad
  }

  lemma FewMissing(bad: set<int>, xDim: int, yDim: int)
    requires bad <= Lattice(xDim, yDim) && bad != Lattice(xDim, yDim)
    ensures Missing(bad, xDim, yDim)
  {
    hide MazeIndex;
    var i :| i in Lattice(xDim, yDim) && i !in bad;
    var x, y :| 0 <= x < 2 * xDim && 0 <= y < 2 * yDim && x % 2 == 1 && y % 2 == 1 && MazeIndex(xDim, x, y) == i;
    assert IsLatticePoint(xDim, yDim, x, y);
  }

  lemma PlentyHits(tape: seq<nat>, xDim: int, yDim: int, draws: nat, bad: set<int>)
    requires 0 < xDim && 0 < yDim && draws > 0 && Plenty(tape, xDim, yDim, draws) && Missing(bad, xDim, yDim)
    ensures var d := DrawGood(tape, xDim, yDim, bad);
            && d.Point? && d.rest != [] && Plenty(d.rest, xDim, yDim, draws - 1)
            && Plenty(d.rest[1..], xDim, yDim, draws - 1)
  {
  }

  /** Plenty for more draws is plenty for fewer. */
  lemma {:induction false} PlentyForFewer(tape: seq<nat>, xDim: int, yDim: int, draws: nat)
    requires 0 < xDim && 0 < yDim && draws > 0 && Plenty(tape, xDim, yDim, draws)
    ensures Plenty(tape, xDim, yDim, draws - 1)
    decreases draws
  {
    hide Missing, DrawGood;
    if draws > 1 {
      forall bad: set<int> | Missing(bad, xDim, yDim)
        ensures var d := DrawGood(tape, xDim, yDim, bad);
                && d.Point? && d.rest != [] && Plenty(d.rest, xDim, yDim, draws - 2)
                && Plenty(d.rest[1..], xDim, yDim, draws - 2)
      {
        var d := DrawGood(tape, xDim, yDim, bad);
        PlentyForFewer(d.rest, xDim, yDim, draws - 1);
        PlentyForFewer(d.rest[1..], xDim, yDim, draws - 1);
      }
    }
  }

  lemma {:induction false} PlentyForLess(tape: seq<nat>, xDim: int, yDim: int, draws: nat, fewer: nat)
    requires 0 < xDim && 0 < yDim && fewer <= draws && Plenty(tape, xDim, yDim, draws)
    ensures Plenty(tape, xDim, yDim, fewer)
    decreases draws
  {
    hide Plenty;
    if fewer < draws {
      PlentyForFewer(tape, xDim, yDim, draws);
      PlentyForLess(tape, xDim, yDim, draws - 1, fewer);
    }
  }

  /** Every pair below the sizes is in the sequence, at an even place. */
  ghost predicate Sweeps(s: seq<nat>, xDim: int, n: int) {
    |s| % 2 == 0 && forall a: nat, b: nat | a < xDim && b < n :: HasPair(s, a, b)
  }

  ghost predicate HasPair(s: seq<nat>, a: nat, b: nat) {
    exists k: nat | k < |s| / 2 :: PairAt(s, k, a, b)
  }

  predicate PairAt(s: seq<nat>, k: nat, a: nat, b: nat) {
    2 * k + 1 < |s| && s[2 * k] == a && s[2 * k + 1] == b
  }

  lemma HasPairMore(p: seq<nat>, s: seq<nat>, a: nat, b: nat)
    requires HasPair(s, a, b) && |p| % 2 == 0
    ensures HasPair(p + s, a, b)
  {
    var k: nat :| k < |s| / 2 && PairAt(s, k, a, b);
    assert PairAt(p + s, |p| / 2 + k, a, b);
  }

  /** All pairs of a row, and of all rows. */
  function RowSweep(n: nat, b: nat): seq<nat> {
    if n == 0 then [] else [n - 1, b] + RowSweep(n - 1, b)
  }

  lemma {:induction false} RowSweepHas(n: nat, b: nat, a: nat)
    requires a < n
    ensures HasPair(RowSweep(n, b), a, b)
  {
    var s := RowSweep(n, b);
    if a == n - 1 {
      assert PairAt(s, 0, a, b);
    } else {
      RowSweepHas(n - 1, b, a);
      HasPairMore([n - 1, b], RowSweep(n - 1, b), a, b);
    }
  }

  lemma {:induction false} RowSweepEven(n: nat, b: nat)
    ensures |RowSweep(n, b)| % 2 == 0
  {
    if n > 0 {
      RowSweepEven(n - 1, b);
    }
  }

  lemma {:induction false} SweepExists(xDim: nat, n: nat) returns (s: seq<nat>)
    ensures Sweeps(s, xDim, n)
  {
    s := [];
    if n > 0 {
      var rest := SweepExists(xDim, n - 1);
      var row := RowSweep(xDim, n - 1);
      RowSweepEven(xDim, n - 1);
      s := rest + row;
      forall a: nat, b: nat | a < xDim && b < n ensures HasPair(s, a, b) {
        if b == n - 1 {
          RowSweepHas(xDim, b, a);
          HasPairMore(rest, row, a, b);
        } else {
          assert HasPair(rest, a, b);
          var k: nat :| k < |rest| / 2 && PairAt(rest, k, a, b);
          assert PairAt(s, k, a, b);
        }
      }
    }
  }

  /** Two sweeps, so that one of them is met at an even place wherever a draw starts, and a value to spare. */
  function Round(s: seq<nat>): seq<nat> {
    s + [0] + s + [0]
  }

  function Rounds(s: seq<nat>, n: nat): seq<nat> {
    if n == 0 then [] else Round(s) + Rounds(s, n - 1)
  }

  /** A draw succeeds on a tape with a sweep at an even place. */
  lemma SweepHits(p: seq<nat>, s: seq<nat>, xDim: int, yDim: int, bad: set<int>)
    requires 0 < xDim && 0 < yDim && Sweeps(s, xDim, yDim) && |p| % 2 == 0 && Missing(bad, xDim, yDim)
    ensures DrawGood(p + s, xDim, yDim, bad).Point?
  {
    hide MazeIndex, RandomBelow, DrawGood, HasPair, PairAt;
    var x, y :| IsLatticePoint(xDim, yDim, x, y) && MazeIndex(xDim, x, y) !in bad;
    var a: nat, b: nat := x / 2, y / 2;
    HasPairMore(p, s, a, b);
    var k := PairPlace(p + s, a, b);
    Remainder(a, xDim);
    Remainder(b, yDim);
    DrawFails(p + s, xDim, yDim, bad);
    assert !NamesBad(p + s, xDim, yDim, bad, k);
  }

  lemma PairPlace(s: seq<nat>, a: nat, b: nat) returns (k: nat)
    requires HasPair(s, a, b)
    ensures k < |s| / 2 && 2 * k + 1 < |s| && s[2 * k] == a && s[2 * k + 1] == b
  {
    k :| k < |s| / 2 && PairAt(s, k, a, b);
  }

  lemma Remainder(a: nat, n: int)
    requires a < n
    ensures RandomBelow(a, n) == a
  {
  }

  /** What comes behind the point that is drawn does not matter. */
  lemma {:induction false} DrawEarly(p: seq<nat>, z: seq<nat>, xDim: int, yDim: int, bad: set<int>)
    requires 0 < xDim && 0 < yDim && DrawGood(p, xDim, yDim, bad).Point?
    ensures var d := DrawGood(p, xDim, yDim, bad); DrawGood(p + z, xDim, yDim, bad) == d.(rest := d.rest + z)
  {
    var d := DrawPoint(p, xDim, yDim);
    assert (p + z)[2..] == p[2..] + z;
    if MazeIndex(xDim, d.x, d.y) in bad {
      DrawEarly(d.rest, z, xDim, yDim, bad);
    }
  }

  /** A draw that starts anywhere before a round ends before the round does. */
  lemma RoundHits(p: seq<nat>, s: seq<nat>, tail: seq<nat>, xDim: int, yDim: int, bad: set<int>) returns (q: seq<nat>)
    requires 0 < xDim && 0 < yDim && Sweeps(s, xDim, yDim) && Missing(bad, xDim, yDim)
    ensures var d := DrawGood(p + Round(s) + tail, xDim, yDim, bad); d.Point? && q != [] && d.rest == q + tail
  {
    hide DrawGood, Sweeps, Missing;
    var front := if |p| % 2 == 0 then p else p + s + [0];
    var end := if |p| % 2 == 0 then [0] + s + [0] else [0];
    EvenFront(p, s, xDim, yDim);
    SweepHits(front, s, xDim, yDim, bad);
    DrawEarly(front + s, end + tail, xDim, yDim, bad);
    assert p + Round(s) + tail == front + s + (end + tail);
    q := DrawGood(front + s, xDim, yDim, bad).rest + end;
    assert DrawGood(front + s, xDim, yDim, bad).rest + (end + tail) == q + tail;
  }

  lemma EvenFront(p: seq<nat>, s: seq<nat>, xDim: int, yDim: int)
    requires Sweeps(s, xDim, yDim)
    ensures |if |p| % 2 == 0 then p else p + s + [0]| % 2 == 0
  {
  }

  lemma FirstRound(p: seq<nat>, s: seq<nat>, tail: seq<nat>, draws: nat)
    requires draws > 0
    ensures p + Rounds(s, draws) + tail == p + Round(s) + (Rounds(s, draws - 1) + tail)
  {
  }

  lemma Regrouped(q: seq<nat>, r: seq<nat>, tail: seq<nat>)
    requires q != []
    ensures q + (r + tail) == q + r + tail && (q + (r + tail))[1..] == q[1..] + r + tail
  {
  }

  /** As many rounds as draws are plenty, whatever comes before and after. */
  lemma {:induction false} RoundsArePlenty(p: seq<nat>, s: seq<nat>, tail: seq<nat>, xDim: int, yDim: int, draws: nat)
    requires 0 < xDim && 0 < yDim && Sweeps(s, xDim, yDim)
    ensures Plenty(p + Rounds(s, draws) + tail, xDim, yDim, draws)
    decreases draws
  {
    hide Sweeps, Missing, DrawGood, Round, Rounds;
    var tape := p + Rounds(s, draws) + tail;
    if draws > 0 {
      var later := Rounds(s, draws - 1) + tail;
      FirstRound(p, s, tail, draws);
      forall bad: set<int> | Missing(bad, xDim, yDim)
        ensures var d := DrawGood(tape, xDim, yDim, bad);
                && d.Point? && d.rest != [] && Plenty(d.rest, xDim, yDim, draws - 1)
                && Plenty(d.rest[1..], xDim, yDim, draws - 1)
      {
        var d := DrawGood(tape, xDim, yDim, bad);
        var q := RoundHits(p, s, later, xDim, yDim, bad);
        RoundsArePlenty(q, s, tail, xDim, yDim, draws - 1);
        RoundsArePlenty(q[1..], s, tail, xDim, yDim, draws - 1);
        Regrouped(q, Rounds(s, draws - 1), tail);
      }
    }
  }

  /** For any number of draws some values are plenty. */
  lemma PlentyExists(xDim: int, yDim: int, draws: nat) returns (tape: seq<nat>)
    requires 0 < xDim && 0 < yDim
    ensures Plenty(tape, xDim, yDim, draws)
  {
    var s := SweepExists(xDim, yDim);
    RoundsArePlenty([], s, [], xDim, yDim, draws);
    tape := [] + Rounds(s, draws) + [];
  }
}
