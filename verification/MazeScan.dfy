/** The cyclic scan of make_maze's repair phase (MP2/maze.c): in which order it visits the lattice points, and how soon
    it comes to any one of them. */
module MazeScan {
  import opened MazeDig

  /** The next point of the cyclic scan: along the row, then down, then back to the top. */
  function ScanNext(xDim: int, yDim: int, x: int, y: int): (int, int) {
    if x + 2 > 2 * xDim then
      (x + 2 - 2 * xDim, if y + 2 > 2 * yDim then y + 2 - 2 * yDim else y + 2)
    else
      (x + 2, y)
  }

  /** How many lattice points n rows have. */
  function Rows(xDim: nat, n: nat): nat {
    if n == 0 then 0 else Rows(xDim, n - 1) + xDim
  }

  lemma {:induction false} RowsAre(xDim: nat, n: nat)
    ensures Rows(xDim, n) == xDim * n
  {
    if n > 0 {
      RowsAre(xDim, n - 1);
      assert xDim * n == xDim * (n - 1) + xDim;
    }
  }

  lemma {:induction false} RowsGrow(xDim: nat, n: nat, m: nat)
    requires n < m
    ensures Rows(xDim, n) + xDim <= Rows(xDim, m)
  {
    if n + 1 < m {
      RowsGrow(xDim, n, m - 1);
    }
  }

  /** The place of a lattice point in the order of the scan. */
  function Place(xDim: nat, x: nat, y: nat): nat {
    Rows(xDim, y / 2) + x / 2
  }

  lemma PlaceInside(xDim: nat, yDim: nat, x: nat, y: nat)
    requires IsLatticePoint(xDim, yDim, x, y)
    ensures Place(xDim, x, y) < Rows(xDim, yDim)
  {
    RowsGrow(xDim, y / 2, yDim);
  }

  /** Different points have different places. */
  lemma PlaceUnique(xDim: nat, yDim: nat, x: nat, y: nat, x': nat, y': nat)
    requires IsLatticePoint(xDim, yDim, x, y) && IsLatticePoint(xDim, yDim, x', y')
    requires Place(xDim, x, y) == Place(xDim, x', y')
    ensures x == x' && y == y'
  {
    if y / 2 < y' / 2 {
      RowsGrow(xDim, y / 2, y' / 2);
    } else if y' / 2 < y / 2 {
      RowsGrow(xDim, y' / 2, y / 2);
    }
  }

  /** A step of the scan leads to the next place, and from the last one to the first. */
  lemma NextPlace(xDim: nat, yDim: nat, x: nat, y: nat)
    requires IsLatticePoint(xDim, yDim, x, y)
    ensures var next := ScanNext(xDim, yDim, x, y);
            && IsLatticePoint(xDim, yDim, next.0, next.1)
            && Place(xDim, next.0, next.1) ==
               if Place(xDim, x, y) + 1 == Rows(xDim, yDim) then 0 else Place(xDim, x, y) + 1
  {
    PlaceInside(xDim, yDim, x, y);
    if x + 2 > 2 * xDim {
      assert Rows(xDim, y / 2 + 1) == Rows(xDim, y / 2) + xDim && x / 2 == xDim - 1;
      if y + 2 > 2 * yDim {
        assert y / 2 + 1 == yDim;
      } else {
        assert (y + 2) / 2 == y / 2 + 1 && y / 2 + 1 < yDim;
        RowsGrow(xDim, y / 2 + 1, yDim);
      }
    } else {
      assert (x + 2) / 2 == x / 2 + 1 && x / 2 + 1 < xDim;
      RowsGrow(xDim, y / 2, yDim);
    }
  }

  /** How many steps lead from one place to another, once around for the same place. */
  function Ahead(size: nat, p: nat, q: nat): (n: nat)
    requires p < size && q < size
    ensures 1 <= n <= size
  {
    if p < q then q - p else q + size - p
  }

  /** How many steps the scan takes from (x,y) to (fx,fy). */
  function StepsTo(xDim: nat, yDim: nat, x: nat, y: nat, fx: nat, fy: nat): (n: nat)
    requires IsLatticePoint(xDim, yDim, x, y) && IsLatticePoint(xDim, yDim, fx, fy)
    ensures 1 <= n <= Rows(xDim, yDim)
  {
    PlaceInside(xDim, yDim, x, y);
    PlaceInside(xDim, yDim, fx, fy);
    Ahead(Rows(xDim, yDim), Place(xDim, x, y), Place(xDim, fx, fy))
  }

  /** Every step of the scan hits the target or comes one step closer to it. */
  lemma ScanCloser(xDim: nat, yDim: nat, x: nat, y: nat, fx: nat, fy: nat)
    requires IsLatticePoint(xDim, yDim, x, y)
    ensures var next := ScanNext(xDim, yDim, x, y);
            && IsLatticePoint(xDim, yDim, next.0, next.1)
            && (IsLatticePoint(xDim, yDim, fx, fy) && next != (fx, fy) ==>
                  StepsTo(xDim, yDim, next.0, next.1, fx, fy) == StepsTo(xDim, yDim, x, y, fx, fy) - 1)
  {
    hide ScanNext, IsLatticePoint;
    NextPlace(xDim, yDim, x, y);
    var next := ScanNext(xDim, yDim, x, y);
    PointNat(xDim, yDim, next.0, next.1);
    if IsLatticePoint(xDim, yDim, fx, fy) && next != (fx, fy) {
      hide Place;
      PlaceInside(xDim, yDim, x, y);
      PlaceInside(xDim, yDim, fx, fy);
      if Place(xDim, next.0, next.1) == Place(xDim, fx, fy) {
        PlaceUnique(xDim, yDim, next.0, next.1, fx, fy);
      }
    }
  }

  lemma PointNat(xDim: int, yDim: int, x: int, y: int)
    requires IsLatticePoint(xDim, yDim, x, y)
    ensures 0 <= x && 0 <= y
  {
  }

  /** Where n steps of the scan lead. */
  function ScanAfter(xDim: int, yDim: int, x: int, y: int, n: nat): (int, int)
    decreases n
  {
    if n == 0 then (x, y)
    else
      var next := ScanNext(xDim, yDim, x, y);
      ScanAfter(xDim, yDim, next.0, next.1, n - 1)
  }

  /** The scan comes to any lattice point, after no more steps than there are lattice points. */
  lemma {:induction false} ScanMeets(xDim: nat, yDim: nat, x: nat, y: nat, fx: nat, fy: nat)
    requires IsLatticePoint(xDim, yDim, x, y) && IsLatticePoint(xDim, yDim, fx, fy)
    ensures 1 <= StepsTo(xDim, yDim, x, y, fx, fy) <= xDim * yDim
    ensures ScanAfter(xDim, yDim, x, y, StepsTo(xDim, yDim, x, y, fx, fy)) == (fx, fy)
    decreases StepsTo(xDim, yDim, x, y, fx, fy)
  {
    hide ScanNext, IsLatticePoint, StepsTo;
    RowsAre(xDim, yDim);
    ScanCloser(xDim, yDim, x, y, fx, fy);
    var next := ScanNext(xDim, yDim, x, y);
    PointNat(xDim, yDim, next.0, next.1);
    if next == (fx, fy) {
      OneStep(xDim, yDim, x, y, fx, fy);
    } else {
      ScanMeets(xDim, yDim, next.0, next.1, fx, fy);
    }
  }

  lemma OneStep(xDim: nat, yDim: nat, x: nat, y: nat, fx: nat, fy: nat)
    requires IsLatticePoint(xDim, yDim, x, y) && IsLatticePoint(xDim, yDim, fx, fy)
    requires ScanNext(xDim, yDim, x, y) == (fx, fy)
    ensures StepsTo(xDim, yDim, x, y, fx, fy) == 1
  {
    NextPlace(xDim, yDim, x, y);
  }

  /** How many steps the scan has to go, when it has somewhere to go. */
  ghost function ToGo(xDim: int, yDim: int, x: int, y: int, fx: int, fy: int): (n: nat)
    ensures IsLatticePoint(xDim, yDim, x, y) ==> n <= Rows(xDim, yDim)
  {
    if IsLatticePoint(xDim, yDim, x, y) && IsLatticePoint(xDim, yDim, fx, fy) then StepsTo(xDim, yDim, x, y, fx, fy)
    else 0
  }

  lemma ScanStep(xDim: int, yDim: int, x: int, y: int, fx: int, fy: int)
    requires IsLatticePoint(xDim, yDim, x, y)
    ensures var next := ScanNext(xDim, yDim, x, y);
            && IsLatticePoint(xDim, yDim, next.0, next.1)
            && (IsLatticePoint(xDim, yDim, fx, fy) && next != (fx, fy) ==>
                  ToGo(xDim, yDim, next.0, next.1, fx, fy) == ToGo(xDim, yDim, x, y, fx, fy) - 1)
            && (IsLatticePoint(xDim, yDim, fx, fy) ==> ToGo(xDim, yDim, x, y, fx, fy) >= 1)
  {
    if IsLatticePoint(xDim, yDim, fx, fy) {
      ScanCloser(xDim, yDim, x, y, fx, fy);
    } else {
      NextPlace(xDim, yDim, x, y);
    }
  }

  /** The most steps that n laps of the scan take. */
  function Laps(n: nat, size: nat): nat {
    if n == 0 then 0 else Laps(n - 1, size) + size
  }

  lemma {:induction false} LapsAre(n: nat, size: nat)
    ensures Laps(n, size) == n * size
  {
    if n > 0 {
      LapsAre(n - 1, size);
      assert n * size == (n - 1) * size + size;
    }
  }

  lemma {:induction false} LapsGrow(n: nat, m: nat, size: nat)
    requires n < m
    ensures Laps(n, size) + size <= Laps(m, size)
  {
    if n + 1 < m {
      LapsGrow(n, m - 1, size);
    }
  }

  /** At most a lap of the scan for every point that was joined, and for the lap it is in the steps done; with
      nothing to join, one step. */
  ghost predicate Scanned(steps: nat, since: nat, unreached: nat, remaining: int, again: bool, size: nat) {
    && 0 <= remaining <= unreached
    && (if unreached == 0 then steps == if again then 0 else 1
        else
          && steps <= Laps(unreached - remaining, size) + since
          && (remaining == 0 ==> since == 0) && (again <==> remaining > 0))
  }

  lemma ScanStart(unreached: nat, size: nat)
    ensures Scanned(0, 0, unreached, unreached, true, size)
  {
  }

  lemma ScanGoesOn(steps: nat, since: nat, unreached: nat, remaining: int, size: nat)
    requires Scanned(steps, since, unreached, remaining, true, size)
    ensures Scanned(steps + 1, since + 1, unreached, remaining, remaining > 0, size)
  {
  }

  lemma ScanHit(steps: nat, since: nat, unreached: nat, remaining: int, left: int, size: nat)
    requires Scanned(steps, since, unreached, remaining, remaining > 0, size) && 0 <= left < remaining && since <= size
    ensures Scanned(steps, 0, unreached, left, left > 0, size)
  {
    LapsGrow(unreached - remaining, unreached - left, size);
  }

  lemma ScanDone(steps: nat, since: nat, unreached: nat, xDim: nat, yDim: nat)
    requires Scanned(steps, since, unreached, 0, false, Rows(xDim, yDim))
    ensures steps <= if unreached == 0 then 1 else unreached * (xDim * yDim)
  {
    RowsAre(xDim, yDim);
    LapsAre(unreached, Rows(xDim, yDim));
  }
}
