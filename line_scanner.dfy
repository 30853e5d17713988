/** The line scan shared by checkWin and evaluate in script.js, as functions
    on a Grid. From an origin (x, y) it counts stones of one colour along an
    axis, up to REACH cells in each direction, and treats the origin as holding
    that colour without reading it. */
module LineScanner {
  import opened Board

  /** The four axes, in the order the source scans them: horizontal,
      vertical, down-right diagonal, up-right diagonal. */
  const Dirs: seq<(int, int)> := [(1, 0), (0, 1), (1, 1), (1, -1)]

  /** The arm loops run for d = 1 up to 4 (the loop test is d < 5). */
  const REACH: int := 4

  /** A line of this many stones wins. */
  const WIN_LENGTH: int := 5

  /** The cell d steps from (x, y) in direction (dx, dy) holds colour c. */
  predicate StoneAt(g: Grid, x: int, y: int, dx: int, dy: int, c: int, d: int)
    requires WellFormed(g)
  {
    Holds(g, x + dx * d, y + dy * d, c)
  }

  /** The stones counted in direction (dx, dy) from step d on, up to REACH.
      (Termination needs only the first component of the decreases clause;
      the second keeps the verifier from unrolling every call whose step is
      a literal all the way to REACH.) */
  function ArmFrom(g: Grid, x: int, y: int, dx: int, dy: int, c: int, d: int): nat
    requires WellFormed(g) && 1 <= d <= REACH + 1
    decreases REACH + 1 - d, x
  {
    if d == REACH + 1 || !StoneAt(g, x, y, dx, dy, c, d) then 0
    else 1 + ArmFrom(g, x, y, dx, dy, c, d + 1)
  }

  /** The stones counted in direction (dx, dy) from the origin. */
  function Arm(g: Grid, x: int, y: int, dx: int, dy: int, c: int): nat
    requires WellFormed(g)
  {
    ArmFrom(g, x, y, dx, dy, c, 1)
  }

  /** Independent description of an arm: n <= REACH stones of colour c
      immediately past the origin, and the scan stops after them because the
      next cell is off the board or not c (or the reach is used up). */
  predicate IsRun(g: Grid, x: int, y: int, dx: int, dy: int, c: int, n: int)
    requires WellFormed(g)
  {
    && 0 <= n <= REACH
    && (forall e :: 1 <= e <= n ==> StoneAt(g, x, y, dx, dy, c, e))
    && (n < REACH ==> !StoneAt(g, x, y, dx, dy, c, n + 1))
  }

  /** The line length through (x, y) along the i-th axis: the origin plus the
      forward and the backward arm. */
  function AxisCount(g: Grid, x: int, y: int, c: int, i: int): int
    requires WellFormed(g) && 0 <= i < |Dirs|
  {
    1 + Arm(g, x, y, Dirs[i].0, Dirs[i].1, c) + Arm(g, x, y, -Dirs[i].0, -Dirs[i].1, c)
  }

  /** The running maximum after scanning the first k axes, starting from 0.
      (The second component of the decreases clause plays the same part as
      in ArmFrom.) */
  function MaxAxisUpTo(g: Grid, x: int, y: int, c: int, k: int): int
    requires WellFormed(g) && 0 <= k <= |Dirs|
    decreases k, x
  {
    if k == 0 then 0
    else
      var m := MaxAxisUpTo(g, x, y, c, k - 1);
      var n := AxisCount(g, x, y, c, k - 1);
      if n > m then n else m
  }

  /** What evaluate(x, y, c) returns: the longest line through (x, y). */
  function BestLine(g: Grid, x: int, y: int, c: int): int
    requires WellFormed(g)
  {
    MaxAxisUpTo(g, x, y, c, |Dirs|)
  }

  /** What checkWin(x, y, c) returns: some axis reaches five. */
  predicate HasWin(g: Grid, x: int, y: int, c: int)
    requires WellFormed(g)
  {
    exists i :: 0 <= i < |Dirs| && AxisCount(g, x, y, c, i) >= WIN_LENGTH
  }

  /** A direction of the table or its opposite: a unit step that moves. */
  predicate Unit(dx: int, dy: int) {
    -1 <= dx <= 1 && -1 <= dy <= 1 && (dx != 0 || dy != 0)
  }

  lemma {:induction false} ArmFromIsRun(g: Grid, x: int, y: int, dx: int, dy: int, c: int, d: int)
    requires WellFormed(g) && 1 <= d <= REACH + 1
    ensures var n := ArmFrom(g, x, y, dx, dy, c, d);
      && n <= REACH + 1 - d
      && (forall e :: d <= e < d + n ==> StoneAt(g, x, y, dx, dy, c, e))
      && (d + n <= REACH ==> !StoneAt(g, x, y, dx, dy, c, d + n))
    decreases REACH + 1 - d
  {
    if d <= REACH && StoneAt(g, x, y, dx, dy, c, d) {
      ArmFromIsRun(g, x, y, dx, dy, c, d + 1);
    }
  }

  /** An arm has length n exactly when the cells past the origin form a run of
      n stones that the scan stops after. */
  lemma ArmIsRun(g: Grid, x: int, y: int, dx: int, dy: int, c: int, n: int)
    requires WellFormed(g)
    ensures Arm(g, x, y, dx, dy, c) == n <==> IsRun(g, x, y, dx, dy, c, n)
  {
    ArmFromIsRun(g, x, y, dx, dy, c, 1);
    var a := Arm(g, x, y, dx, dy, c);
    assert IsRun(g, x, y, dx, dy, c, a);
    if IsRun(g, x, y, dx, dy, c, n) {
      // the first cell past the shorter run decides which run is wrong
      var pastA := StoneAt(g, x, y, dx, dy, c, a + 1);
      var pastN := StoneAt(g, x, y, dx, dy, c, n + 1);
    }
  }

  /** An arm is never longer than the reach of the scan. */
  lemma ArmBound(g: Grid, x: int, y: int, dx: int, dy: int, c: int)
    requires WellFormed(g)
    ensures Arm(g, x, y, dx, dy, c) <= REACH
  {
    ArmFromIsRun(g, x, y, dx, dy, c, 1);
  }

  /** k stones past the origin give an arm of at least k. */
  lemma ArmAtLeast(g: Grid, x: int, y: int, dx: int, dy: int, c: int, k: int)
    requires WellFormed(g) && 0 <= k <= REACH
    requires forall e :: 1 <= e <= k ==> StoneAt(g, x, y, dx, dy, c, e)
    ensures Arm(g, x, y, dx, dy, c) >= k
  {
    var a := Arm(g, x, y, dx, dy, c);
    ArmIsRun(g, x, y, dx, dy, c, a);
    var pastA := StoneAt(g, x, y, dx, dy, c, a + 1);
  }

  lemma {:induction false} MaxAxisUpToIsMax(g: Grid, x: int, y: int, c: int, k: int)
    requires WellFormed(g) && 0 <= k <= |Dirs|
    ensures forall i :: 0 <= i < k ==> AxisCount(g, x, y, c, i) <= MaxAxisUpTo(g, x, y, c, k)
    ensures k == 0 ==> MaxAxisUpTo(g, x, y, c, k) == 0
    ensures k > 0 ==> exists i :: 0 <= i < k && AxisCount(g, x, y, c, i) == MaxAxisUpTo(g, x, y, c, k)
  {
    if k > 0 {
      MaxAxisUpToIsMax(g, x, y, c, k - 1);
      var m := MaxAxisUpTo(g, x, y, c, k - 1);
      if AxisCount(g, x, y, c, k - 1) <= m {
        assert MaxAxisUpTo(g, x, y, c, k) == m;
        if k - 1 > 0 {
          var i :| 0 <= i < k - 1 && AxisCount(g, x, y, c, i) == m;
          assert 0 <= i < k && AxisCount(g, x, y, c, i) == MaxAxisUpTo(g, x, y, c, k);
        }
      }
    }
  }

  /** evaluate returns the largest of the four axis counts. */
  lemma BestLineIsMax(g: Grid, x: int, y: int, c: int)
    requires WellFormed(g)
    ensures forall i :: 0 <= i < |Dirs| ==> AxisCount(g, x, y, c, i) <= BestLine(g, x, y, c)
    ensures exists i :: 0 <= i < |Dirs| && AxisCount(g, x, y, c, i) == BestLine(g, x, y, c)
  {
    MaxAxisUpToIsMax(g, x, y, c, |Dirs|);
  }

  /** Each axis count lies between 1 (a lone stone) and 1 + 2 * REACH. */
  lemma AxisCountRange(g: Grid, x: int, y: int, c: int, i: int)
    requires WellFormed(g) && 0 <= i < |Dirs|
    ensures 1 <= AxisCount(g, x, y, c, i) <= 1 + 2 * REACH
  {
    ArmBound(g, x, y, Dirs[i].0, Dirs[i].1, c);
    ArmBound(g, x, y, -Dirs[i].0, -Dirs[i].1, c);
  }

  /** evaluate always returns a value from 1 to 9. */
  lemma BestLineRange(g: Grid, x: int, y: int, c: int)
    requires WellFormed(g)
    ensures 1 <= BestLine(g, x, y, c) <= 9
  {
    BestLineIsMax(g, x, y, c);
    var i :| 0 <= i < |Dirs| && AxisCount(g, x, y, c, i) == BestLine(g, x, y, c);
    AxisCountRange(g, x, y, c, i);
  }

  /** checkWin(x, y, c) holds exactly when evaluate(x, y, c) >= 5. */
  lemma WinIffLongLine(g: Grid, x: int, y: int, c: int)
    requires WellFormed(g)
    ensures HasWin(g, x, y, c) <==> BestLine(g, x, y, c) >= WIN_LENGTH
  {
    BestLineIsMax(g, x, y, c);
  }

  lemma {:induction false} ArmFromIgnoresOrigin(g: Grid, x: int, y: int, dx: int, dy: int, c: int, d: int, v: int)
    requires WellFormed(g) && InBounds(x, y) && Unit(dx, dy) && 1 <= d <= REACH + 1
    ensures ArmFrom(Place(g, x, y, v), x, y, dx, dy, c, d) == ArmFrom(g, x, y, dx, dy, c, d)
    decreases REACH + 1 - d
  {
    if d <= REACH {
      assert (x + dx * d, y + dy * d) != (x, y) by {
        if dx != 0 {
          assert dx == 1 || dx == -1;
        } else {
          assert dy == 1 || dy == -1;
        }
      }
      ArmFromIgnoresOrigin(g, x, y, dx, dy, c, d + 1, v);
    }
  }

  /** The i-th axis does not read the origin. */
  lemma AxisIgnoresOrigin(g: Grid, x: int, y: int, c: int, i: int, v: int)
    requires WellFormed(g) && InBounds(x, y) && 0 <= i < |Dirs|
    ensures AxisCount(Place(g, x, y, v), x, y, c, i) == AxisCount(g, x, y, c, i)
  {
    var (dx, dy) := Dirs[i];
    assert Unit(dx, dy) && Unit(-dx, -dy);
    ArmFromIgnoresOrigin(g, x, y, dx, dy, c, 1, v);
    ArmFromIgnoresOrigin(g, x, y, -dx, -dy, c, 1, v);
  }

  /** Neither scan reads the origin: whatever (x, y) holds, evaluate and
      checkWin give the same answer. */
  lemma IgnoresOrigin(g: Grid, x: int, y: int, c: int, v: int)
    requires WellFormed(g) && InBounds(x, y)
    ensures BestLine(Place(g, x, y, v), x, y, c) == BestLine(g, x, y, c)
    ensures HasWin(Place(g, x, y, v), x, y, c) <==> HasWin(g, x, y, c)
  {
    var h := Place(g, x, y, v);
    AxisIgnoresOrigin(g, x, y, c, 0, v);
    AxisIgnoresOrigin(g, x, y, c, 1, v);
    AxisIgnoresOrigin(g, x, y, c, 2, v);
    AxisIgnoresOrigin(g, x, y, c, 3, v);
    assert forall i :: 0 <= i < |Dirs| ==> AxisCount(h, x, y, c, i) == AxisCount(g, x, y, c, i);
    assert MaxAxisUpTo(h, x, y, c, 1) == MaxAxisUpTo(g, x, y, c, 1);
    assert MaxAxisUpTo(h, x, y, c, 2) == MaxAxisUpTo(g, x, y, c, 2);
    assert MaxAxisUpTo(h, x, y, c, 3) == MaxAxisUpTo(g, x, y, c, 3);
  }

  /** A stone with no other stone of its colour on the board makes a line of
      one and no win (an opening move). */
  lemma LoneStone(g: Grid, x: int, y: int, c: int)
    requires WellFormed(g) && InBounds(x, y)
    requires forall y', x' :: InBounds(x', y') && (x', y') != (x, y) ==> g[y'][x'] != c
    ensures BestLine(g, x, y, c) == 1
    ensures !HasWin(g, x, y, c)
  {
    forall i | 0 <= i < |Dirs|
      ensures AxisCount(g, x, y, c, i) == 1
    {
      assert !StoneAt(g, x, y, Dirs[i].0, Dirs[i].1, c, 1);
      assert !StoneAt(g, x, y, -Dirs[i].0, -Dirs[i].1, c, 1);
    }
    BestLineIsMax(g, x, y, c);
  }

  /** Five in a row along the axis (dx, dy) through (x, y), with `back` of
      the other four stones behind the origin (direction (ex, ey)) and the
      rest ahead of it, is a win. */
  lemma FiveInRowWins(g: Grid, x: int, y: int, c: int, i: int, dx: int, dy: int, ex: int, ey: int, back: int)
    requires WellFormed(g) && 0 <= i < |Dirs| && Dirs[i] == (dx, dy) && (ex, ey) == (-dx, -dy)
    requires 0 <= back <= REACH
    requires forall e :: 1 <= e <= REACH - back ==> StoneAt(g, x, y, dx, dy, c, e)
    requires forall e :: 1 <= e <= back ==> StoneAt(g, x, y, ex, ey, c, e)
    ensures HasWin(g, x, y, c)
    ensures BestLine(g, x, y, c) >= WIN_LENGTH
  {
    ArmAtLeast(g, x, y, dx, dy, c, REACH - back);
    ArmAtLeast(g, x, y, ex, ey, c, back);
    assert AxisCount(g, x, y, c, i) >= WIN_LENGTH;
    WinIffLongLine(g, x, y, c);
  }
}
