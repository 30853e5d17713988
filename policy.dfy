/** The computer's move choice in aiMove: every empty cell gets a score from a
    fixed rule ladder, and the candidates are the empty cells that reach the
    best score, in the row-major order the double loop visits them. */
module Policy {
  import opened Board
  import opened LineScanner

  /** The rule ladder; the first rule that matches decides the score. */
  function Score(aiScore: int, playerScore: int): int
  {
    if aiScore >= 5 then 10000             // the computer wins here
    else if playerScore >= 5 then 9000     // block the player's win
    else if aiScore == 4 then 8500         // make four
    else if playerScore == 4 then 8000     // block the player's four
    else if playerScore == 3 then 5000     // block the player's three
    else aiScore * 10 + playerScore * 8
  }

  /** The ladder ranks a win above a block of the opponent's win, both above
      making four, blocking four and blocking three, and every cell where a
      stone would touch nothing scores 18 or more. */
  lemma ScoreLadder(aiScore: int, playerScore: int)
    ensures var r := Score(aiScore, playerScore);
      && (r == 10000 <==> aiScore >= WIN_LENGTH)
      && (r == 9000 <==> aiScore < WIN_LENGTH && playerScore >= WIN_LENGTH)
      && r <= 10000
      && (aiScore < WIN_LENGTH ==> r <= 9000)
      && (aiScore < WIN_LENGTH && playerScore < WIN_LENGTH ==> r <= 8500)
      && (1 <= aiScore && 1 <= playerScore ==> r >= 18)
      && (1 <= aiScore < 4 && 1 <= playerScore < 3 ==> 18 <= r <= 46)
  {
  }

  /** The score aiMove gives the empty cell (x, y). */
  function CellScore(g: Grid, x: int, y: int): int
    requires WellFormed(g)
  {
    Score(BestLine(g, x, y, WHITE), BestLine(g, x, y, BLACK))
  }

  /** (x1, y1) comes before (x2, y2) in the row-major order of the double
      loop: an earlier row, or the same row and an earlier column. */
  predicate Precedes(x1: int, y1: int, x2: int, y2: int) {
    y1 < y2 || (y1 == y2 && x1 < x2)
  }

  /** A point the double loop can reach: column col of row row, where column
      SIZE is the end of a row and (0, SIZE) the end of the board. */
  predicate ScanPos(col: int, row: int) {
    0 <= row <= SIZE && 0 <= col <= SIZE && (row == SIZE ==> col == 0)
  }

  /** The best score among the empty cells visited before column col of row
      row, and -1 (the initial bestScore) when there is none. (Termination
      needs only the first two components of the decreases clause; the third
      keeps the verifier from unrolling calls at literal positions, such as
      the end of the board, all the way back to the start.) */
  function BestUpTo(g: Grid, col: int, row: int): int
    requires WellFormed(g) && ScanPos(col, row)
    decreases row, col, g
  {
    if col == 0 then (if row == 0 then -1 else BestUpTo(g, SIZE, row - 1))
    else
      var m := BestUpTo(g, col - 1, row);
      if g[row][col - 1] == EMPTY && CellScore(g, col - 1, row) > m then CellScore(g, col - 1, row) else m
  }

  /** The empty cells visited before column col of row row whose score is s,
      in visiting order. */
  function TopUpTo(g: Grid, col: int, row: int, s: int): seq<(int, int)>
    requires WellFormed(g) && ScanPos(col, row)
    decreases row, col, g
  {
    if col == 0 then (if row == 0 then [] else TopUpTo(g, SIZE, row - 1, s))
    else
      TopUpTo(g, col - 1, row, s)
        + (if g[row][col - 1] == EMPTY && CellScore(g, col - 1, row) == s then [(col - 1, row)] else [])
  }

  /** bestScore after the double loop of aiMove. */
  function BestScore(g: Grid): int
    requires WellFormed(g)
  {
    BestUpTo(g, 0, SIZE)
  }

  /** candidates after the double loop of aiMove. */
  function Candidates(g: Grid): seq<(int, int)>
    requires WellFormed(g)
  {
    TopUpTo(g, 0, SIZE, BestScore(g))
  }

  /** Every cell scores at least 18, above the initial bestScore of -1. */
  lemma CellScoreFloor(g: Grid, x: int, y: int)
    requires WellFormed(g)
    ensures CellScore(g, x, y) >= 18
  {
    BestLineRange(g, x, y, WHITE);
    BestLineRange(g, x, y, BLACK);
  }

  lemma {:induction false} BestUpToIsMax(g: Grid, col: int, row: int)
    requires WellFormed(g) && ScanPos(col, row)
    ensures forall x, y :: InBounds(x, y) && Precedes(x, y, col, row) && g[y][x] == EMPTY ==>
      CellScore(g, x, y) <= BestUpTo(g, col, row)
    ensures BestUpTo(g, col, row) == -1 <==>
      forall x, y :: InBounds(x, y) && Precedes(x, y, col, row) ==> g[y][x] != EMPTY
    ensures BestUpTo(g, col, row) != -1 ==>
      exists x, y :: InBounds(x, y) && Precedes(x, y, col, row) && g[y][x] == EMPTY && CellScore(g, x, y) == BestUpTo(g, col, row)
    decreases row, col
  {
    if col == 0 {
      if row > 0 {
        BestUpToIsMax(g, SIZE, row - 1);
      }
    } else {
      BestUpToIsMax(g, col - 1, row);
      CellScoreFloor(g, col - 1, row);
    }
  }

  /** No cell visited before (col, row) reaches a score above their best. */
  lemma {:induction false} TopAboveBest(g: Grid, col: int, row: int, s: int)
    requires WellFormed(g) && ScanPos(col, row) && s > BestUpTo(g, col, row)
    ensures TopUpTo(g, col, row, s) == []
    decreases row, col
  {
    if col == 0 {
      if row > 0 {
        TopAboveBest(g, SIZE, row - 1, s);
      }
    } else {
      assert BestUpTo(g, col, row) >= BestUpTo(g, col - 1, row);
      TopAboveBest(g, col - 1, row, s);
    }
  }

  /** The loop state of aiMove before column col of row row. */
  predicate Scanned(g: Grid, col: int, row: int, best: int, cands: seq<(int, int)>)
    requires WellFormed(g) && ScanPos(col, row)
  {
    best == BestUpTo(g, col, row) && cands == TopUpTo(g, col, row, best)
  }

  /** One visit of the double loop, at cell (x, y) with the score the loop
      computed for it. */
  lemma ScanStep(g: Grid, x: int, y: int, score: int, best: int, cands: seq<(int, int)>)
    requires WellFormed(g) && InBounds(x, y)
    requires Scanned(g, x, y, best, cands)
    requires g[y][x] == EMPTY ==> score == CellScore(g, x, y)
    ensures g[y][x] != EMPTY || score < best ==> Scanned(g, x + 1, y, best, cands)
    ensures g[y][x] == EMPTY && score == best ==> Scanned(g, x + 1, y, best, cands + [(x, y)])
    ensures g[y][x] == EMPTY && score > best ==> Scanned(g, x + 1, y, score, [(x, y)])
  {
    if g[y][x] == EMPTY && score > best {
      TopAboveBest(g, x, y, score);
    }
  }

  lemma {:induction false} TopUpToMembers(g: Grid, col: int, row: int, s: int)
    requires WellFormed(g) && ScanPos(col, row)
    ensures forall p :: p in TopUpTo(g, col, row, s) <==>
      InBounds(p.0, p.1) && Precedes(p.0, p.1, col, row) && g[p.1][p.0] == EMPTY && CellScore(g, p.0, p.1) == s
    decreases row, col
  {
    if col == 0 {
      if row > 0 {
        TopUpToMembers(g, SIZE, row - 1, s);
      }
    } else {
      TopUpToMembers(g, col - 1, row, s);
      var prev := TopUpTo(g, col - 1, row, s);
      var q := (col - 1, row);
      if g[row][col - 1] == EMPTY && CellScore(g, col - 1, row) == s {
        assert TopUpTo(g, col, row, s) == prev + [q];
      } else {
        assert TopUpTo(g, col, row, s) == prev;
      }
      forall p: (int, int) | InBounds(p.0, p.1)
        ensures Precedes(p.0, p.1, col, row) <==> Precedes(p.0, p.1, col - 1, row) || p == q
      {
      }
    }
  }

  lemma {:induction false} TopUpToRowMajor(g: Grid, col: int, row: int, s: int)
    requires WellFormed(g) && ScanPos(col, row)
    ensures forall i :: 0 <= i < |TopUpTo(g, col, row, s)| ==>
      Precedes(TopUpTo(g, col, row, s)[i].0, TopUpTo(g, col, row, s)[i].1, col, row)
    ensures forall i, j :: 0 <= i < j < |TopUpTo(g, col, row, s)| ==>
      Precedes(TopUpTo(g, col, row, s)[i].0, TopUpTo(g, col, row, s)[i].1,
               TopUpTo(g, col, row, s)[j].0, TopUpTo(g, col, row, s)[j].1)
    decreases row, col
  {
    if col == 0 {
      if row > 0 {
        TopUpToRowMajor(g, SIZE, row - 1, s);
      }
    } else {
      TopUpToRowMajor(g, col - 1, row, s);
      var prev := TopUpTo(g, col - 1, row, s);
      var t := TopUpTo(g, col, row, s);
      if g[row][col - 1] == EMPTY && CellScore(g, col - 1, row) == s {
        var p := (col - 1, row);
        assert t == prev + [p];
        forall i | 0 <= i < |t|
          ensures Precedes(t[i].0, t[i].1, col, row)
        {
          if i < |prev| {
            assert t[i] == prev[i];
          } else {
            assert t[i] == p;
          }
        }
        forall i, j | 0 <= i < j < |t|
          ensures Precedes(t[i].0, t[i].1, t[j].0, t[j].1)
        {
          assert t[i] == prev[i];
          if j < |prev| {
            assert t[j] == prev[j];
          } else {
            assert t[j] == p;
          }
        }
      } else {
        assert t == prev;
      }
    }
  }

  /** bestScore is the maximum score over the empty cells, and stays -1 only
      on a full board. */
  lemma BestScoreIsMax(g: Grid)
    requires WellFormed(g)
    ensures forall x, y :: InBounds(x, y) && g[y][x] == EMPTY ==> CellScore(g, x, y) <= BestScore(g)
    ensures BestScore(g) == -1 <==> Full(g)
    ensures !Full(g) ==> exists x, y :: InBounds(x, y) && g[y][x] == EMPTY && CellScore(g, x, y) == BestScore(g)
  {
    BestUpToIsMax(g, 0, SIZE);
  }

  /** The candidates are exactly the empty cells that reach bestScore, in
      row-major order, and there are none exactly when the board is full. */
  lemma CandidatesAreBestCells(g: Grid)
    requires WellFormed(g)
    ensures forall p :: p in Candidates(g) <==>
      InBounds(p.0, p.1) && g[p.1][p.0] == EMPTY && CellScore(g, p.0, p.1) == BestScore(g)
    ensures forall i, j :: 0 <= i < j < |Candidates(g)| ==>
      Precedes(Candidates(g)[i].0, Candidates(g)[i].1, Candidates(g)[j].0, Candidates(g)[j].1)
    ensures Candidates(g) == [] <==> Full(g)
  {
    TopUpToMembers(g, 0, SIZE, BestScore(g));
    TopUpToRowMajor(g, 0, SIZE, BestScore(g));
    BestScoreIsMax(g);
    if !Full(g) {
      var x, y :| InBounds(x, y) && g[y][x] == EMPTY && CellScore(g, x, y) == BestScore(g);
      assert (x, y) in Candidates(g);
    }
    if Candidates(g) != [] {
      var p := Candidates(g)[0];
      assert p in Candidates(g);
      assert g[p.1][p.0] == EMPTY;
    }
  }

  /** The part of CandidatesAreBestCells that aiMove relies on to place a
      stone: every candidate is an empty cell on the board. */
  lemma CandidatesAreEmptyCells(g: Grid)
    requires WellFormed(g)
    ensures forall p :: p in Candidates(g) ==> InBounds(p.0, p.1) && g[p.1][p.0] == EMPTY
    ensures Candidates(g) == [] <==> Full(g)
  {
    CandidatesAreBestCells(g);
  }

  lemma {:induction false} TopUpToSingle(g: Grid, x: int, y: int, col: int, row: int, s: int)
    requires WellFormed(g) && InBounds(x, y) && ScanPos(col, row)
    requires forall x', y' :: InBounds(x', y') && g[y'][x'] == EMPTY ==> x' == x && y' == y
    ensures TopUpTo(g, col, row, s) ==
      if Precedes(x, y, col, row) && g[y][x] == EMPTY && CellScore(g, x, y) == s then [(x, y)] else []
    decreases row, col
  {
    if col == 0 {
      if row > 0 {
        TopUpToSingle(g, x, y, SIZE, row - 1, s);
      }
    } else {
      TopUpToSingle(g, x, y, col - 1, row, s);
      if (col - 1, row) == (x, y) {
        assert TopUpTo(g, col - 1, row, s) == [];
      } else {
        assert g[row][col - 1] != EMPTY;
        assert TopUpTo(g, col, row, s) == TopUpTo(g, col - 1, row, s);
      }
    }
  }

  /** With exactly one empty cell, that cell is the only candidate. */
  lemma OnlyEmptyCellIsOnlyCandidate(g: Grid, x: int, y: int)
    requires WellFormed(g) && InBounds(x, y) && g[y][x] == EMPTY
    requires forall x', y' :: InBounds(x', y') && g[y'][x'] == EMPTY ==> x' == x && y' == y
    ensures Candidates(g) == [(x, y)]
  {
    BestScoreIsMax(g);
    assert !Full(g);
    assert BestScore(g) == CellScore(g, x, y);
    TopUpToSingle(g, x, y, 0, SIZE, BestScore(g));
  }

  /** If the computer can complete five somewhere, every candidate completes
      five, and playing it wins. */
  lemma CandidatesTakeWin(g: Grid, x: int, y: int)
    requires WellFormed(g) && InBounds(x, y) && g[y][x] == EMPTY
    requires BestLine(g, x, y, WHITE) >= WIN_LENGTH
    ensures Candidates(g) != []
    ensures forall p :: p in Candidates(g) ==>
      InBounds(p.0, p.1) && BestLine(g, p.0, p.1, WHITE) >= WIN_LENGTH && HasWin(Place(g, p.0, p.1, WHITE), p.0, p.1, WHITE)
  {
    BestScoreIsMax(g);
    CandidatesAreBestCells(g);
    assert CellScore(g, x, y) == 10000;
    forall p | p in Candidates(g)
      ensures BestLine(g, p.0, p.1, WHITE) >= WIN_LENGTH && HasWin(Place(g, p.0, p.1, WHITE), p.0, p.1, WHITE)
    {
      assert CellScore(g, p.0, p.1) == 10000;
      IgnoresOrigin(g, p.0, p.1, WHITE, WHITE);
      WinIffLongLine(g, p.0, p.1, WHITE);
    }
  }

  /** If the computer cannot complete five anywhere but the player could,
      every candidate is a cell where the player would complete five. */
  lemma CandidatesBlockWin(g: Grid, x: int, y: int)
    requires WellFormed(g)
    requires forall x', y' :: InBounds(x', y') && g[y'][x'] == EMPTY ==> BestLine(g, x', y', WHITE) < WIN_LENGTH
    requires InBounds(x, y) && g[y][x] == EMPTY && BestLine(g, x, y, BLACK) >= WIN_LENGTH
    ensures Candidates(g) != []
    ensures forall p :: p in Candidates(g) ==> BestLine(g, p.0, p.1, BLACK) >= WIN_LENGTH
  {
    BestScoreIsMax(g);
    CandidatesAreBestCells(g);
    assert CellScore(g, x, y) == 9000;
    var best := BestScore(g);
    assert best >= 9000;
    var x', y' :| InBounds(x', y') && g[y'][x'] == EMPTY && CellScore(g, x', y') == best;
    assert best <= 9000;
  }
}
