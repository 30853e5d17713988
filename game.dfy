/** The game state of script.js and the handlers that change it: the 15x15
    board, mutated in place, whose turn it is, and whether the game is over. */
module Game {
  import opened Board
  import opened LineScanner
  import opened Policy

  /** The conditions under which the click handler places a black stone:
      the game is running, it is the human's turn, and (x, y) is an empty
      cell on the board. */
  predicate ClickAccepted(over: bool, turn: int, g: Grid, x: int, y: int)
    requires WellFormed(g)
  {
    !over && turn == BLACK && InBounds(x, y) && g[y][x] == EMPTY
  }

  class Game {
    const board: array2<int>
    var turn: int
    var gameOver: bool

    /** The board as a value, kept equal to the array by every method. */
    ghost var cells: Grid

    ghost predicate Valid()
      reads this, board
    {
      && board.Length0 == SIZE && board.Length1 == SIZE
      && WellFormed(cells)
      && (forall y, x :: 0 <= y < SIZE && 0 <= x < SIZE ==> cells[y][x] == board[y, x])
      && (forall y, x :: 0 <= y < SIZE && 0 <= x < SIZE ==> EMPTY <= cells[y][x] <= WHITE)
      && (turn == BLACK || turn == WHITE)
    }

    /** The state the script starts in: an empty board, black to move. */
    constructor ()
      ensures Valid() && fresh(board)
      ensures cells == EmptyGrid() && turn == BLACK && !gameOver
    {
      board := new int[SIZE, SIZE]((_, _) => EMPTY);
      cells := EmptyGrid();
      turn := BLACK;
      gameOver := false;
    }

    /** One arm of a line scan: the stones of `color` counted from (x, y) in
        direction (dx, dy), stopping at the edge of the board, at a cell not
        of that colour, or after REACH cells. */
    method ScanArm(x: int, y: int, dx: int, dy: int, color: int) returns (n: nat)
      requires Valid()
      ensures n == Arm(cells, x, y, dx, dy, color)
      ensures n <= REACH
    {
      ghost var g := cells;
      n := 0;
      var d := 1;
      while d < REACH + 1
        invariant 1 <= d <= REACH + 1 && n == d - 1
        invariant Arm(g, x, y, dx, dy, color) == n + ArmFrom(g, x, y, dx, dy, color, d)
      {
        var nx, ny := x + dx * d, y + dy * d;
        if nx < 0 || ny < 0 || nx >= SIZE || ny >= SIZE || board[ny, nx] != color {
          break;
        }
        n := n + 1;
        d := d + 1;
      }
      ArmBound(g, x, y, dx, dy, color);
    }

    /** evaluate: the longest line of `color` through (x, y), counting
        (x, y) as if it held `color`. */
    method Evaluate(x: int, y: int, color: int) returns (maxCount: int)
      requires Valid()
      ensures maxCount == BestLine(cells, x, y, color)
      ensures 1 <= maxCount <= 1 + 2 * REACH
    {
      ghost var g := cells;
      maxCount := 0;
      var i := 0;
      while i < |Dirs|
        invariant 0 <= i <= |Dirs|
        invariant maxCount == MaxAxisUpTo(g, x, y, color, i)
      {
        var forward := ScanArm(x, y, Dirs[i].0, Dirs[i].1, color);
        var backward := ScanArm(x, y, -Dirs[i].0, -Dirs[i].1, color);
        var count := 1 + forward + backward;
        assert count == AxisCount(g, x, y, color, i);
        if count > maxCount {
          maxCount := count;
        }
        i := i + 1;
      }
      BestLineRange(g, x, y, color);
    }

    /** checkWin: some axis through (x, y) has five or more stones of
        `color`, counting (x, y) as if it held `color`. */
    method CheckWin(x: int, y: int, color: int) returns (win: bool)
      requires Valid()
      ensures win == HasWin(cells, x, y, color)
      ensures win <==> BestLine(cells, x, y, color) >= WIN_LENGTH
    {
      ghost var g := cells;
      WinIffLongLine(g, x, y, color);
      var i := 0;
      while i < |Dirs|
        invariant 0 <= i <= |Dirs|
        invariant forall j :: 0 <= j < i ==> AxisCount(g, x, y, color, j) < WIN_LENGTH
      {
        var forward := ScanArm(x, y, Dirs[i].0, Dirs[i].1, color);
        var backward := ScanArm(x, y, -Dirs[i].0, -Dirs[i].1, color);
        assert 1 + forward + backward == AxisCount(g, x, y, color, i);
        if 1 + forward + backward >= WIN_LENGTH {
          return true;
        }
        i := i + 1;
      }
      return false;
    }

    /** The score aiMove gives the empty cell (x, y): both evaluations fed
        to the rule ladder. */
    method ScoreCell(x: int, y: int) returns (score: int)
      requires Valid()
      ensures score == CellScore(cells, x, y)
    {
      var aiScore := Evaluate(x, y, WHITE);
      var playerScore := Evaluate(x, y, BLACK);
      score := Score(aiScore, playerScore);
    }

    /** The double loop of aiMove: the best score over the empty cells and
        the empty cells that reach it, in row-major order. */
    method ScanCandidates() returns (bestScore: int, candidates: seq<(int, int)>)
      requires Valid()
      ensures bestScore == BestScore(cells)
      ensures candidates == Candidates(cells)
      ensures forall p :: p in candidates ==> InBounds(p.0, p.1) && board[p.1, p.0] == EMPTY
      ensures candidates == [] <==> Full(cells)
    {
      ghost var g := cells;
      bestScore := -1;
      candidates := [];
      var y := 0;
      while y < SIZE
        invariant 0 <= y <= SIZE
        invariant Scanned(g, 0, y, bestScore, candidates)
      {
        var x := 0;
        while x < SIZE
          invariant 0 <= x <= SIZE
          invariant Scanned(g, x, y, bestScore, candidates)
        {
          if board[y, x] == EMPTY {
            var score := ScoreCell(x, y);
            ScanStep(g, x, y, score, bestScore, candidates);
            if score > bestScore {
              bestScore := score;
              candidates := [(x, y)];
            } else if score == bestScore {
              candidates := candidates + [(x, y)];
            }
          } else {
            ScanStep(g, x, y, bestScore, bestScore, candidates);
          }
          x := x + 1;
        }
        y := y + 1;
      }
      CandidatesAreEmptyCells(g);
    }

    /** The click handler, given the cell already mapped from the pointer. */
    method Click(x: int, y: int)
      requires Valid()
      modifies this, board
      ensures Valid()
      ensures !ClickAccepted(old(gameOver), old(turn), old(cells), x, y) ==>
        cells == old(cells) && turn == old(turn) && gameOver == old(gameOver)
      ensures ClickAccepted(old(gameOver), old(turn), old(cells), x, y) ==>
        && cells == Place(old(cells), x, y, BLACK)
        && gameOver == HasWin(cells, x, y, BLACK)
        && turn == (if gameOver then BLACK else WHITE)
    {
      if gameOver || turn != BLACK {
        return;
      }
      if x < 0 || y < 0 || x >= SIZE || y >= SIZE || board[y, x] != EMPTY {
        return;
      }
      board[y, x] := BLACK;
      cells := Place(cells, x, y, BLACK);
      var win := CheckWin(x, y, BLACK);
      if win {
        gameOver := true;
        return;
      }
      turn := WHITE;
    }

    /** aiMove, with the index drawn by Math.random given as `pick` (any
        natural number; the candidate taken is pick mod the number of
        candidates). It runs whenever the game is not over. */
    method AiMove(pick: nat)
      requires Valid()
      modifies this, board
      ensures Valid()
      ensures old(gameOver) ==> cells == old(cells) && turn == old(turn) && gameOver
      ensures !old(gameOver) && Full(old(cells)) ==>
        cells == old(cells) && turn == old(turn) && gameOver
      ensures !old(gameOver) && !Full(old(cells)) ==>
        var cs := Candidates(old(cells));
        && cs != []
        && var p := cs[pick % |cs|];
        && InBounds(p.0, p.1) && old(cells)[p.1][p.0] == EMPTY
        && cells == Place(old(cells), p.0, p.1, WHITE)
        && gameOver == HasWin(cells, p.0, p.1, WHITE)
        && turn == (if gameOver then old(turn) else BLACK)
    {
      if gameOver {
        return;
      }
      var bestScore, candidates := ScanCandidates();
      if |candidates| == 0 {
        gameOver := true;
        return;
      }
      var (x, y) := candidates[pick % |candidates|];
      assert (x, y) in candidates;
      board[y, x] := WHITE;
      cells := Place(cells, x, y, WHITE);
      var win := CheckWin(x, y, WHITE);
      if win {
        gameOver := true;
        return;
      }
      turn := BLACK;
    }

    /** aiMove guarded also by whose turn it is. The click handler hands the
        turn to the computer before it queues aiMove, so in a running game
        this behaves as AiMove; a call left pending across a restart, which
        gives the turn back to the human, does nothing. */
    method AiMoveOnTurn(pick: nat)
      requires Valid()
      modifies this, board
      ensures Valid()
      ensures old(turn) != WHITE ==>
        cells == old(cells) && turn == old(turn) && gameOver == old(gameOver)
      ensures old(turn) == WHITE && old(gameOver) ==>
        cells == old(cells) && turn == old(turn) && gameOver
      ensures old(turn) == WHITE && !old(gameOver) && Full(old(cells)) ==>
        cells == old(cells) && turn == old(turn) && gameOver
      ensures old(turn) == WHITE && !old(gameOver) && !Full(old(cells)) ==>
        var cs := Candidates(old(cells));
        && cs != []
        && var p := cs[pick % |cs|];
        && InBounds(p.0, p.1) && old(cells)[p.1][p.0] == EMPTY
        && cells == Place(old(cells), p.0, p.1, WHITE)
        && gameOver == HasWin(cells, p.0, p.1, WHITE)
        && turn == (if gameOver then WHITE else BLACK)
    {
      if turn != WHITE {
        return;
      }
      AiMove(pick);
    }

    /** The restart button: every cell emptied in place, black to move. */
    method Restart()
      requires Valid()
      modifies this, board
      ensures Valid()
      ensures cells == EmptyGrid() && turn == BLACK && !gameOver
    {
      var y := 0;
      while y < SIZE
        modifies board
        invariant 0 <= y <= SIZE
        invariant forall y', x' :: 0 <= y' < y && 0 <= x' < SIZE ==> board[y', x'] == EMPTY
      {
        var x := 0;
        while x < SIZE
          modifies board
          invariant 0 <= x <= SIZE
          invariant forall y', x' :: 0 <= y' < y && 0 <= x' < SIZE ==> board[y', x'] == EMPTY
          invariant forall x' :: 0 <= x' < x ==> board[y, x'] == EMPTY
        {
          board[y, x] := EMPTY;
          x := x + 1;
        }
        y := y + 1;
      }
      cells := EmptyGrid();
      turn := BLACK;
      gameOver := false;
    }
  }

  /** The stone played by the computer's reply to the opening click at
      (7, 7), when the reply fires only after a restart: the board it plays
      on is empty, so the reply is the only stone and no win. */
  lemma OpeningReply(pick: nat)
    ensures var cs := Candidates(EmptyGrid());
      && cs != []
      && var p := cs[pick % |cs|];
      && InBounds(p.0, p.1)
      && !HasWin(Place(EmptyGrid(), p.0, p.1, WHITE), p.0, p.1, WHITE)
  {
    var e := EmptyGrid();
    assert e[0][0] == EMPTY;
    CandidatesAreEmptyCells(e);
    var cs := Candidates(e);
    var p := cs[pick % |cs|];
    assert p in cs;
    LoneStone(Place(e, p.0, p.1, WHITE), p.0, p.1, WHITE);
  }

  /** A restart while the computer's reply is pending. script.js queues
      aiMove half a second after the human's click, and aiMove checks only
      gameOver, so the stale reply places a white stone on the fresh board
      while the human is to move. */
  method RestartRace(pick: nat) returns (game: Game)
    ensures game.Valid() && game.turn == BLACK && !game.gameOver
    ensures exists x, y :: InBounds(x, y) && game.board[y, x] == WHITE
  {
    game := new Game();
    game.Click(7, 7);
    game.Restart();
    OpeningReply(pick);
    game.AiMove(pick);
    var cs := Candidates(EmptyGrid());
    var p := cs[pick % |cs|];
    assert game.board[p.1, p.0] == WHITE;
  }

  /** The same sequence with the turn-guarded reply: the board stays empty
      and the human is to move. */
  method RestartRaceOnTurn(pick: nat) returns (game: Game)
    ensures game.Valid() && game.turn == BLACK && !game.gameOver
    ensures forall x, y :: InBounds(x, y) ==> game.board[y, x] == EMPTY
  {
    game := new Game();
    game.Click(7, 7);
    game.Restart();
    game.AiMoveOnTurn(pick);
  }
}
