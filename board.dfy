/** The playing field of the omok game: a fixed 15x15 grid of cells, indexed
    board[y][x] (row y, column x). A cell holds 0 (empty), 1 (the human's black
    stone) or 2 (the computer's white stone). */
module Board {

  const SIZE: int := 15

  const EMPTY: int := 0
  const BLACK: int := 1  // the human player, who moves first
  const WHITE: int := 2  // the computer player

  /** The board as a value: SIZE rows of SIZE cells. */
  type Grid = seq<seq<int>>

  predicate WellFormed(g: Grid) {
    |g| == SIZE && forall y :: 0 <= y < SIZE ==> |g[y]| == SIZE
  }

  predicate InBounds(x: int, y: int) {
    0 <= x < SIZE && 0 <= y < SIZE
  }

  /** (x, y) lies on the board and holds colour c: exactly the cells at which a
      line scan does not stop. */
  predicate Holds(g: Grid, x: int, y: int, c: int)
    requires WellFormed(g)
  {
    InBounds(x, y) && g[y][x] == c
  }

  /** No empty cell remains. */
  predicate Full(g: Grid)
    requires WellFormed(g)
  {
    forall x, y :: 0 <= x < SIZE && 0 <= y < SIZE ==> g[y][x] != EMPTY
  }

  /** The grid with cell (x, y) set to c and every other cell as before. */
  function Place(g: Grid, x: int, y: int, c: int): (h: Grid)
    requires WellFormed(g) && InBounds(x, y)
    ensures WellFormed(h)
    ensures h[y][x] == c
    ensures forall y', x' :: InBounds(x', y') && (x', y') != (x, y) ==> h[y'][x'] == g[y'][x']
  {
    g[y := g[y][x := c]]
  }

  /** The board at the start of a game and after a restart. */
  function EmptyGrid(): (g: Grid)
    ensures WellFormed(g)
    ensures forall y, x :: InBounds(x, y) ==> g[y][x] == EMPTY
  {
    seq(SIZE, _ => seq(SIZE, _ => EMPTY))
  }
}
