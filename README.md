# Omok (five in a row) game logic, modelled in Dafny

`script.js` is a browser Omok game on a 15x15 board. The human plays black
(1), the computer plays white (2), and 0 marks an empty cell. The script keeps
three globals: the board `board[y][x]`, `turn` and `gameOver`. On top of them
it has:

- `checkWin`: does the stone just played make a line of five or more?
- `evaluate`: the longest line a stone at a cell would make;
- the click handler, where the human plays;
- `aiMove`: the computer scores every empty cell with a fixed rule ladder,
  then plays one of the best cells at random;
- the restart handler.

The project follows that structure:

- `board.dfy` (module `Board`): the constants and the board as a value (`Grid`).
- `line_scanner.dfy` (module `LineScanner`): the line scan shared by
  `checkWin` and `evaluate`, as functions. It also has lemmas tying the scan to
  an independent description: a run of stones of one colour that stops at the
  edge of the board, at a cell that does not hold the colour (empty or the
  other colour), or after four steps.
- `policy.dfy` (module `Policy`): the rule ladder and the double loop of
  `aiMove`, as functions over the row-major scan position. The lemmas state:
  - the best score is the maximum;
  - the candidates are exactly the empty cells that reach it, in row-major
    order;
  - a winning cell is always taken, and a cell where the human would win is
    always blocked.
- `game.dfy` (module `Game`): the game state as a class and the handlers as
  methods.
  - The board is an `array2<int>` that the methods update in place, as the
    script updates its array.
  - A ghost field `cells` mirrors the array as a `Grid`. The methods'
    contracts relate it to the functions above.
  - The loops of `checkWin`, `evaluate`, `aiMove` and the restart handler are
    `while` loops. Their invariants tie the loops to those functions.

## Model

| member | source | states |
|---|---|---|
| Board.Place | script.js:130 | placing a stone sets that one cell and leaves every other cell of the board as it was |
| Board.EmptyGrid | script.js:3 | the initial board is 15x15 with every cell empty |
| LineScanner.ArmFrom | script.js:51-63 | the stones counted by the step loop from step d on: stop at the edge, at a cell without the colour, or after step 4 |
| LineScanner.Arm | script.js:51-63 | one arm of the scan, from step 1; its meaning is stated by ArmIsRun and ArmBound |
| LineScanner.AxisCount | script.js:92-117 | `count` for one axis: the origin plus the forward and the backward arm |
| LineScanner.MaxAxisUpTo | script.js:84-119 | `maxCount` after the first k axes, starting from 0 |
| LineScanner.BestLine | script.js:82-122 | what evaluate returns; its meaning is stated by BestLineIsMax and BestLineRange |
| LineScanner.HasWin | script.js:42-80 | what checkWin returns: some axis count reaches five; tied to evaluate by WinIffLongLine |
| LineScanner.ArmFromIsRun | script.js:51-63 | the n steps counted from step d on all hold the colour, none past step 4 is counted, and the next step does not hold the colour unless step 4 was reached |
| LineScanner.MaxAxisUpToIsMax | script.js:84-119 | the running maximum after k axes bounds each of those axis counts, equals one of them, and is 0 before any axis |
| LineScanner.ArmIsRun | script.js:51-63 | an arm counted by the step loop has length n exactly when the n cells past the origin hold the colour and the scan then stops: at the edge, at a cell that does not hold the colour (empty or the other colour), or after four steps |
| LineScanner.ArmBound | script.js:51 | an arm never counts more than four stones, the bound of `d < 5` |
| LineScanner.ArmAtLeast | script.js:51-63 | k stones of the colour right past the origin give an arm of at least k |
| LineScanner.AxisCountRange | script.js:92-117 | each axis count (origin plus both arms) is between 1 and 9 |
| LineScanner.BestLineIsMax | script.js:119 | evaluate's result is at least every axis count and equal to one of them |
| LineScanner.BestLineRange | script.js:82-122 | evaluate always returns a value from 1 to 9 |
| LineScanner.WinIffLongLine | script.js:42-80 | checkWin(x, y, c) holds exactly when evaluate(x, y, c) is at least 5 |
| LineScanner.ArmFromIgnoresOrigin | script.js:51-63 | the arm scans start at d = 1, so what the origin cell holds does not change an arm |
| LineScanner.AxisIgnoresOrigin | script.js:50-76 | the count along one axis does not depend on the origin cell |
| LineScanner.IgnoresOrigin | script.js:42-122 | evaluate and checkWin give the same answer whatever the origin holds, so scoring an empty cell equals checking the stone once placed |
| LineScanner.LoneStone | script.js:82-122 | a stone with no other stone of its colour on the board has line length 1 and does not win |
| LineScanner.FiveInRowWins | script.js:42-80 | five stones in a row along an axis through the origin, split in any way between the two arms, make checkWin true and evaluate at least 5 |
| Policy.Score | script.js:151-157 | the rule ladder, with the first matching rule deciding the score; its ranking is stated by ScoreLadder |
| Policy.CellScore | script.js:149-157 | the score aiMove gives a cell: both evaluations fed to the ladder |
| Policy.BestUpTo | script.js:144-165 | bestScore after the double loop reaches a given column of a given row; its meaning is stated by BestUpToIsMax |
| Policy.TopUpTo | script.js:145-163 | the candidates with a given score after the loop reaches a given position; its meaning is stated by TopUpToMembers and TopUpToRowMajor |
| Policy.BestScore | script.js:144-165 | bestScore at the end of the double loop; its meaning is stated by BestScoreIsMax |
| Policy.Candidates | script.js:144-165 | the candidate list at the end of the double loop; its meaning is stated by CandidatesAreBestCells |
| Policy.ScoreLadder | script.js:151-157 | the score is 10000 exactly when the computer completes five; it is 9000 exactly when the computer does not but the human would; these two top every other rule; every cell scores at least 18, since both evaluations are at least 1 |
| Policy.CellScoreFloor | script.js:149-157 | every empty cell scores at least 18, above the initial bestScore of -1 |
| Policy.BestUpToIsMax | script.js:144-165 | after any prefix of the row-major scan, bestScore bounds every empty cell seen so far and is reached by one of them, or is still -1 when no empty cell has been seen |
| Policy.TopAboveBest | script.js:158-163 | no cell scanned so far reaches a score above the running best |
| Policy.ScanStep | script.js:148-163 | one step of the inner loop: skip an occupied cell, restart the candidates at a new best, append at a tie, keep them below the best |
| Policy.TopUpToMembers | script.js:158-163 | after any prefix of the scan, the candidates for a score are exactly the empty scanned cells with that score |
| Policy.TopUpToRowMajor | script.js:146-147 | the candidates lie inside the scanned prefix, in strictly increasing row-major order |
| Policy.BestScoreIsMax | script.js:144-165 | bestScore is the maximum score over the empty cells and is -1 exactly on a full board |
| Policy.CandidatesAreBestCells | script.js:144-165 | the candidates are exactly the empty cells that reach bestScore, in row-major order without repeats, and there are none exactly when the board is full |
| Policy.CandidatesAreEmptyCells | script.js:148 | every candidate is an empty cell on the board |
| Policy.TopUpToSingle | script.js:146-163 | with one empty cell, the scan collects that cell exactly when it is in the prefix and has the given score |
| Policy.OnlyEmptyCellIsOnlyCandidate | script.js:144-165 | with exactly one empty cell left, that cell is the only candidate |
| Policy.CandidatesTakeWin | script.js:151 | if the computer can complete five anywhere, every candidate completes five and playing it wins |
| Policy.CandidatesBlockWin | script.js:152 | if the computer cannot complete five but the human could, every candidate is a cell where the human would complete five |
| Game.ClickAccepted | script.js:125-129 | the click handler goes on only while the game is not over, it is black's turn, and the cell is on the board and empty |
| Game.Game.constructor | script.js:3-5 | a new game has an empty 15x15 board, black to move, not over |
| Game.Game.ScanArm | script.js:51-63 | the step loop returns the arm length of the scan, at most four |
| Game.Game.Evaluate | script.js:82-122 | the loop over the four axes returns the longest line through the cell, between 1 and 9 |
| Game.Game.CheckWin | script.js:42-80 | the loop returns true exactly when some axis count reaches five, that is, when evaluate would be at least five |
| Game.Game.ScoreCell | script.js:149-157 | the two evaluations fed to the ladder give the cell's score |
| Game.Game.ScanCandidates | script.js:144-165 | the double loop ends with the best score and the list of best empty cells in row-major order; there are none exactly when the board is full |
| Game.Game.Click | script.js:124-139 | a click is accepted only while the game runs, on black's turn, on an empty cell on the board; otherwise nothing changes. Accepted, it places black there, ends the game if that wins, and otherwise hands the turn to white |
| Game.Game.AiMove | script.js:142-181 | a finished game is left alone; a full board ends the game as a draw; otherwise a best empty cell is played (chosen by `pick`), the game ends if it wins, and otherwise black is to move |
| Game.Game.AiMoveOnTurn | script.js:142-143 | as AiMove when white is to move, and no change at all otherwise |
| Game.Game.Restart | script.js:183-186 | every cell is emptied in place, black is to move and the game is running |
| Game.OpeningReply | script.js:171-180 | the computer's reply on an empty board is a cell on the board and does not win |
| Game.RestartRace | script.js:137-143 | click (7, 7), restart, then the pending aiMove fires: black is to move on a running game, yet a white stone is on the board |
| Game.RestartRaceOnTurn | script.js:183-186 | the same sequence with the turn-guarded reply leaves the board empty with black to move |

## Left out

- Drawing the grid and the stones (script.js:12-40 and every `drawBoard()` call) is not modelled: it only renders the board.
- The DOM lookups and the status messages (script.js:7-10 and the `message.textContent` lines) are not modelled: they are display text.
- The conversion from pointer coordinates to a cell (script.js:126-128) is not modelled: `Game.Game.Click` receives the cell, and every cell outside the board is rejected exactly as at line 129.
- The 500 ms delay of `setTimeout` (script.js:139) is not modelled: the computer's reply is the separate call `Game.Game.AiMove`, made whenever the caller chooses, which is how a restart can fall in between.
- Math.random (script.js:171) becomes the parameter `pick`; the candidate taken is `pick % |candidates|`. Whether the choice is uniform is not modelled.
- JavaScript numbers are doubles; every value the script computes is a small integer, so they are modelled as `int`.

## Findings

| source | as written | input that shows it | evidently intended | confidence | as-written member | corrected member |
|---|---|---|---|---|---|---|
| script.js:139-143 | the click handler queues `aiMove` for 500 ms later, and `aiMove` checks only `gameOver`, so a restart in between does not cancel the reply | click cell (7, 7), press restart before 500 ms have passed: the stale reply places a white stone on the fresh board while black is to move | a reply left pending across a restart does nothing | medium; not executed | Game.RestartRace | Game.Game.AiMoveOnTurn |
