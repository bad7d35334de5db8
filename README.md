# Tic-tac-toe rules of the React tutorial game, in Dafny

This project models the rules in `src/App.js`. That file is the tic-tac-toe game
from the React tutorial, with the two players shown as an angry face (the first
player, `X` here) and a smiling face (the second player, `O`). The model covers
four parts:

- **Win evaluation.** `calculateWinner` scans a fixed table of eight lines in
  order: the three rows, the three columns, then the two diagonals. It returns
  the mark of the first line whose three squares are equal and non-empty, or
  `null`. `WinCheck.Winner` gives that answer as a function over the table.
  `WinCheck.CalculateWinner` is the source's `for` loop with its early return,
  proved to return the same answer.
- **The board's click.** `Board.HandleClick` is `handleClick(i)`. It ignores a
  click on a filled square, or on a grid that already has a winner (`None`).
  Otherwise it returns the copied grid with the mover's mark in square `i`.
  `Board.Status` is the status line: `"Winner: "` plus the winner's mark, or
  `"Next player: "` plus the mark of the player to move.
- **The game controller.** `GameState.Game` is a class with the two pieces of
  state of `Game`: `history` (a sequence of grids) and `currentMove` (an index
  into it). `HandlePlay` keeps the steps up to the one on display, appends the
  new grid and displays it. Playing after going back therefore discards the old
  later steps. `JumpTo` moves only the index. `Click` is a click on the board
  while the controller shows it: `HandleClick`'s result is handed to
  `HandlePlay`, as `onPlay` does. `xIsNext` holds exactly on even steps.
- **Reachable games.** `LegalHistory` describes the histories the game can
  build. `Click` and `JumpTo` keep a history legal. On a legal history:
  - step `k` holds `(k+1)/2` first-player marks and `k/2` second-player marks;
  - a history has at most ten grids;
  - each step fills exactly one empty square, with the mark of the player to move;
  - all uniform lines of a reachable grid hold the same mark, so the scan order
    never changes the winner there.

Three end-to-end games are played through the controller in `Scenarios`:
opening in the centre, a top-row win, and a rewind followed by a new branch.

## Model

| member | source | states |
|---|---|---|
| Grids.Glyph | src/App.js:30-35 | only the empty square is displayed as nothing; the two players' marks are the two face glyphs |
| Grids.GlyphInjective | src/App.js:44-46 | the two players' glyphs differ, so a displayed mark names one player |
| WinCheck.LinesAreRowsColumnsDiagonals | src/App.js:117-126 | the table has eight lines: rows 0..2, then columns 0..2, then the diagonals {0,4,8} and {2,4,6} |
| WinCheck.Uniform | src/App.js:129 | testing the first square for a mark and the other two for equality with it means all three squares hold the same non-empty mark |
| WinCheck.Winner | src/App.js:114-134 | calculateWinner's result: never the empty mark; a mark returned fills some line of the table; null exactly when no line is uniform |
| WinCheck.WinnerFrom | src/App.js:127-133 | the scan never reports the empty mark as a winner |
| WinCheck.CalculateWinner | src/App.js:114-134 | the loop with its early return yields exactly the table scan's answer |
| WinCheck.WinnerFromFirst | src/App.js:127-131 | scanning from position i returns the mark of the first uniform line at or after i |
| WinCheck.WinnerFromNone | src/App.js:127-133 | scanning from position i gives null iff no line at or after i is uniform |
| WinCheck.WinnerFromSound | src/App.js:127-131 | a mark returned by the scan from i fills a uniform line at or after i, and no line between i and it is uniform |
| WinCheck.WinnerSound | src/App.js:127-131 | a non-null winner is non-empty and fills the first uniform line of the table |
| WinCheck.WinnerIsFirstUniformLine | src/App.js:117-131 | when several lines are uniform, the first one in table order decides the winner |
| WinCheck.WinnerNoneIff | src/App.js:127-133 | the result is null exactly when no line of the table is uniform |
| WinCheck.EmptyGridNoWinner | src/App.js:127-133 | the all-empty starting grid has no winner |
| Board.ActiveMark | src/App.js:30-35 | the mark written is non-empty, and it is the first player's exactly when xIsNext |
| Board.HandleClick | src/App.js:24-38 | the click is ignored iff the square is filled or the grid has a winner; otherwise square i gets the mover's mark and every other square is unchanged |
| Board.HandleClickUndo | src/App.js:29-36 | clearing square i of the new grid gives back the clicked grid |
| Board.HandleClickCounts | src/App.js:29-36 | a move adds one mark for the mover, removes one empty square and leaves the other player's count unchanged |
| Board.Status | src/App.js:41-47 | with a winner the status is "Winner: " followed by the winner's glyph; otherwise "Next player: " followed by the glyph of the player to move, so a full grid with no winner still shows "Next player: " |
| Board.StatusDetermines | src/App.js:41-47 | equal status lines mean the same winner, and, with no winner, the same player to move |
| GameState.Game.constructor | src/App.js:73-74 | a new game has one empty grid on display, and that history is legal |
| GameState.XIsNextAt | src/App.js:75 | the first player is to move on step 0: the first player opens the game |
| GameState.XIsNextAlternates | src/App.js:75 | the player to move at step k + 1 is the other one from step k, so the turn passes on every step |
| GameState.Game.CurrentSquares | src/App.js:76 | the displayed grid is one of the grids in history, never a new one |
| GameState.Game.DisplayedCounts | src/App.js:75-76 | on a legal history the grid on display has 9 - currentMove empty squares, and xIsNext holds exactly when both players have as many marks on it |
| GameState.Game.HandlePlay | src/App.js:78-82 | history becomes the old steps 0..currentMove followed by the new grid; the index is the new last one, old index + 1; history stays non-empty with the index in range |
| GameState.Game.JumpTo | src/App.js:84-86 | only the index changes, to the requested step; history, its legality, non-emptiness and range are kept |
| GameState.Game.Click | src/App.js:24-36 | a click on the displayed grid either changes nothing or appends HandleClick's grid after the displayed step, advancing the index; legality is kept |
| GameState.LegalExtend | src/App.js:78-82 | truncating a legal history after the displayed step and appending a successful click keeps it legal |
| GameState.TurnCounts | src/App.js:75-81 | the grid at step k holds (k+1)/2 first-player marks, k/2 second-player marks and 9-k empty squares |
| GameState.StepCounts | src/App.js:29-36 | a click at step k turns the first and second players' mark counts of step k into those of step k+1 |
| GameState.XIsNextIffBalanced | src/App.js:75 | xIsNext holds on a step exactly when both players have the same number of marks on its grid |
| GameState.HistoryBounded | src/App.js:78-82 | a legal history has at most ten grids |
| GameState.OneSquarePerStep | src/App.js:29-36 | each grid after the first differs from its predecessor in exactly one square, which was empty and now holds the mark of the player whose turn it was |
| GameState.SingleWinningMark | src/App.js:25-28 | on a reachable grid every uniform line holds the same mark, because no move is allowed once a line is uniform |
| GameState.WinnerOrderIrrelevant | src/App.js:117-131 | on a reachable grid the winner's mark fills every uniform line, not only the first one scanned |
| Scenarios.OpenInCentre | src/App.js:72-86 | one move in the centre gives two grids, the second on display, and the status "Next player: " with the second player's glyph |
| Scenarios.TopRowWin | src/App.js:24-47 | moves 0,3,1,4,2 give the status "Winner: " with the first player's glyph, and a further click is ignored |
| Scenarios.RewindAndBranch | src/App.js:78-86 | after three moves, jumping to step 1 and playing a new square leaves three grids and discards the old third move |

## Left out

- Rendering is not modelled: the JSX, the `Square` component, the board-row layout and the `<ol>` of history buttons. None of it holds rules.
- The move-list labels ("A New Game !", "Go to move #k") are UI text. The source's first label has a space before the `!`.
- React's `useState` is modelled as plain field assignments. Batched or asynchronous updates and re-rendering are framework behaviour outside this file.
- The `onPlay` and `onSquareClick` callbacks are not modelled. `Board.HandleClick` returns the new grid (or `None` for the early return). `GameState.Game.Click` hands that grid to `HandlePlay`.
- Board.HandleClick: square indices are limited to 0..8, the only ones the board binds. The source would grow the array if given an index past 8.
- GameState.Game.JumpTo: requires an index within the history. The source does not check, but the move list only offers existing steps.
- GameState.Game.HandlePlay accepts any nine-square grid, as the source does. Only grids that come from `HandleClick` (through `Click`) are shown to keep a history legal.
- Board.Status: strings are sequences of Unicode code points, so each face glyph has length 1. JavaScript counts UTF-16 units, where each face has length 2; the stated status lengths are in code points.
- JavaScript truthiness is modelled by its effect here: `null` is `Empty` (a falsy square), and both face glyphs are truthy marks.
- The source has no draw detection, and none is added. A full grid with no winner still shows "Next player: ".
