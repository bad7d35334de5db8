/** Three complete games played through the controller, each stating the
    state the controller ends in. */
module Scenarios {
  import opened Grids
  import opened WinCheck
  import opened Board
  import opened GameState

  /** The first player opens in the centre: two grids, the second on display,
      and the second player is to move. */
  method OpenInCentre() returns (history: seq<Grid>, currentMove: nat, status: string)
    ensures |history| == 2 && currentMove == 1
    ensures history[1] == EmptyGrid[4 := X]
    ensures status == NextPlayerPrefix + Glyph(O)
  {
    var game := new Game();
    var played := game.Click(4);
    history, currentMove := game.history, game.currentMove;
    WinnerNoneIff(game.CurrentSquares());
    status := Status(game.CurrentSquares(), XIsNextAt(game.currentMove));
  }

  /** The first player fills the top row (moves 0, 3, 1, 4, 2): the status
      names the winner and a further click is ignored. */
  method TopRowWin() returns (status: string, playedAfterWin: bool, historyLength: nat)
    ensures status == WinnerPrefix + Glyph(X)
    ensures !playedAfterWin && historyLength == 6
  {
    var game := new Game();
    var played := game.Click(0);
    assert game.CurrentSquares() == [X, Empty, Empty, Empty, Empty, Empty, Empty, Empty, Empty];
    WinnerNoneIff(game.CurrentSquares());
    played := game.Click(3);
    assert game.CurrentSquares() == [X, Empty, Empty, O, Empty, Empty, Empty, Empty, Empty];
    WinnerNoneIff(game.CurrentSquares());
    played := game.Click(1);
    assert game.CurrentSquares() == [X, X, Empty, O, Empty, Empty, Empty, Empty, Empty];
    WinnerNoneIff(game.CurrentSquares());
    played := game.Click(4);
    assert game.CurrentSquares() == [X, X, Empty, O, O, Empty, Empty, Empty, Empty];
    WinnerNoneIff(game.CurrentSquares());
    played := game.Click(2);
    assert game.CurrentSquares() == [X, X, X, O, O, Empty, Empty, Empty, Empty];
    WinnerIsFirstUniformLine(game.CurrentSquares(), 0);
    status := Status(game.CurrentSquares(), XIsNextAt(game.currentMove));
    playedAfterWin := game.Click(5);
    historyLength := |game.history|;
  }

  /** After three moves (0, 4, 8), going back to step 1 and playing square 2
      discards the old steps 2 and 3: the history ends in the new grid. */
  method RewindAndBranch() returns (history: seq<Grid>, currentMove: nat)
    ensures |history| == 3 && currentMove == 2
    ensures history[1] == EmptyGrid[0 := X]
    ensures history[2] == EmptyGrid[0 := X][2 := O]
  {
    var game := new Game();
    var played := game.Click(0);
    assert game.CurrentSquares() == [X, Empty, Empty, Empty, Empty, Empty, Empty, Empty, Empty];
    WinnerNoneIff(game.CurrentSquares());
    played := game.Click(4);
    assert game.CurrentSquares() == [X, Empty, Empty, Empty, O, Empty, Empty, Empty, Empty];
    WinnerNoneIff(game.CurrentSquares());
    played := game.Click(8);
    game.JumpTo(1);
    assert game.CurrentSquares() == [X, Empty, Empty, Empty, Empty, Empty, Empty, Empty, Empty];
    WinnerNoneIff(game.CurrentSquares());
    played := game.Click(2);
    history, currentMove := game.history, game.currentMove;
  }
}
