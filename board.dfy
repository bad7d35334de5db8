/** The board's rules: a click on a square (`handleClick`) and the status line
    shown above the squares. The board owns no state: it is handed the grid
    to show and whose turn it is. */
module Board {
  import opened Grids
  import opened WinCheck

  /** The mark of the player to move: the first player when `xIsNext`. */
  function ActiveMark(xIsNext: bool): (m: Mark)
    ensures m != Empty
    ensures m == X <==> xIsNext
  {
    if xIsNext then X else O
  }

  /** A click on square `i`. `None` is the early return (nothing is handed to
      `onPlay`); otherwise the copied grid with the active player's mark in `i`. */
  function HandleClick(squares: Grid, i: Cell, xIsNext: bool): (next: Option<Grid>)
    ensures next.None? <==> squares[i] != Empty || Winner(squares).Some?
    ensures next.Some? ==> next.value[i] == ActiveMark(xIsNext)
    ensures next.Some? ==> forall j :: 0 <= j < 9 && j != i ==> next.value[j] == squares[j]
  {
    if squares[i] != Empty || Winner(squares).Some? then None
    else Some(squares[i := ActiveMark(xIsNext)])
  }

  /** Clearing the square a click just filled gives back the grid that was
      clicked: a move only ever fills one empty square. */
  lemma HandleClickUndo(squares: Grid, i: Cell, xIsNext: bool)
    requires HandleClick(squares, i, xIsNext).Some?
    ensures HandleClick(squares, i, xIsNext).value[i := Empty] == squares
  {
    var next := HandleClick(squares, i, xIsNext).value;
    assert forall j :: 0 <= j < 9 ==> next[i := Empty][j] == squares[j];
  }

  /** A successful click adds one mark of the player to move, takes one empty
      square away, and leaves the other player's count alone. */
  lemma HandleClickCounts(squares: Grid, i: Cell, xIsNext: bool)
    requires HandleClick(squares, i, xIsNext).Some?
    ensures var next := HandleClick(squares, i, xIsNext).value;
      && Count(next, ActiveMark(xIsNext)) == Count(squares, ActiveMark(xIsNext)) + 1
      && Count(next, ActiveMark(!xIsNext)) == Count(squares, ActiveMark(!xIsNext))
      && Count(next, Empty) == Count(squares, Empty) - 1
  {
    CountUpdate(squares, i, ActiveMark(xIsNext), ActiveMark(!xIsNext));
  }

  const WinnerPrefix: string := "Winner: "
  const NextPlayerPrefix: string := "Next player: "

  /** The status line: the winner if the grid has one, else whose turn it is.
      A full grid without a winner still names the player to move. */
  function Status(squares: Grid, xIsNext: bool): (status: string)
    ensures Winner(squares).Some? ==> |status| == |WinnerPrefix| + 1 && status[..|WinnerPrefix|] == WinnerPrefix
    ensures Winner(squares).None? ==> |status| == |NextPlayerPrefix| + 1 && status[..|NextPlayerPrefix|] == NextPlayerPrefix
    ensures Winner(squares).Some? ==> status[|WinnerPrefix|..] == Glyph(Winner(squares).value)
    ensures Winner(squares).None? ==> status[|NextPlayerPrefix|..] == Glyph(ActiveMark(xIsNext))
  {
    match Winner(squares)
    case Some(winner) => WinnerPrefix + Glyph(winner)
    case None => NextPlayerPrefix + Glyph(ActiveMark(xIsNext))
  }

  /** The status line can be read back: it tells whether there is a winner,
      which mark won, and, while nobody has won, whose turn it is. */
  lemma StatusDetermines(g1: Grid, x1: bool, g2: Grid, x2: bool)
    requires Status(g1, x1) == Status(g2, x2)
    ensures Winner(g1) == Winner(g2)
    ensures Winner(g1).None? ==> x1 == x2
  {
    var s := Status(g1, x1);
    assert WinnerPrefix[0] != NextPlayerPrefix[0];
    assert Winner(g1).Some? <==> Winner(g2).Some?;
    match Winner(g1)
    case Some(w1) =>
      var w2 := Winner(g2).value;
      assert s[|WinnerPrefix|..] == Glyph(w1) == Glyph(w2);
      GlyphInjective(w1, w2);
    case None =>
      assert s[|NextPlayerPrefix|..] == Glyph(ActiveMark(x1)) == Glyph(ActiveMark(x2));
      GlyphInjective(ActiveMark(x1), ActiveMark(x2));
  }
}
