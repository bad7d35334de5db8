/** The game controller: the list of grids played so far and the index of the
    one on display. Playing from an earlier step cuts off the later steps;
    jumping only moves the index. */
module GameState {
  import opened Grids
  import opened WinCheck
  import opened Board

  /** `xIsNext` at step `move`: the first player opens the game, and
      `XIsNextAlternates` shows the turn passes on every step. */
  function XIsNextAt(move: nat): (r: bool)
    ensures move == 0 ==> r
  {
    move % 2 == 0
  }

  /** The turn passes to the other player on every step: the flip the board
      once made itself after each move. */
  lemma XIsNextAlternates(move: nat)
    ensures XIsNextAt(move + 1) == !XIsNextAt(move)
  {
  }

  /** Step `k` of `h` is a click on `h[k]` by the player whose turn step `k` is. */
  ghost predicate MoveAt(h: seq<Grid>, k: nat)
    requires k + 1 < |h|
  {
    exists i: Cell :: HandleClick(h[k], i, XIsNextAt(k)) == Some(h[k + 1])
  }

  /** A history the game itself can build: it starts from the empty grid and
      every later grid is a successful click on its predecessor. */
  ghost predicate LegalHistory(h: seq<Grid>) {
    |h| > 0 && h[0] == EmptyGrid &&
    forall k: nat :: k + 1 < |h| ==> MoveAt(h, k)
  }

  class Game {
    var history: seq<Grid>
    var currentMove: nat

    /** The history is never empty and the index points into it. */
    ghost predicate Valid()
      reads this
    {
      |history| > 0 && currentMove < |history|
    }

    /** A new game: one empty grid, on display. */
    constructor ()
      ensures Valid() && LegalHistory(history)
      ensures history == [EmptyGrid] && currentMove == 0
    {
      history := [EmptyGrid];
      currentMove := 0;
    }

    /** The grid the board shows: one of the grids played, never a new one.
        `DisplayedCounts` says what it holds on a legal history. */
    function CurrentSquares(): (squares: Grid)
      reads this
      requires Valid()
      ensures squares in history
    {
      history[currentMove]
    }

    /** Keep the steps up to the one on display, append `nextSquares`, and
      display it. */
    method HandlePlay(nextSquares: Grid)
      requires Valid()
      modifies this
      ensures Valid()
      ensures history == old(history[..currentMove + 1]) + [nextSquares]
      ensures currentMove == |history| - 1 == old(currentMove) + 1
      ensures forall k :: 0 <= k <= old(currentMove) ==> history[k] == old(history[k])
    {
      var nextHistory := history[..currentMove + 1] + [nextSquares];
      history := nextHistory;
      currentMove := |nextHistory| - 1;
    }

    /** Display step `nextMove`; the list of steps offers only existing ones. */
    method JumpTo(nextMove: nat)
      requires Valid() && nextMove < |history|
      modifies this
      ensures Valid() && LegalHistory(history) == old(LegalHistory(history))
      ensures history == old(history) && currentMove == nextMove
    {
      currentMove := nextMove;
    }

    /** A click on square `i` of the board: `HandleClick` on the grid on
        display, its result (if any) handed to `HandlePlay`. */
    method Click(i: Cell) returns (played: bool)
      requires Valid()
      modifies this
      ensures Valid()
      ensures played <==> HandleClick(old(CurrentSquares()), i, old(XIsNextAt(currentMove))).Some?
      ensures !played ==> history == old(history) && currentMove == old(currentMove)
      ensures played ==>
        history == old(history[..currentMove + 1]) + [HandleClick(old(CurrentSquares()), i, old(XIsNextAt(currentMove))).value] &&
        currentMove == old(currentMove) + 1
      ensures old(LegalHistory(history)) ==> LegalHistory(history)
    {
      ghost var before := history;
      var next := HandleClick(history[currentMove], i, XIsNextAt(currentMove));
      played := next.Some?;
      if played {
        ghost var m := currentMove;
        HandlePlay(next.value);
        if LegalHistory(before) {
          LegalExtend(before, m, i);
        }
      }
    }

    /** On a legal history the grid on display holds one mark per step played
        up to `currentMove`, and the first player is to move exactly when both
        players have as many marks on it. */
    lemma DisplayedCounts()
      requires Valid() && LegalHistory(history)
      ensures Count(CurrentSquares(), Empty) == 9 - currentMove
      ensures XIsNextAt(currentMove) <==> Count(CurrentSquares(), X) == Count(CurrentSquares(), O)
    {
      TurnCounts(history, currentMove);
    }
  }

  /** Cutting a legal history after step `m` and appending a successful click
      on step `m` by the player to move gives a legal history. */
  lemma LegalExtend(h: seq<Grid>, m: nat, i: Cell)
    requires LegalHistory(h) && m < |h|
    requires HandleClick(h[m], i, XIsNextAt(m)).Some?
    ensures LegalHistory(h[..m + 1] + [HandleClick(h[m], i, XIsNextAt(m)).value])
  {
    var h' := h[..m + 1] + [HandleClick(h[m], i, XIsNextAt(m)).value];
    forall k: nat | k + 1 < |h'| ensures MoveAt(h', k) {
      if k < m {
        assert MoveAt(h, k);
        var j: Cell :| HandleClick(h[k], j, XIsNextAt(k)) == Some(h[k + 1]);
        assert HandleClick(h'[k], j, XIsNextAt(k)) == Some(h'[k + 1]);
      } else {
        assert HandleClick(h'[k], i, XIsNextAt(k)) == Some(h'[k + 1]);
      }
    }
  }

  /** The grid at step `k` of a legal history holds `(k + 1) / 2` marks of the
      first player, `k / 2` of the second and `9 - k` empty squares. */
  lemma {:induction false} TurnCounts(h: seq<Grid>, k: nat)
    requires LegalHistory(h) && k < |h|
    ensures Count(h[k], X) == (k + 1) / 2
    ensures Count(h[k], O) == k / 2
    ensures Count(h[k], Empty) == 9 - k
  {
    if k == 0 {
      assert h[0] == EmptyGrid;
    } else {
      TurnCounts(h, k - 1);
      assert MoveAt(h, k - 1);
      var i: Cell :| HandleClick(h[k - 1], i, XIsNextAt(k - 1)) == Some(h[k]);
      StepCounts(h[k - 1], i, k - 1);
    }
    CountTotal(h[k]);
  }

  /** One click at step `k` turns the counts of step `k` into those of step `k + 1`. */
  lemma StepCounts(g: Grid, i: Cell, k: nat)
    requires HandleClick(g, i, XIsNextAt(k)).Some?
    requires Count(g, X) == (k + 1) / 2 && Count(g, O) == k / 2
    ensures var next := HandleClick(g, i, XIsNextAt(k)).value;
      Count(next, X) == (k + 2) / 2 && Count(next, O) == (k + 1) / 2
  {
    HandleClickCounts(g, i, XIsNextAt(k));
    if k % 2 == 0 {
      assert (k + 2) / 2 == (k + 1) / 2 + 1 && (k + 1) / 2 == k / 2;
    } else {
      assert (k + 2) / 2 == (k + 1) / 2 && (k + 1) / 2 == k / 2 + 1;
    }
  }

  /** `xIsNext` holds on a step exactly when both players have as many marks
      on its grid. */
  lemma XIsNextIffBalanced(h: seq<Grid>, k: nat)
    requires LegalHistory(h) && k < |h|
    ensures XIsNextAt(k) <==> Count(h[k], X) == Count(h[k], O)
  {
    TurnCounts(h, k);
  }

  /** Nine squares allow at most nine moves, so a history has at most ten grids. */
  lemma HistoryBounded(h: seq<Grid>)
    requires LegalHistory(h)
    ensures |h| <= 10
  {
    TurnCounts(h, |h| - 1);
  }

  /** Each grid after the first differs from its predecessor in exactly one
      square, which was empty and now holds the mark of the player whose turn
      it was. */
  lemma OneSquarePerStep(h: seq<Grid>, k: nat)
    requires LegalHistory(h) && 0 < k < |h|
    ensures exists i: Cell ::
      h[k - 1][i] == Empty && h[k][i] == ActiveMark(XIsNextAt(k - 1)) &&
      forall j :: 0 <= j < 9 && j != i ==> h[k][j] == h[k - 1][j]
  {
    assert MoveAt(h, k - 1);
    var i: Cell :| HandleClick(h[k - 1], i, XIsNextAt(k - 1)) == Some(h[k]);
    assert h[k - 1][i] == Empty;
  }

  /** On any grid the game can reach, all uniform lines hold the same mark, so
      the order in which the table is scanned never changes the winner there. */
  lemma SingleWinningMark(h: seq<Grid>, k: nat, l1: nat, l2: nat)
    requires LegalHistory(h) && k < |h|
    requires l1 < |Lines| && l2 < |Lines|
    requires Uniform(h[k], Lines[l1]) && Uniform(h[k], Lines[l2])
    ensures h[k][Lines[l1].a] == h[k][Lines[l2].a]
  {
    if k == 0 {
      assert false;
    }
    assert MoveAt(h, k - 1);
    var i: Cell :| HandleClick(h[k - 1], i, XIsNextAt(k - 1)) == Some(h[k]);
    WinnerNoneIff(h[k - 1]);
    LineThroughMove(h[k - 1], h[k], i, Lines[l1]);
    LineThroughMove(h[k - 1], h[k], i, Lines[l2]);
  }

  /** On a reachable grid the winner's mark fills every uniform line, not only
      the first one the scan meets. */
  lemma WinnerOrderIrrelevant(h: seq<Grid>, k: nat, m: Mark, l: nat)
    requires LegalHistory(h) && k < |h| && Winner(h[k]) == Some(m)
    requires l < |Lines| && Uniform(h[k], Lines[l])
    ensures h[k][Lines[l].a] == m
  {
    WinnerSound(h[k], m);
    var first :| 0 <= first < |Lines| && Uniform(h[k], Lines[first]) && h[k][Lines[first].a] == m;
    SingleWinningMark(h, k, first, l);
  }

  /** A line uniform after a move that changed only square `i`, but not before,
      runs through `i` and holds the mark written there. */
  lemma LineThroughMove(g: Grid, g': Grid, i: Cell, l: Line)
    requires forall j :: 0 <= j < 9 && j != i ==> g'[j] == g[j]
    requires Uniform(g', l) && !Uniform(g, l)
    ensures g'[l.a] == g'[i]
  {
  }
}
