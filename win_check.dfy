/** Win evaluation: `calculateWinner` scans a fixed table of eight lines (three
    rows, three columns, two diagonals) in order and reports the mark of the
    first line whose three squares are equal and non-empty. */
module WinCheck {
  import opened Grids

  /** Three squares that win when they hold one and the same mark. */
  datatype Line = Line(a: Cell, b: Cell, c: Cell)

  /** The table, in the order it is scanned. */
  const Lines: seq<Line> := [
    Line(0, 1, 2), Line(3, 4, 5), Line(6, 7, 8),
    Line(0, 3, 6), Line(1, 4, 7), Line(2, 5, 8),
    Line(0, 4, 8), Line(2, 4, 6)
  ]

  /** Row `r` of the row-major 3x3 grid, left to right. */
  function Row(r: nat): (l: Line)
    requires r < 3
  {
    Line(3 * r, 3 * r + 1, 3 * r + 2)
  }

  /** Column `c`, top to bottom. */
  function Column(c: nat): (l: Line)
    requires c < 3
  {
    Line(c, c + 3, c + 6)
  }

  /** The table is the three rows, then the three columns, then the main
      diagonal and the anti-diagonal: every line is three collinear squares. */
  lemma LinesAreRowsColumnsDiagonals()
    ensures |Lines| == 8
    ensures forall r :: 0 <= r < 3 ==> Lines[r] == Row(r)
    ensures forall c :: 0 <= c < 3 ==> Lines[3 + c] == Column(c)
    ensures Lines[6] == Line(0, 4, 8) && Lines[7] == Line(2, 4, 6)
  {
    forall r | 0 <= r < 3 ensures Lines[r] == Row(r) {
      assert r == 0 || r == 1 || r == 2;
    }
    forall c | 0 <= c < 3 ensures Lines[3 + c] == Column(c) {
      assert c == 0 || c == 1 || c == 2;
    }
  }

  /** The line's three squares hold the same mark, and it is not `Empty`. */
  predicate Uniform(g: Grid, l: Line)
    ensures Uniform(g, l) ==> g[l.b] != Empty && g[l.c] != Empty && g[l.b] == g[l.c]
  {
    g[l.a] != Empty && g[l.a] == g[l.b] && g[l.a] == g[l.c]
  }

  /** The result of scanning the table from position `i` on. */
  function WinnerFrom(g: Grid, i: nat): (r: Option<Mark>)
    requires i <= |Lines|
    ensures r != Some(Empty)
    decreases |Lines| - i
  {
    if i == |Lines| then None
    else if Uniform(g, Lines[i]) then Some(g[Lines[i].a])
    else WinnerFrom(g, i + 1)
  }

  /** What `calculateWinner` returns, `None` standing for `null`. */
  function Winner(g: Grid): (r: Option<Mark>)
    ensures r != Some(Empty)
    ensures r.Some? ==> exists k :: 0 <= k < |Lines| && Uniform(g, Lines[k]) && g[Lines[k].a] == r.value
    ensures r.None? <==> forall k :: 0 <= k < |Lines| ==> !Uniform(g, Lines[k])
  {
    WinnerFromSound(g, 0);
    WinnerFromNone(g, 0);
    WinnerFrom(g, 0)
  }

  /** The source's loop: the first uniform line in table order decides. */
  method CalculateWinner(squares: Grid) returns (winner: Option<Mark>)
    ensures winner == Winner(squares)
  {
    var i := 0;
    while i < |Lines|
      invariant 0 <= i <= |Lines|
      invariant WinnerFrom(squares, i) == Winner(squares)
    {
      var line := Lines[i];
      if squares[line.a] != Empty && squares[line.a] == squares[line.b] && squares[line.a] == squares[line.c] {
        return Some(squares[line.a]);
      }
      i := i + 1;
    }
    return None;
  }

  /** If line `k` is uniform and no line between `i` and `k` is, the scan from
      `i` returns line `k`'s mark. */
  lemma {:induction false} WinnerFromFirst(g: Grid, i: nat, k: nat)
    requires i <= k < |Lines| && Uniform(g, Lines[k])
    requires forall j :: i <= j < k ==> !Uniform(g, Lines[j])
    ensures WinnerFrom(g, i) == Some(g[Lines[k].a])
    decreases k - i
  {
    if i < k {
      WinnerFromFirst(g, i + 1, k);
    }
  }

  /** The scan from `i` finds nothing exactly when no line from `i` on is uniform. */
  lemma {:induction false} WinnerFromNone(g: Grid, i: nat)
    requires i <= |Lines|
    ensures WinnerFrom(g, i) == None <==> forall k :: i <= k < |Lines| ==> !Uniform(g, Lines[k])
    decreases |Lines| - i
  {
    if i < |Lines| {
      WinnerFromNone(g, i + 1);
    }
  }

  /** A mark the scan from `i` returns is that of the first uniform line from `i` on. */
  lemma {:induction false} WinnerFromSound(g: Grid, i: nat)
    requires i <= |Lines|
    ensures WinnerFrom(g, i).Some? ==>
      exists k :: i <= k < |Lines| && Uniform(g, Lines[k]) && WinnerFrom(g, i).value == g[Lines[k].a] &&
                  forall j :: i <= j < k ==> !Uniform(g, Lines[j])
    decreases |Lines| - i
  {
    if i < |Lines| && !Uniform(g, Lines[i]) {
      WinnerFromSound(g, i + 1);
    }
  }

  /** A non-null winner is a non-empty mark filling the first uniform line of the table. */
  lemma WinnerSound(g: Grid, m: Mark)
    requires Winner(g) == Some(m)
    ensures m != Empty
    ensures exists k :: 0 <= k < |Lines| && Uniform(g, Lines[k]) && g[Lines[k].a] == m &&
                        forall j :: 0 <= j < k ==> !Uniform(g, Lines[j])
  {
    WinnerFromSound(g, 0);
  }

  /** The first uniform line of the table decides the winner, whatever later lines hold. */
  lemma WinnerIsFirstUniformLine(g: Grid, k: nat)
    requires k < |Lines| && Uniform(g, Lines[k])
    requires forall j :: 0 <= j < k ==> !Uniform(g, Lines[j])
    ensures Winner(g) == Some(g[Lines[k].a])
  {
    WinnerFromFirst(g, 0, k);
  }

  /** `null` exactly when no line of the table is uniform. */
  lemma WinnerNoneIff(g: Grid)
    ensures Winner(g) == None <==> forall k :: 0 <= k < |Lines| ==> !Uniform(g, Lines[k])
  {
    WinnerFromNone(g, 0);
  }

  /** A new game has no winner. */
  lemma EmptyGridNoWinner()
    ensures Winner(EmptyGrid) == None
  {
    WinnerNoneIff(EmptyGrid);
  }
}
