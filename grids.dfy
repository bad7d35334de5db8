/** The values the game works on: the mark in one square, the 3x3 grid of
    squares (row-major, index 0..8) and counting marks on a grid. */
module Grids {

  datatype Option<+T> = None | Some(value: T)

  /** The contents of one square. `Empty` is the source's `null`; `X` is the
      first player (shown as an angry face), `O` the second (a smiling face). */
  datatype Mark = Empty | X | O

  /** An index of a square: the board only ever binds 0..8. */
  type Cell = i: nat | i < 9

  /** A board snapshot: always nine squares. */
  type Grid = g: seq<Mark> | |g| == 9
    witness [Empty, Empty, Empty, Empty, Empty, Empty, Empty, Empty, Empty]

  /** The grid a new game starts from: `Array(9).fill(null)`. */
  const EmptyGrid: Grid := [Empty, Empty, Empty, Empty, Empty, Empty, Empty, Empty, Empty]

  /** The text a mark is displayed as; an empty square shows nothing. */
  function Glyph(m: Mark): (s: string)
    ensures m == Empty <==> s == ""
  {
    match m
    case Empty => ""
    case X => "\U{1F620}"
    case O => "\U{1F604}"
  }

  /** Different marks are displayed differently. */
  lemma GlyphInjective(m1: Mark, m2: Mark)
    requires Glyph(m1) == Glyph(m2)
    ensures m1 == m2
  {
  }

  /** The number of squares of `s` holding `m`. */
  function Count(s: seq<Mark>, m: Mark): (n: nat)
    ensures n <= |s|
    ensures n == |s| <==> forall j :: 0 <= j < |s| ==> s[j] == m
  {
    if s == [] then 0 else (if s[0] == m then 1 else 0) + Count(s[1..], m)
  }

  /** Every square holds exactly one of the three marks. */
  lemma {:induction false} CountTotal(s: seq<Mark>)
    ensures Count(s, X) + Count(s, O) + Count(s, Empty) == |s|
  {
    if s != [] {
      CountTotal(s[1..]);
    }
  }

  /** Writing `m` into square `i` moves one square from the old mark's count to
      `m`'s and leaves the count of every third mark alone. */
  lemma {:induction false} CountUpdate(s: seq<Mark>, i: nat, m: Mark, other: Mark)
    requires i < |s| && s[i] != m
    ensures Count(s[i := m], m) == Count(s, m) + 1
    ensures Count(s[i := m], s[i]) == Count(s, s[i]) - 1
    ensures other != m && other != s[i] ==> Count(s[i := m], other) == Count(s, other)
  {
    if i == 0 {
      assert s[i := m][1..] == s[1..];
    } else {
      assert s[i := m][1..] == s[1..][i - 1 := m];
      CountUpdate(s[1..], i - 1, m, other);
    }
  }
}
