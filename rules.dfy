/**
 * The rules of Ultimate Tic-Tac-Toe as pure functions over 3x3 grids:
 * cell marks and sub-board outcomes, the fixed table of eight lines, and
 * the four outcome checks of script.js (small-board win and draw,
 * ultimate win and draw).
 */
module Rules {

  /** A row or column index of a 3x3 grid. */
  type Idx = i: int | 0 <= i < 3

  datatype Player = X | O

  /** A cell of a sub-board: `null`, 'X' or 'O'. */
  datatype Cell = Empty | Occupied(owner: Player)

  /** The outcome of a sub-board: `null`, 'X', 'O' or 'draw'. */
  datatype Outcome = Undecided | Won(winner: Player) | Drawn

  /** The player who moves after `p`. */
  function Other(p: Player): (q: Player)
    ensures q != p
  {
    if p == X then O else X
  }

  /** Both levels of the game are 3x3 grids, stored row by row. */
  predicate IsGrid<T>(g: seq<seq<T>>) {
    |g| == 3 && forall r :: 0 <= r < 3 ==> |g[r]| == 3
  }

  function At<T>(g: seq<seq<T>>, p: (Idx, Idx)): (v: T)
    requires IsGrid(g)
  {
    g[p.0][p.1]
  }

  /** `g` with the cell at row `r`, column `c` replaced by `v`. */
  function Write<T>(g: seq<seq<T>>, r: Idx, c: Idx, v: T): (g': seq<seq<T>>)
    requires IsGrid(g)
    ensures IsGrid(g')
    ensures g'[r][c] == v
    ensures forall i: Idx, j: Idx :: (i != r || j != c) ==> g'[i][j] == g[i][j]
  {
    g[r := g[r][c := v]]
  }

  /** Grids with the same cells are equal. */
  lemma GridsEqual<T>(g: seq<seq<T>>, h: seq<seq<T>>)
    requires IsGrid(g) && IsGrid(h)
    requires forall r: Idx, c: Idx :: g[r][c] == h[r][c]
    ensures g == h
  {
    forall r | 0 <= r < 3
      ensures g[r] == h[r]
    {
      assert forall c :: 0 <= c < 3 ==> g[r][c] == h[r][c];
    }
  }

  datatype Line = Line(a: (Idx, Idx), b: (Idx, Idx), c: (Idx, Idx))

  /** The eight lines, in the order both line scans visit them. */
  const Lines: seq<Line> := [
    // rows
    Line((0, 0), (0, 1), (0, 2)),
    Line((1, 0), (1, 1), (1, 2)),
    Line((2, 0), (2, 1), (2, 2)),
    // columns
    Line((0, 0), (1, 0), (2, 0)),
    Line((0, 1), (1, 1), (2, 1)),
    Line((0, 2), (1, 2), (2, 2)),
    // diagonals
    Line((0, 0), (1, 1), (2, 2)),
    Line((0, 2), (1, 1), (2, 0))
  ]

  /** Line `k` holds three equal values, none of them `blank`. */
  predicate Complete<T(==)>(g: seq<seq<T>>, blank: T, k: nat)
    requires IsGrid(g) && k < |Lines|
  {
    var l := Lines[k];
    At(g, l.a) != blank && At(g, l.a) == At(g, l.b) && At(g, l.a) == At(g, l.c)
  }

  /** Line `k` is complete and no line before it in the table is. */
  ghost predicate FirstComplete<T>(g: seq<seq<T>>, blank: T, k: int)
    requires IsGrid(g)
  {
    0 <= k < |Lines| && Complete(g, blank, k) && forall j :: 0 <= j < k ==> !Complete(g, blank, j)
  }

  /** No line from table entry `k` on is complete. */
  ghost predicate NoLineFrom<T>(g: seq<seq<T>>, blank: T, k: nat)
    requires IsGrid(g)
  {
    forall j :: k <= j < |Lines| ==> !Complete(g, blank, j)
  }

  /**
   * The line scan from table entry `k` on: the value of the first complete
   * line, or `blank` when there is none.
   */
  function WinnerFrom<T(==)>(g: seq<seq<T>>, blank: T, k: nat): (w: T)
    requires IsGrid(g) && k <= |Lines|
    decreases |Lines| - k
  {
    if k == |Lines| then blank
    else if Complete(g, blank, k) then At(g, Lines[k].a)
    else WinnerFrom(g, blank, k + 1)
  }

  /**
   * The scan finds nothing exactly when no line is complete; otherwise it
   * finds the value of a complete line that no earlier line precedes.
   */
  lemma {:induction false} WinnerFromSpec<T>(g: seq<seq<T>>, blank: T, k: nat)
    requires IsGrid(g) && k <= |Lines|
    ensures WinnerFrom(g, blank, k) == blank <==> NoLineFrom(g, blank, k)
    ensures WinnerFrom(g, blank, k) != blank ==>
      exists j :: k <= j < |Lines| && Complete(g, blank, j) && At(g, Lines[j].a) == WinnerFrom(g, blank, k) &&
        forall i :: k <= i < j ==> !Complete(g, blank, i)
    decreases |Lines| - k
  {
    if k == |Lines| {
    } else if Complete(g, blank, k) {
      assert !NoLineFrom(g, blank, k);
    } else {
      WinnerFromSpec(g, blank, k + 1);
      if WinnerFrom(g, blank, k) != blank {
        var j :| k + 1 <= j < |Lines| && Complete(g, blank, j) && At(g, Lines[j].a) == WinnerFrom(g, blank, k) &&
          forall i :: k + 1 <= i < j ==> !Complete(g, blank, i);
        assert forall i :: k <= i < j ==> !Complete(g, blank, i);
      }
    }
  }

  /** Every cell differs from `blank`. */
  predicate Full<T(==)>(g: seq<seq<T>>, blank: T)
    requires IsGrid(g)
  {
    forall r: Idx, c: Idx :: g[r][c] != blank
  }

  /** `checkSmallBoardWin`: the mark of the first complete line, or `Empty`. */
  function SmallBoardWin(b: seq<seq<Cell>>): (w: Cell)
    requires IsGrid(b)
  {
    WinnerFrom(b, Empty, 0)
  }

  /** `checkSmallBoardDraw`: all nine cells taken and no complete line. */
  predicate SmallBoardDraw(b: seq<seq<Cell>>)
    requires IsGrid(b)
  {
    Full(b, Empty) && SmallBoardWin(b) == Empty
  }

  /**
   * What a move records for its sub-board: the winner if a line is
   * complete, otherwise a draw if the board is full, otherwise nothing.
   */
  function SubBoardOutcome(b: seq<seq<Cell>>): (o: Outcome)
    requires IsGrid(b)
  {
    var w := SmallBoardWin(b);
    if w.Occupied? then Won(w.owner)
    else if SmallBoardDraw(b) then Drawn
    else Undecided
  }

  /**
   * `checkUltimateWin`: the value of the first line of three equal decided
   * outcomes, or `Undecided`. A line of three drawn boards counts too.
   */
  function UltimateWin(m: seq<seq<Outcome>>): (w: Outcome)
    requires IsGrid(m)
  {
    WinnerFrom(m, Undecided, 0)
  }

  /** `checkUltimateDraw`: all nine sub-boards decided and `UltimateWin` finds nothing. */
  predicate UltimateDraw(m: seq<seq<Outcome>>)
    requires IsGrid(m)
  {
    Full(m, Undecided) && UltimateWin(m) == Undecided
  }

  // ---------------------------------------------------------------------
  // Properties of the outcome checks

  /** The scan returns the value of the first complete line, whatever that value is. */
  lemma {:induction false} WinnerIsFirstLine<T>(g: seq<seq<T>>, blank: T, k: int)
    requires IsGrid(g) && FirstComplete(g, blank, k)
    ensures WinnerFrom(g, blank, 0) == At(g, Lines[k].a)
  {
    WinnerFromSpec(g, blank, 0);
    var r := WinnerFrom(g, blank, 0);
    assert r != blank;
    var j :| 0 <= j < |Lines| && Complete(g, blank, j) && At(g, Lines[j].a) == r &&
      forall i :: 0 <= i < j ==> !Complete(g, blank, i);
    assert !(j < k) && !(k < j);
  }

  /** A sub-board outcome is a win exactly when some line is complete, and it names that line's mark. */
  lemma SubBoardOutcomeSpec(b: seq<seq<Cell>>)
    requires IsGrid(b)
    ensures SubBoardOutcome(b).Won? <==> !NoLineFrom(b, Empty, 0)
    ensures SubBoardOutcome(b).Won? ==>
      exists k :: FirstComplete(b, Empty, k) && At(b, Lines[k].a) == Occupied(SubBoardOutcome(b).winner)
    ensures SubBoardOutcome(b) == Drawn <==> Full(b, Empty) && NoLineFrom(b, Empty, 0)
    ensures SubBoardOutcome(b) == Undecided <==> !Full(b, Empty) && NoLineFrom(b, Empty, 0)
  {
    WinnerFromSpec(b, Empty, 0);
    var w := WinnerFrom(b, Empty, 0);
    if w != Empty {
      var k :| 0 <= k < |Lines| && Complete(b, Empty, k) && At(b, Lines[k].a) == w &&
        forall i :: 0 <= i < k ==> !Complete(b, Empty, i);
      assert FirstComplete(b, Empty, k);
    }
  }

  /** The ultimate draw holds exactly when every sub-board is decided and no line holds three equal outcomes. */
  lemma UltimateDrawSpec(m: seq<seq<Outcome>>)
    requires IsGrid(m)
    ensures UltimateDraw(m) <==> Full(m, Undecided) && NoLineFrom(m, Undecided, 0)
  {
    WinnerFromSpec(m, Undecided, 0);
  }

  /** Three drawn sub-boards in the first complete line make `UltimateWin` report `Drawn`. */
  lemma DrawnLineWinsUltimate(m: seq<seq<Outcome>>, k: nat)
    requires IsGrid(m) && k < |Lines|
    requires At(m, Lines[k].a) == Drawn && At(m, Lines[k].b) == Drawn && At(m, Lines[k].c) == Drawn
    requires forall j :: 0 <= j < k ==> !Complete(m, Undecided, j)
    ensures UltimateWin(m) == Drawn
    ensures !UltimateDraw(m)
  {
    assert FirstComplete(m, Undecided, k);
    WinnerIsFirstLine(m, Undecided, k);
  }

  /** All nine sub-boards drawn: the game is reported as won by `'draw'`, never as a draw. */
  lemma AllDrawnIsNotADraw(m: seq<seq<Outcome>>)
    requires IsGrid(m) && forall r: Idx, c: Idx :: m[r][c] == Drawn
    ensures UltimateWin(m) == Drawn
    ensures !UltimateDraw(m)
  {
    DrawnLineWinsUltimate(m, 0);
  }

  /**
   * Writing `v` into a blank cell of a grid with no complete line can only
   * complete lines of `v`: afterwards the scan finds `v` or nothing.
   */
  lemma {:induction false} WriteCompletesOnly<T>(g: seq<seq<T>>, blank: T, r: Idx, c: Idx, v: T)
    requires IsGrid(g) && NoLineFrom(g, blank, 0) && g[r][c] == blank
    ensures var w := WinnerFrom(Write(g, r, c, v), blank, 0); w == blank || w == v
  {
    var g' := Write(g, r, c, v);
    WinnerFromSpec(g', blank, 0);
    var w := WinnerFrom(g', blank, 0);
    if w != blank {
      var k :| 0 <= k < |Lines| && Complete(g', blank, k) && At(g', Lines[k].a) == w;
      assert !Complete(g, blank, k);
      NewLineHoldsWritten(g, blank, r, c, v, k);
    }
  }

  /** A line completed by a write passes through the written cell, so it holds the written value. */
  lemma NewLineHoldsWritten<T>(g: seq<seq<T>>, blank: T, r: Idx, c: Idx, v: T, k: nat)
    requires IsGrid(g) && k < |Lines|
    requires Complete(Write(g, r, c, v), blank, k) && !Complete(g, blank, k)
    ensures At(Write(g, r, c, v), Lines[k].a) == v
  {
    var g', l := Write(g, r, c, v), Lines[k];
    assert l.a == (r, c) || l.b == (r, c) || l.c == (r, c);
  }

  /** An empty sub-board is undecided. */
  lemma EmptyBoardUndecided(b: seq<seq<Cell>>)
    requires IsGrid(b) && forall r: Idx, c: Idx :: b[r][c] == Empty
    ensures SubBoardOutcome(b) == Undecided
  {
    assert !Complete(b, Empty, 0);
    assert b[0][0] == Empty;
  }

  /** A move by `p` into an undecided sub-board can never give that sub-board to the other player. */
  lemma MoveNeverWinsForOpponent(b: seq<seq<Cell>>, r: Idx, c: Idx, p: Player)
    requires IsGrid(b) && SubBoardOutcome(b) == Undecided && b[r][c] == Empty
    ensures SubBoardOutcome(Write(b, r, c, Occupied(p))) != Won(Other(p))
  {
    SubBoardOutcomeSpec(b);
    WriteCompletesOnly(b, Empty, r, c, Occupied(p));
  }

  /**
   * When no line of the meta-grid is complete, recording outcome `o` for one
   * undecided sub-board can only make `UltimateWin` report `o` or nothing.
   */
  lemma RecordCompletesOnly(m: seq<seq<Outcome>>, r: Idx, c: Idx, o: Outcome)
    requires IsGrid(m) && UltimateWin(m) == Undecided && m[r][c] == Undecided
    ensures UltimateWin(Write(m, r, c, o)) in {Undecided, o}
  {
    WriteCompletesOnly(m, Undecided, r, c, o);
  }

  /**
   * A meta-grid with a complete line keeps one when no decided entry
   * changes, though the first complete line, and so the reported value, may
   * differ: moves only fill undecided entries, so a game once over stays over.
   */
  lemma OverStaysOver(m: seq<seq<Outcome>>, m': seq<seq<Outcome>>)
    requires IsGrid(m) && IsGrid(m')
    requires forall r: Idx, c: Idx :: m[r][c] != Undecided ==> m'[r][c] == m[r][c]
    requires UltimateWin(m) != Undecided
    ensures UltimateWin(m') != Undecided
  {
    WinnerFromSpec(m, Undecided, 0);
    var k :| 0 <= k < |Lines| && Complete(m, Undecided, k);
    assert Complete(m', Undecided, k);
    WinnerFromSpec(m', Undecided, 0);
  }
}
