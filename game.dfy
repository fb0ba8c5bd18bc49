/**
 * The mutable game state of script.js and its one transition, the move a
 * cell click makes. The four outcome checks are the source's loops over
 * the line table, each proved equal to its specification in Rules.
 */
module Game {
  import opened Rules

  /** `activeBigBoard`: `null`, or the `[row, col]` of the board the next move must use. */
  datatype Active = Anywhere | Board(row: Idx, col: Idx)

  /** What a click achieves: the move is made, or it is refused and nothing changes. */
  datatype MoveResult =
    | Played
    | NotActiveBoard  // another sub-board is active and still undecided
    | Unavailable     // the cell is taken or its sub-board is decided

  class UltimateGame {
    /** `ultimateBoard[bigRow][bigCol][smallRow][smallCol]` */
    var ultimateBoard: array4<Cell>
    /** `bigBoardWins[bigRow][bigCol]` */
    var bigBoardWins: array2<Outcome>
    var currentPlayer: Player
    var activeBigBoard: Active

    ghost predicate Shaped()
      reads this`ultimateBoard, this`bigBoardWins
    {
      ultimateBoard.Length0 == 3 && ultimateBoard.Length1 == 3 &&
      ultimateBoard.Length2 == 3 && ultimateBoard.Length3 == 3 &&
      bigBoardWins.Length0 == 3 && bigBoardWins.Length1 == 3
    }

    /** The sub-board at `(br, bc)` as a grid value. */
    ghost function SubBoard(br: Idx, bc: Idx): (b: seq<seq<Cell>>)
      reads this`ultimateBoard, this`bigBoardWins, ultimateBoard
      requires Shaped()
      ensures IsGrid(b)
    {
      var u := ultimateBoard;
      [[u[br, bc, 0, 0], u[br, bc, 0, 1], u[br, bc, 0, 2]],
       [u[br, bc, 1, 0], u[br, bc, 1, 1], u[br, bc, 1, 2]],
       [u[br, bc, 2, 0], u[br, bc, 2, 1], u[br, bc, 2, 2]]]
    }

    lemma SubBoardCells(br: Idx, bc: Idx)
      requires Shaped()
      ensures forall r: Idx, c: Idx :: SubBoard(br, bc)[r][c] == ultimateBoard[br, bc, r, c]
    {
    }

    /** The meta-grid of sub-board outcomes as a grid value. */
    ghost function Meta(): (m: seq<seq<Outcome>>)
      reads this`ultimateBoard, this`bigBoardWins, bigBoardWins
      requires Shaped()
      ensures IsGrid(m)
    {
      var w := bigBoardWins;
      [[w[0, 0], w[0, 1], w[0, 2]],
       [w[1, 0], w[1, 1], w[1, 2]],
       [w[2, 0], w[2, 1], w[2, 2]]]
    }

    lemma MetaCells()
      requires Shaped()
      ensures forall r: Idx, c: Idx :: Meta()[r][c] == bigBoardWins[r, c]
    {
    }

    /**
     * The invariant every move keeps: each recorded outcome is the outcome
     * of its sub-board's cells, and an active sub-board is undecided.
     */
    ghost predicate Valid()
      reads this, ultimateBoard, bigBoardWins
    {
      Shaped() &&
      (forall br: Idx, bc: Idx :: Recorded(br, bc)) &&
      (activeBigBoard.Board? ==> bigBoardWins[activeBigBoard.row, activeBigBoard.col] == Undecided)
    }

    /** The outcome recorded for sub-board `(br, bc)` is the outcome of its cells. */
    ghost predicate Recorded(br: Idx, bc: Idx)
      reads this`ultimateBoard, this`bigBoardWins, ultimateBoard, bigBoardWins
      requires Shaped()
    {
      bigBoardWins[br, bc] == SubBoardOutcome(SubBoard(br, bc))
    }

    /** The state `initializeGame` sets up. */
    ghost predicate Initial()
      reads this, ultimateBoard, bigBoardWins
    {
      Shaped() &&
      (forall br: Idx, bc: Idx, sr: Idx, sc: Idx :: ultimateBoard[br, bc, sr, sc] == Empty) &&
      (forall br: Idx, bc: Idx :: bigBoardWins[br, bc] == Undecided) &&
      currentPlayer == X && activeBigBoard == Anywhere
    }

    /** Loading the script, which ends by calling `initializeGame`. */
    constructor ()
      ensures fresh(ultimateBoard) && fresh(bigBoardWins)
      ensures Initial() && Valid()
    {
      ultimateBoard := new Cell[3, 3, 3, 3]((_, _, _, _) => Empty);
      bigBoardWins := new Outcome[3, 3]((_, _) => Undecided);
      currentPlayer := X;
      activeBigBoard := Anywhere;
      new;
      InitialIsValid();
    }

    /** `initializeGame` (also run by the reset button): fresh, empty boards. */
    method InitializeGame()
      modifies this
      ensures fresh(ultimateBoard) && fresh(bigBoardWins)
      ensures Initial() && Valid()
    {
      ultimateBoard := new Cell[3, 3, 3, 3]((_, _, _, _) => Empty);
      bigBoardWins := new Outcome[3, 3]((_, _) => Undecided);
      currentPlayer := X;
      activeBigBoard := Anywhere;
      InitialIsValid();
    }

    lemma InitialIsValid()
      requires Initial()
      ensures Valid()
    {
      forall br: Idx, bc: Idx
        ensures Recorded(br, bc)
      {
        EmptyBoardUndecided(SubBoard(br, bc));
      }
    }

    /**
     * The checks a click passes before anything is written: the wrong-board
     * test, then the taken-cell and decided-board test.
     */
    ghost function Verdict(br: Idx, bc: Idx, sr: Idx, sc: Idx): MoveResult
      reads this, ultimateBoard, bigBoardWins
      requires Shaped()
    {
      if activeBigBoard.Board? && (br != activeBigBoard.row || bc != activeBigBoard.col) &&
         bigBoardWins[activeBigBoard.row, activeBigBoard.col] == Undecided
      then NotActiveBoard
      else if ultimateBoard[br, bc, sr, sc] != Empty || bigBoardWins[br, bc] != Undecided
      then Unavailable
      else Played
    }

    /**
     * In a valid state a click is accepted exactly when it targets the
     * active sub-board (or any, when none is active), the cell is empty and
     * its sub-board is undecided. Whether the game is already won plays no part.
     */
    lemma VerdictPlayed(br: Idx, bc: Idx, sr: Idx, sc: Idx)
      requires Valid()
      ensures Verdict(br, bc, sr, sc) == Played <==>
        (activeBigBoard == Anywhere || activeBigBoard == Board(br, bc)) &&
        ultimateBoard[br, bc, sr, sc] == Empty && bigBoardWins[br, bc] == Undecided
    {
    }

    /**
     * The logic of `handleCellClick` for the cell `(br, bc, sr, sc)`: refuse,
     * or write the current player's mark, record the sub-board's outcome,
     * choose the next active board and pass the turn unless the game ended.
     */
    method HandleCellClick(br: Idx, bc: Idx, sr: Idx, sc: Idx) returns (result: MoveResult)
      requires Valid()
      modifies this`currentPlayer, this`activeBigBoard, ultimateBoard, bigBoardWins
      ensures Valid()
      ensures result == old(Verdict(br, bc, sr, sc))
      ensures result != Played ==>
        unchanged(ultimateBoard, bigBoardWins) &&
        currentPlayer == old(currentPlayer) && activeBigBoard == old(activeBigBoard)
      ensures result == Played ==>
        // exactly the target cell is written, with the mover's mark
        && ultimateBoard[br, bc, sr, sc] == Occupied(old(currentPlayer))
        && (forall a: Idx, b: Idx, c: Idx, d: Idx :: !(a == br && b == bc && c == sr && d == sc) ==>
              ultimateBoard[a, b, c, d] == old(ultimateBoard[a, b, c, d]))
        // only the target sub-board's outcome is recomputed
        && bigBoardWins[br, bc] == SubBoardOutcome(SubBoard(br, bc))
        && (forall a: Idx, b: Idx :: !(a == br && b == bc) ==> bigBoardWins[a, b] == old(bigBoardWins[a, b]))
        // the cell played names the next sub-board, unless that one is decided
        && activeBigBoard == (if bigBoardWins[sr, sc] == Undecided then Board(sr, sc) else Anywhere)
        // the turn passes unless the ultimate checks report an end
        && currentPlayer ==
             (if UltimateWin(Meta()) == Undecided && !UltimateDraw(Meta())
              then Other(old(currentPlayer)) else old(currentPlayer))
      ensures forall a: Idx, b: Idx, c: Idx, d: Idx :: old(ultimateBoard[a, b, c, d]) != Empty ==>
        ultimateBoard[a, b, c, d] == old(ultimateBoard[a, b, c, d])
      ensures forall a: Idx, b: Idx :: old(bigBoardWins[a, b]) != Undecided ==>
        bigBoardWins[a, b] == old(bigBoardWins[a, b])
      // the same two changes as grid values, for the lemmas of Rules
      ensures result == Played ==>
        SubBoard(br, bc) == Write(old(SubBoard(br, bc)), sr, sc, Occupied(old(currentPlayer))) &&
        Meta() == Write(old(Meta()), br, bc, bigBoardWins[br, bc])
    {
      if activeBigBoard.Board? && (br != activeBigBoard.row || bc != activeBigBoard.col) {
        if bigBoardWins[activeBigBoard.row, activeBigBoard.col] == Undecided {
          return NotActiveBoard;
        }
      }
      if ultimateBoard[br, bc, sr, sc] != Empty || bigBoardWins[br, bc] != Undecided {
        return Unavailable;
      }

      result := Played;
      PlaceMark(br, bc, sr, sc);
      RecordSmallBoardOutcome(br, bc);
      ChooseActiveBoard(sr, sc);
      PassTurn();

      forall a: Idx, b: Idx
        ensures Recorded(a, b)
      {
        if !(a == br && b == bc) {
          assert SubBoard(a, b) == old(SubBoard(a, b));
          assert old(Recorded(a, b));
        }
      }
    }

    /** Write the current player's mark into the cell `(br, bc, sr, sc)`. */
    method PlaceMark(br: Idx, bc: Idx, sr: Idx, sc: Idx)
      requires Shaped()
      modifies ultimateBoard
      ensures ultimateBoard[br, bc, sr, sc] == Occupied(currentPlayer)
      ensures forall a: Idx, b: Idx, c: Idx, d: Idx :: !(a == br && b == bc && c == sr && d == sc) ==>
        ultimateBoard[a, b, c, d] == old(ultimateBoard[a, b, c, d])
      ensures SubBoard(br, bc) == Write(old(SubBoard(br, bc)), sr, sc, Occupied(currentPlayer))
    {
      ghost var board := SubBoard(br, bc);
      SubBoardCells(br, bc);
      ultimateBoard[br, bc, sr, sc] := Occupied(currentPlayer);
      SubBoardCells(br, bc);
      GridsEqual(SubBoard(br, bc), Write(board, sr, sc, Occupied(currentPlayer)));
    }

    /** Record a win or a draw of sub-board `(br, bc)`; an undecided board keeps its old entry. */
    method RecordSmallBoardOutcome(br: Idx, bc: Idx)
      requires Shaped()
      modifies bigBoardWins
      ensures bigBoardWins[br, bc] ==
        (var o := SubBoardOutcome(SubBoard(br, bc)); if o == Undecided then old(bigBoardWins[br, bc]) else o)
      ensures forall a: Idx, b: Idx :: !(a == br && b == bc) ==> bigBoardWins[a, b] == old(bigBoardWins[a, b])
      ensures Meta() == Write(old(Meta()), br, bc, bigBoardWins[br, bc])
    {
      ghost var meta := Meta();
      MetaCells();
      var winner := CheckSmallBoardWin(br, bc);
      if winner.Occupied? {
        bigBoardWins[br, bc] := Won(winner.owner);
      } else {
        var drawn := CheckSmallBoardDraw(br, bc);
        if drawn {
          bigBoardWins[br, bc] := Drawn;
        }
      }
      MetaCells();
      GridsEqual(Meta(), Write(meta, br, bc, bigBoardWins[br, bc]));
    }

    /** The cell `(sr, sc)` just played names the next sub-board, unless that one is decided. */
    method ChooseActiveBoard(sr: Idx, sc: Idx)
      requires Shaped()
      modifies this`activeBigBoard
      ensures activeBigBoard == if bigBoardWins[sr, sc] == Undecided then Board(sr, sc) else Anywhere
    {
      if bigBoardWins[sr, sc] != Undecided {
        activeBigBoard := Anywhere;
      } else {
        activeBigBoard := Board(sr, sc);
      }
    }

    /** Pass the turn to the other player unless the ultimate checks report a winner or a draw. */
    method PassTurn()
      requires Shaped()
      modifies this`currentPlayer
      ensures currentPlayer ==
        if UltimateWin(Meta()) == Undecided && !UltimateDraw(Meta()) then Other(old(currentPlayer))
        else old(currentPlayer)
    {
      var ultimateWinner := CheckUltimateWin();
      if ultimateWinner == Undecided {
        var ultimateDraw := CheckUltimateDraw();
        if !ultimateDraw {
          currentPlayer := Other(currentPlayer);
        }
      }
    }

    /** `checkSmallBoardWin`: scan the eight lines in order and stop at the first complete one. */
    method CheckSmallBoardWin(bigRow: Idx, bigCol: Idx) returns (w: Cell)
      requires Shaped()
      ensures w == SmallBoardWin(SubBoard(bigRow, bigCol))
    {
      ghost var board := SubBoard(bigRow, bigCol);
      for k := 0 to |Lines|
        invariant WinnerFrom(board, Empty, k) == SmallBoardWin(board)
      {
        var l := Lines[k];
        var a, b, c := ultimateBoard[bigRow, bigCol, l.a.0, l.a.1],
          ultimateBoard[bigRow, bigCol, l.b.0, l.b.1], ultimateBoard[bigRow, bigCol, l.c.0, l.c.1];
        LineOfSubBoard(bigRow, bigCol, k);
        if a != Empty && a == b && a == c {
          return a;
        }
      }
      return Empty;
    }

    /** Line `k` of a sub-board, read straight from the cells. */
    lemma LineOfSubBoard(br: Idx, bc: Idx, k: nat)
      requires Shaped() && k < |Lines|
      ensures var l, u := Lines[k], ultimateBoard;
        At(SubBoard(br, bc), l.a) == u[br, bc, l.a.0, l.a.1] &&
        (Complete(SubBoard(br, bc), Empty, k) <==>
          u[br, bc, l.a.0, l.a.1] != Empty &&
          u[br, bc, l.a.0, l.a.1] == u[br, bc, l.b.0, l.b.1] &&
          u[br, bc, l.a.0, l.a.1] == u[br, bc, l.c.0, l.c.1])
    {
    }

    /** `checkSmallBoardDraw`: no empty cell, then no complete line. */
    method CheckSmallBoardDraw(bigRow: Idx, bigCol: Idx) returns (d: bool)
      requires Shaped()
      ensures d == SmallBoardDraw(SubBoard(bigRow, bigCol))
    {
      for r := 0 to 3
        invariant forall i: Idx, j: Idx :: i < r ==> ultimateBoard[bigRow, bigCol, i, j] != Empty
      {
        for c := 0 to 3
          invariant forall i: Idx, j: Idx :: i < r ==> ultimateBoard[bigRow, bigCol, i, j] != Empty
          invariant forall j: Idx :: j < c ==> ultimateBoard[bigRow, bigCol, r, j] != Empty
        {
          if ultimateBoard[bigRow, bigCol, r, c] == Empty {
            SubBoardCells(bigRow, bigCol);
            return false;
          }
        }
      }
      SubBoardCells(bigRow, bigCol);
      var w := CheckSmallBoardWin(bigRow, bigCol);
      return w == Empty;
    }

    /** `checkUltimateWin`: the same scan over the outcomes; `Drawn` counts as a value. */
    method CheckUltimateWin() returns (w: Outcome)
      requires Shaped()
      ensures w == UltimateWin(Meta())
    {
      ghost var meta := Meta();
      for k := 0 to |Lines|
        invariant WinnerFrom(meta, Undecided, k) == UltimateWin(meta)
      {
        var l := Lines[k];
        var a := bigBoardWins[l.a.0, l.a.1];
        assert a == At(meta, l.a);
        if a != Undecided && a == bigBoardWins[l.b.0, l.b.1] && a == bigBoardWins[l.c.0, l.c.1] {
          assert Complete(meta, Undecided, k);
          return a;
        }
      }
      return Undecided;
    }

    /** `checkUltimateDraw`: every sub-board decided, then no line found by `checkUltimateWin`. */
    method CheckUltimateDraw() returns (d: bool)
      requires Shaped()
      ensures d == UltimateDraw(Meta())
    {
      for r := 0 to 3
        invariant forall i: Idx, j: Idx :: i < r ==> bigBoardWins[i, j] != Undecided
      {
        for c := 0 to 3
          invariant forall i: Idx, j: Idx :: i < r ==> bigBoardWins[i, j] != Undecided
          invariant forall j: Idx :: j < c ==> bigBoardWins[r, j] != Undecided
        {
          if bigBoardWins[r, c] == Undecided {
            MetaCells();
            return false;
          }
        }
      }
      MetaCells();
      var w := CheckUltimateWin();
      return w == Undecided;
    }
  }
}
