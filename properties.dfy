/**
 * What callers of the game can conclude from the contracts of
 * UltimateGame alone, combined with the lemmas of Rules.
 */
module GameProperties {
  import opened Rules
  import opened Game

  /**
   * A click never decides anything in the opponent's favour: the sub-board
   * played in is not given to the other player, and when no line of the
   * meta-grid was complete before, the only line the move can complete
   * holds the outcome it just recorded.
   */
  method ClickFavoursMover(g: UltimateGame, br: Idx, bc: Idx, sr: Idx, sc: Idx) returns (result: MoveResult)
    requires g.Valid()
    modifies g`currentPlayer, g`activeBigBoard, g.ultimateBoard, g.bigBoardWins
    ensures g.Valid()
    ensures result == Played ==> g.bigBoardWins[br, bc] != Won(Other(old(g.currentPlayer)))
    ensures result == Played && old(UltimateWin(g.Meta())) == Undecided ==>
      UltimateWin(g.Meta()) in {Undecided, g.bigBoardWins[br, bc]}
  {
    ghost var board, meta, mover := g.SubBoard(br, bc), g.Meta(), g.currentPlayer;
    g.SubBoardCells(br, bc);
    g.MetaCells();
    assert g.Recorded(br, bc);
    result := g.HandleCellClick(br, bc, sr, sc);
    if result == Played {
      MoveNeverWinsForOpponent(board, sr, sc, mover);
      if UltimateWin(meta) == Undecided {
        RecordCompletesOnly(meta, br, bc, g.bigBoardWins[br, bc]);
      }
    }
  }

  /**
   * Once a line of the meta-grid is complete the game stays over, yet moves
   * are still taken: a click after the end keeps the game over and never
   * passes the turn, so the last mover keeps moving.
   */
  method ClickAfterWinKeepsPlayer(g: UltimateGame, br: Idx, bc: Idx, sr: Idx, sc: Idx) returns (result: MoveResult)
    requires g.Valid() && UltimateWin(g.Meta()) != Undecided
    modifies g`currentPlayer, g`activeBigBoard, g.ultimateBoard, g.bigBoardWins
    ensures g.Valid()
    ensures UltimateWin(g.Meta()) != Undecided
    ensures g.currentPlayer == old(g.currentPlayer)
  {
    ghost var meta := g.Meta();
    g.MetaCells();
    result := g.HandleCellClick(br, bc, sr, sc);
    g.MetaCells();
    OverStaysOver(meta, g.Meta());
  }

  /**
   * A game that `checkUltimateDraw` ended has every sub-board decided, so
   * every later click is refused and nothing changes.
   */
  method ClickAfterDrawIsRefused(g: UltimateGame, br: Idx, bc: Idx, sr: Idx, sc: Idx) returns (result: MoveResult)
    requires g.Valid() && UltimateDraw(g.Meta())
    modifies g`currentPlayer, g`activeBigBoard, g.ultimateBoard, g.bigBoardWins
    ensures result != Played
    ensures g.currentPlayer == old(g.currentPlayer)
    ensures UltimateDraw(g.Meta())
  {
    g.MetaCells();
    g.VerdictPlayed(br, bc, sr, sc);
    result := g.HandleCellClick(br, bc, sr, sc);
  }

  /**
   * The opening move `(0, 0, 1, 1)` sends the opponent to the centre board:
   * a reply elsewhere is refused and changes nothing.
   */
  method OpeningMoveSendsToCentre() {
    var g := new UltimateGame();
    var result := g.HandleCellClick(0, 0, 1, 1);
    assert result == Played;
    assert g.ultimateBoard[0, 0, 1, 1] == Occupied(X);
    assert g.activeBigBoard == Board(1, 1);
    assert g.currentPlayer == O;
    forall br: Idx, bc: Idx, sr: Idx, sc: Idx | (br, bc) != (1, 1)
      ensures g.Verdict(br, bc, sr, sc) == NotActiveBoard
    {
    }
    result := g.HandleCellClick(0, 0, 0, 0);
    assert result == NotActiveBoard;
    assert g.currentPlayer == O && g.ultimateBoard[0, 0, 0, 0] == Empty;
    result := g.HandleCellClick(0, 0, 1, 1);
    assert result == NotActiveBoard;
  }
}
