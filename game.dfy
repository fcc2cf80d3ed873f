/**
 * The game controller of the checkers engine (Game in checkers/checkers.py:177-234):
 * whose turn it is, the selected piece, its move map, and the click handler
 * that either plays the selected piece or selects another one.
 */
module GameController {
  import opened Pieces
  import opened MoveGenerator
  import opened BoardState

  /**
   * `g` is `g0` after the piece on `src` moved to the empty `dst` and, on a
   * jump, the piece on `captured` was taken off; no other cell changed.
   */
  ghost predicate Played(g0: Grid, g: Grid, src: Pos, dst: Pos, captured: Option<Pos>)
    requires WellFormed(g0) && WellFormed(g)
    requires IsValidPosition(src.0, src.1) && IsValidPosition(dst.0, dst.1)
  {
    && g[dst.0][dst.1] == g0[src.0][src.1]
    && g[src.0][src.1] == g0[dst.0][dst.1]
    && forall r, c | 0 <= r < Rows && 0 <= c < Cols && (r, c) != src && (r, c) != dst ::
         g[r][c] == if captured == Some((r, c)) then Empty else g0[r][c]
  }

  /** A jump is an exchange of two cells followed by the removal of the piece between them. */
  lemma JumpPlayed(g0: Grid, g1: Grid, g: Grid, src: Pos, dst: Pos, mid: Pos)
    requires WellFormed(g0) && WellFormed(g1)
    requires IsValidPosition(src.0, src.1) && IsValidPosition(dst.0, dst.1)
    requires mid != src && mid != dst
    requires Swapped(g0, g1, src, dst) && Cleared(g1, g, [mid])
    ensures Played(g0, g, src, dst, Some(mid))
  {
    assert ClearedCell(g1, g, [mid], src.0, src.1);
    assert ClearedCell(g1, g, [mid], dst.0, dst.1);
    forall r, c | 0 <= r < Rows && 0 <= c < Cols && (r, c) != src && (r, c) != dst
      ensures g[r][c] == if Some(mid) == Some((r, c)) then Empty else g0[r][c]
    {
      assert ClearedCell(g1, g, [mid], r, c);
    }
  }

  class Game {
    var selected: Option<Piece>
    var board: Board
    var turn: Colour
    var validMoves: map<Pos, Option<Piece>>

    /**
     * The board is valid; a selected piece stands on it, and its move map is
     * either cleared (after a move) or the exact move map of that piece, which
     * then belongs to the side to move.
     */
    ghost predicate Valid()
      reads this, board, board.Pieces()
    {
      && board.Valid()
      && (selected.Some? ==>
            && selected.value in board.Pieces()
            && OnBoard(board.grid, selected.value)
            && (validMoves == map[] ||
                (selected.value.colour == turn &&
                 AreValidMoves(board.grid, selected.value.row, selected.value.col, turn, validMoves))))
    }

    /** Game.__init__: a fresh start position, nothing selected, Red to move. */
    constructor ()
      ensures Valid() && fresh(board) && fresh(board.Pieces()) && board.IsStart()
      ensures selected == None && turn == Red && validMoves == map[]
    {
      selected := None;
      board := new Board();
      turn := Red;
      validMoves := map[];
    }

    /** Game._init: replaces the board by a fresh start position and clears the selection. */
    method Init()
      modifies this
      ensures Valid() && fresh(board) && fresh(board.Pieces()) && board.IsStart()
      ensures selected == None && turn == Red && validMoves == map[]
    {
      selected := None;
      board := new Board();
      turn := Red;
      validMoves := map[];
    }

    /** Game.reset. */
    method Reset()
      modifies this
      ensures Valid() && fresh(board) && fresh(board.Pieces()) && board.IsStart()
      ensures selected == None && turn == Red && validMoves == map[]
    {
      Init();
    }

    /** Game.change_turn: clears the move map and hands the turn to the other side. */
    method ChangeTurn()
      modifies this
      ensures validMoves == map[] && turn == Other(old(turn))
      ensures selected == old(selected) && board == old(board)
    {
      validMoves := map[];
      if turn == Red {
        turn := White;
      } else {
        turn := Red;
      }
    }

    /**
     * The board half of Game._move: moves `mover` to the empty (row, col) and,
     * on a jump, removes the piece it passes over. The game's own fields stay.
     */
    method Advance(mover: Piece, row: int, col: int, skipped: Option<Piece>)
      requires board.Valid() && mover in board.Pieces() && OnBoard(board.grid, mover)
      requires IsDestination(board.grid, mover.row, mover.col, mover.colour, (row, col))
      requires skipped == Captured(board.grid, mover.row, mover.col, mover.colour, (row, col))
      modifies board, mover
      ensures board.Valid()
      ensures var src := old((mover.row, mover.col));
              Played(old(board.grid), board.grid, src, (row, col),
                     if skipped.Some? then Some(Midpoint(src.0, src.1, (row, col))) else None)
      ensures mover.row == row && mover.col == col
      ensures row == 0 || row == Rows - 1 ==>
                && mover.king
                && board.whiteKings == old(board.whiteKings) + (if mover.colour == White then 1 else 0)
                && board.redKings == old(board.redKings) + (if mover.colour == Red then 1 else 0)
      ensures row != 0 && row != Rows - 1 ==>
                && mover.king == old(mover.king)
                && board.whiteKings == old(board.whiteKings) && board.redKings == old(board.redKings)
      ensures board.redLeft == old(board.redLeft) - (if skipped.Some? && mover.colour == White then 1 else 0)
      ensures board.whiteLeft == old(board.whiteLeft) - (if skipped.Some? && mover.colour == Red then 1 else 0)
    {
      ghost var src := (mover.row, mover.col);
      ghost var g0 := board.grid;
      board.Move(mover, row, col);
      if skipped.Some? {
        var taken := skipped.value;
        ghost var mid := Midpoint(src.0, src.1, (row, col));
        ghost var g1 := board.grid;
        assert InStep(g1, mid.0, mid.1);
        assert board.Removable([taken]);
        board.Remove([taken]);
        assert Positions([taken]) == [mid];
        JumpPlayed(g0, g1, board.grid, src, (row, col), mid);
      }
    }

    /**
     * Game._move: when a piece is selected, (row, col) is empty and in its move
     * map, moves the piece there, removes the piece it jumps, and changes the
     * turn; the piece stays selected. Otherwise nothing changes.
     */
    method Move(row: int, col: int) returns (ok: bool)
      requires Valid() && IsValidPosition(row, col)
      modifies this, board, if selected.Some? then {selected.value} else {}
      ensures Valid() && board == old(board) && selected == old(selected)
      ensures ok <==> old(selected.Some? && board.grid[row][col].Empty? && (row, col) in validMoves)
      ensures !ok ==> unchanged(this, board) && (selected.Some? ==> unchanged(selected.value))
      ensures ok ==> old(IsDestination(board.grid, selected.value.row, selected.value.col, turn, (row, col)))
      ensures ok ==>
                var src := old((selected.value.row, selected.value.col));
                var jumped := old(validMoves[(row, col)]).Some?;
                && Played(old(board.grid), board.grid, src, (row, col),
                          if jumped then Some(Midpoint(src.0, src.1, (row, col))) else None)
                && board.grid[row][col] == Occupied(selected.value)
                && selected.value.row == row && selected.value.col == col
                && selected.value.colour == old(turn)
                && turn == Other(old(turn)) && validMoves == map[]
                && board.redLeft == old(board.redLeft) - (if jumped && old(turn) == White then 1 else 0)
                && board.whiteLeft == old(board.whiteLeft) - (if jumped && old(turn) == Red then 1 else 0)
      ensures ok && (row == 0 || row == Rows - 1) ==>
                && selected.value.king
                && board.whiteKings == old(board.whiteKings) + (if old(turn) == White then 1 else 0)
                && board.redKings == old(board.redKings) + (if old(turn) == Red then 1 else 0)
      ensures ok && row != 0 && row != Rows - 1 ==>
                && selected.value.king == old(selected.value.king)
                && board.whiteKings == old(board.whiteKings) && board.redKings == old(board.redKings)
    {
      var piece := board.GetPiece(row, col);
      if selected.Some? && piece.Empty? && (row, col) in validMoves {
        var mover := selected.value;
        assert (row, col) in validMoves;
        Advance(mover, row, col, validMoves[(row, col)]);
        ChangeTurn();
        assert mover in board.Pieces() by {
          assert board.grid[row][col] == Occupied(mover);
        }
      } else {
        return false;
      }
      return true;
    }

    /**
     * Game.select: with a piece selected, first tries to play it to (row, col);
     * if that fails, drops the selection and handles the click afresh. Then,
     * when (row, col) holds a piece of the side to move, selects it, computes
     * its move map and reports true; otherwise reports false and leaves the
     * move map as it was.
     */
    method Select(row: int, col: int) returns (ok: bool)
      requires Valid() && IsValidPosition(row, col)
      modifies this, board, if selected.Some? then {selected.value} else {}
      decreases if selected.Some? then 1 else 0
      ensures Valid() && board == old(board)
      ensures ok <==> board.grid[row][col].Occupied? && board.grid[row][col].piece.colour == turn
      ensures ok ==> selected == Some(board.grid[row][col].piece) &&
                     AreValidMoves(board.grid, row, col, turn, validMoves)
      ensures var moved := old(selected.Some? && board.grid[row][col].Empty? && (row, col) in validMoves);
              moved ==>
                var src := old((selected.value.row, selected.value.col));
                var jumped := old(validMoves[(row, col)]).Some?;
                && Played(old(board.grid), board.grid, src, (row, col),
                          if jumped then Some(Midpoint(src.0, src.1, (row, col))) else None)
                && board.redLeft == old(board.redLeft) - (if jumped && old(turn) == White then 1 else 0)
                && board.whiteLeft == old(board.whiteLeft) - (if jumped && old(turn) == Red then 1 else 0)
                && old(selected).value.colour == old(turn)
                && (row == 0 || row == Rows - 1 ==>
                      && old(selected).value.king
                      && board.whiteKings == old(board.whiteKings) + (if old(turn) == White then 1 else 0)
                      && board.redKings == old(board.redKings) + (if old(turn) == Red then 1 else 0))
                && (row != 0 && row != Rows - 1 ==>
                      && old(selected).value.king == old(selected.value.king)
                      && board.whiteKings == old(board.whiteKings) && board.redKings == old(board.redKings))
      ensures var moved := old(selected.Some? && board.grid[row][col].Empty? && (row, col) in validMoves);
              && (moved ==>
                    && old(IsDestination(board.grid, selected.value.row, selected.value.col, turn, (row, col)))
                    && board.grid[row][col] == Occupied(old(selected).value)
                    && selected == old(selected)
                    && turn == Other(old(turn)) && validMoves == map[])
              && (!moved ==> unchanged(board) && turn == old(turn))
              && (!moved && old(selected).Some? ==> unchanged(old(selected).value))
              && (!moved && !ok ==> selected == None && validMoves == old(validMoves))
    {
      if selected.Some? {
        var result := Move(row, col);
        if !result {
          selected := None;
          var retried := Select(row, col);
        }
      }
      var piece := board.GetPiece(row, col);
      if piece.Occupied? && piece.piece.colour == turn {
        selected := Some(piece.piece);
        validMoves := board.GetValidMoves(piece.piece);
        return true;
      }
      return false;
    }
  }
}
