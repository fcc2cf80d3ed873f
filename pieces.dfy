/**
 * Pieces, cells and the 8x8 grid of the checkers engine (checkers/checkers.py).
 *
 * The source keeps RGB tuples for the two sides and the integer 0 as the
 * empty marker of a cell; here the sides are a two-value enum and a cell is
 * either Empty or Occupied by a reference to a Piece object.
 */
module Pieces {

  /** The two sides. Red moves first. */
  datatype Colour = Red | White

  datatype Option<T> = None | Some(value: T)

  /** A cell coordinate (row, col). */
  type Pos = (int, int)

  const Rows: int := 8
  const Cols: int := 8

  /** The side that moves after `c` (Game.change_turn). */
  function Other(c: Colour): (r: Colour)
    ensures r != c
  {
    if c == Red then White else Red
  }

  /** A piece on the board. Its colour never changes; its position and rank do. */
  class Piece {
    var row: int
    var col: int
    const colour: Colour
    var king: bool

    constructor (row: int, col: int, colour: Colour)
      ensures this.row == row && this.col == col && this.colour == colour
      ensures !king
    {
      this.row := row;
      this.col := col;
      this.colour := colour;
      king := false;
    }

    method MakeKing()
      modifies this
      ensures king
      ensures row == old(row) && col == old(col)
    {
      king := true;
    }

    method Move(row: int, col: int)
      modifies this
      ensures this.row == row && this.col == col
      ensures king == old(king)
    {
      this.row := row;
      this.col := col;
    }
  }

  datatype Cell = Empty | Occupied(piece: Piece)

  /** The board as a list of rows, each a list of cells. */
  type Grid = seq<seq<Cell>>

  /** Board.is_valid_position: the coordinate lies on the 8x8 board. */
  predicate IsValidPosition(row: int, col: int)
  {
    0 <= row < Rows && 0 <= col < Cols
  }

  /** The grid has 8 rows of 8 cells. */
  ghost predicate WellFormed(g: Grid)
  {
    |g| == Rows && forall r :: 0 <= r < Rows ==> |g[r]| == Cols
  }

  /** The side occupying a cell, if any. */
  function Owner(x: Cell): Option<Colour>
  {
    if x.Occupied? then Some(x.piece.colour) else None
  }

  /** Every piece the grid holds. */
  ghost function PiecesIn(g: Grid): set<Piece>
  {
    set r, c | 0 <= r < |g| && 0 <= c < |g[r]| && g[r][c].Occupied? :: g[r][c].piece
  }

  /** The cell (r, c) is empty or holds a piece that records (r, c) as its position. */
  ghost predicate InStep(g: Grid, r: int, c: int)
    requires WellFormed(g) && IsValidPosition(r, c)
    reads if g[r][c].Occupied? then {g[r][c].piece} else {}
  {
    g[r][c].Occupied? ==> g[r][c].piece.row == r && g[r][c].piece.col == c
  }

  /** Every piece on the grid records the cell that holds it. */
  ghost predicate Synced(g: Grid)
    requires WellFormed(g)
    reads PiecesIn(g)
  {
    forall r, c | 0 <= r < Rows && 0 <= c < Cols :: InStep(g, r, c)
  }

  /** The piece `p` sits in the cell its own row and col name. */
  ghost predicate OnBoard(g: Grid, p: Piece)
    requires WellFormed(g)
    reads p
  {
    IsValidPosition(p.row, p.col) && g[p.row][p.col] == Occupied(p)
  }
}
