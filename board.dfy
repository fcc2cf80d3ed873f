/**
 * The board of the checkers engine (Board in checkers/checkers.py:75-167):
 * the grid, the four counters, set-up, relocation with promotion, removal,
 * and the move scan.
 */
module BoardState {
  import opened Pieces
  import opened MoveGenerator

  /** 1 when the cell holds a piece of side `colour`, else 0. */
  function Tally(x: Cell, colour: Colour): nat
  {
    if Owner(x) == Some(colour) then 1 else 0
  }

  /** The number of pieces of side `colour` in one row. */
  function CountRow(s: seq<Cell>, colour: Colour): nat
  {
    if s == [] then 0 else CountRow(s[..|s| - 1], colour) + Tally(s[|s| - 1], colour)
  }

  /** The number of pieces of side `colour` on the grid. */
  function CountGrid(g: Grid, colour: Colour): nat
  {
    if g == [] then 0 else CountGrid(g[..|g| - 1], colour) + CountRow(g[|g| - 1], colour)
  }

  /** The number of entries of side `colour` in a list of pieces, repeats included. */
  function CountListed(ps: seq<Piece>, colour: Colour): nat
  {
    if ps == [] then 0
    else CountListed(ps[..|ps| - 1], colour) + (if ps[|ps| - 1].colour == colour then 1 else 0)
  }

  /** Listing one more piece raises its side's count by one. */
  lemma CountListedNext(ps: seq<Piece>, k: int, colour: Colour)
    requires 0 <= k < |ps|
    ensures CountListed(ps[..k + 1], colour) == CountListed(ps[..k], colour) + (if ps[k].colour == colour then 1 else 0)
  {
    assert ps[..k + 1][..k] == ps[..k];
  }

  /** Overwriting one cell changes a row's count by what left and what came. */
  lemma {:induction false} CountRowUpdate(s: seq<Cell>, i: int, x: Cell, colour: Colour)
    requires 0 <= i < |s|
    ensures CountRow(s[i := x], colour) == CountRow(s, colour) - Tally(s[i], colour) + Tally(x, colour)
  {
    var n := |s| - 1;
    if i == n {
      assert s[i := x][..n] == s[..n];
    } else {
      assert s[i := x][..n] == s[..n][i := x];
      CountRowUpdate(s[..n], i, x, colour);
    }
  }

  /** Overwriting one cell changes the grid's count by what left and what came. */
  lemma {:induction false} CountGridUpdate(g: Grid, r: int, c: int, x: Cell, colour: Colour)
    requires 0 <= r < |g| && 0 <= c < |g[r]|
    ensures CountGrid(g[r := g[r][c := x]], colour) == CountGrid(g, colour) - Tally(g[r][c], colour) + Tally(x, colour)
  {
    var n := |g| - 1;
    var g' := g[r := g[r][c := x]];
    if r == n {
      assert g'[..n] == g[..n];
      CountRowUpdate(g[r], c, x, colour);
    } else {
      assert g'[..n] == g[..n][r := g[..n][r][c := x]];
      CountGridUpdate(g[..n], r, c, x, colour);
    }
  }

  // ---------------------------------------------------------------------------
  // The start position (Board.create_board)
  // ---------------------------------------------------------------------------

  /** The side that starts on row r: White on rows 0-2, Red on rows 5-7. */
  function RowColour(r: int): Option<Colour>
  {
    if r < 3 then Some(White) else if r > 4 then Some(Red) else None
  }

  /** The side that starts on (r, c): only cells with r + c odd are used. */
  function StartOwner(r: int, c: int): Option<Colour>
  {
    if c % 2 == (r + 1) % 2 then RowColour(r) else None
  }

  /** A cell as create_board leaves it at (r, c). */
  ghost predicate StartCell(x: Cell, r: int, c: int)
    reads if x.Occupied? then {x.piece} else {}
  {
    && Owner(x) == StartOwner(r, c)
    && (x.Occupied? ==> x.piece.row == r && x.piece.col == c && !x.piece.king)
  }

  /** The rows appended so far are the first rows of the start position. */
  ghost predicate StartRows(rs: Grid)
    reads PiecesIn(rs)
  {
    && |rs| <= Rows
    && (forall r | 0 <= r < |rs| :: |rs[r]| == Cols)
    && forall r, c | 0 <= r < |rs| && 0 <= c < Cols :: StartCell(rs[r][c], r, c)
  }

  /** An appended empty row holds no piece. */
  lemma EmptyRowPieces(g: Grid)
    ensures PiecesIn(g + [[]]) == PiecesIn(g)
  {
    var g' := g + [[]];
    forall p | p in PiecesIn(g')
      ensures p in PiecesIn(g)
    {
      var r, c :| 0 <= r < |g'| && 0 <= c < |g'[r]| && g'[r][c].Occupied? && g'[r][c].piece == p;
      assert g[r][c] == g'[r][c];
    }
    forall p | p in PiecesIn(g)
      ensures p in PiecesIn(g')
    {
      var r, c :| 0 <= r < |g| && 0 <= c < |g[r]| && g[r][c].Occupied? && g[r][c].piece == p;
      assert g[r][c] == g'[r][c];
    }
  }

  /** Appending cell `x` to row `row` adds to the grid's pieces at most the piece `x` holds. */
  lemma AppendedPieces(g: Grid, row: int, x: Cell)
    requires 0 <= row < |g|
    ensures PiecesIn(g[row := g[row] + [x]]) <= PiecesIn(g) + (if x.Occupied? then {x.piece} else {})
  {
    var g' := g[row := g[row] + [x]];
    forall p | p in PiecesIn(g')
      ensures p in PiecesIn(g) || (x.Occupied? && p == x.piece)
    {
      var r, c :| 0 <= r < |g'| && 0 <= c < |g'[r]| && g'[r][c].Occupied? && g'[r][c].piece == p;
      if r != row || c < |g[row]| {
        assert g[r][c] == g'[r][c];
      }
    }
  }

  /** The first k cells of a start row hold this many pieces of `colour`. */
  lemma {:induction false} StartRowPrefix(s: seq<Cell>, r: int, colour: Colour, k: nat)
    requires 0 <= r && k <= |s|
    requires forall c | 0 <= c < |s| :: Owner(s[c]) == StartOwner(r, c)
    ensures CountRow(s[..k], colour) == if RowColour(r) == Some(colour) then (k + r % 2) / 2 else 0
  {
    if k > 0 {
      assert s[..k][..k - 1] == s[..k - 1];
      StartRowPrefix(s, r, colour, k - 1);
    }
  }

  /** The first k rows of a start grid hold this many pieces of `colour`. */
  lemma {:induction false} StartGridPrefix(g: Grid, colour: Colour, k: nat)
    requires WellFormed(g) && k <= Rows
    requires forall r, c | 0 <= r < Rows && 0 <= c < Cols :: Owner(g[r][c]) == StartOwner(r, c)
    ensures CountGrid(g[..k], colour) ==
            if colour == White then 4 * (if k < 3 then k else 3)
            else 4 * (if k < 5 then 0 else k - 5)
  {
    if k > 0 {
      assert g[..k][..k - 1] == g[..k - 1];
      StartGridPrefix(g, colour, k - 1);
      var s := g[k - 1];
      StartRowPrefix(s, k - 1, colour, Cols);
      assert s[..Cols] == s;
    }
  }

  /** A start grid holds twelve pieces of each side. */
  lemma StartCounts(g: Grid)
    requires WellFormed(g)
    requires forall r, c | 0 <= r < Rows && 0 <= c < Cols :: Owner(g[r][c]) == StartOwner(r, c)
    ensures CountGrid(g, Red) == 12 && CountGrid(g, White) == 12
  {
    StartGridPrefix(g, Red, Rows);
    StartGridPrefix(g, White, Rows);
    assert g[..Rows] == g;
  }

  // ---------------------------------------------------------------------------
  // The board
  // ---------------------------------------------------------------------------

  /** `g1` is `g0` with the contents of cells `a` and `b` exchanged. */
  ghost predicate Swapped(g0: Grid, g1: Grid, a: Pos, b: Pos)
    requires WellFormed(g0) && WellFormed(g1)
    requires IsValidPosition(a.0, a.1) && IsValidPosition(b.0, b.1)
  {
    && g1[b.0][b.1] == g0[a.0][a.1]
    && g1[a.0][a.1] == g0[b.0][b.1]
    && forall r, c | 0 <= r < Rows && 0 <= c < Cols && (r, c) != a && (r, c) != b :: g1[r][c] == g0[r][c]
  }

  /** The cells the pieces of `ps` record, in order. */
  ghost function Positions(ps: seq<Piece>): seq<Pos>
    reads set i | 0 <= i < |ps| :: ps[i]
  {
    seq(|ps|, i requires 0 <= i < |ps| reads ps => (ps[i].row, ps[i].col))
  }

  /** The cell (r, c) of `g` is emptied when it is listed in `cells`, and is as in `g0` otherwise. */
  ghost predicate ClearedCell(g0: Grid, g: Grid, cells: seq<Pos>, r: int, c: int)
    requires WellFormed(g0) && WellFormed(g) && IsValidPosition(r, c)
  {
    g[r][c] == if (r, c) in cells then Empty else g0[r][c]
  }

  /** `g` is `g0` with every cell listed in `cells` emptied. */
  ghost predicate Cleared(g0: Grid, g: Grid, cells: seq<Pos>)
  {
    && WellFormed(g0) && WellFormed(g)
    && forall r, c | 0 <= r < Rows && 0 <= c < Cols :: ClearedCell(g0, g, cells, r, c)
  }

  /** Emptying the next listed cell extends the cleared prefix by that cell. */
  lemma ClearOneMore(g0: Grid, g: Grid, g': Grid, cells: seq<Pos>, k: int)
    requires 0 <= k < |cells| && IsValidPosition(cells[k].0, cells[k].1)
    requires Cleared(g0, g, cells[..k])
    requires g' == g[cells[k].0 := g[cells[k].0][cells[k].1 := Empty]]
    ensures Cleared(g0, g', cells[..k + 1])
  {
    var cells' := cells[..k + 1];
    assert cells' == cells[..k] + [cells[k]];
    forall r, c | 0 <= r < Rows && 0 <= c < Cols
      ensures ClearedCell(g0, g', cells', r, c)
    {
      assert ClearedCell(g0, g, cells[..k], r, c);
    }
  }

  /** Each listed cell of `g0` holds the piece listed with it, and no cell is listed twice. */
  ghost predicate Holding(g0: Grid, cells: seq<Pos>, ps: seq<Piece>)
  {
    && WellFormed(g0) && |cells| == |ps|
    && (forall i | 0 <= i < |cells| ::
          IsValidPosition(cells[i].0, cells[i].1) && g0[cells[i].0][cells[i].1] == Occupied(ps[i]))
    && forall i, j | 0 <= i < j < |cells| :: cells[i] != cells[j]
  }

  /** Distinct pieces standing on the board occupy distinct cells, the ones they record. */
  lemma HoldingListed(g0: Grid, ps: seq<Piece>)
    requires WellFormed(g0)
    requires forall i | 0 <= i < |ps| :: OnBoard(g0, ps[i])
    requires forall i, j | 0 <= i < j < |ps| :: ps[i] != ps[j]
    ensures Holding(g0, Positions(ps), ps)
  {
    var cells := Positions(ps);
    forall i, j | 0 <= i < j < |cells|
      ensures cells[i] != cells[j]
    {
      assert OnBoard(g0, ps[i]) && OnBoard(g0, ps[j]);
    }
  }

  /**
   * Emptying the next listed cell of a grid whose earlier listed cells are
   * already emptied removes exactly the piece listed with it from the counts.
   */
  lemma ClearedCount(g0: Grid, g: Grid, g': Grid, cells: seq<Pos>, ps: seq<Piece>, k: int)
    requires Holding(g0, cells, ps) && 0 <= k < |cells|
    requires Cleared(g0, g, cells[..k])
    requires g' == g[cells[k].0 := g[cells[k].0][cells[k].1 := Empty]]
    ensures CountGrid(g', Red) == CountGrid(g, Red) - (if ps[k].colour == Red then 1 else 0)
    ensures CountGrid(g', White) == CountGrid(g, White) - (if ps[k].colour == White then 1 else 0)
  {
    var c := cells[k];
    assert c !in cells[..k] by {
      forall i | 0 <= i < k
        ensures cells[..k][i] != c
      {
      }
    }
    assert ClearedCell(g0, g, cells[..k], c.0, c.1);
    CountGridUpdate(g, c.0, c.1, Empty, Red);
    CountGridUpdate(g, c.0, c.1, Empty, White);
  }

  /** Emptying cells of a grid in step leaves it in step. */
  lemma ClearedSynced(g0: Grid, g: Grid, cells: seq<Pos>)
    requires Cleared(g0, g, cells) && Synced(g0)
    ensures Synced(g)
  {
    forall r, c | 0 <= r < Rows && 0 <= c < Cols
      ensures InStep(g, r, c)
    {
      assert ClearedCell(g0, g, cells, r, c);
      assert InStep(g0, r, c);
    }
  }

  /** Exchanging two cells, as Board.move does, keeps every other cell and both counts. */
  lemma ExchangeCells(g0: Grid, a: Pos, b: Pos)
    requires WellFormed(g0) && IsValidPosition(a.0, a.1) && IsValidPosition(b.0, b.1)
    ensures var g1 := g0[a.0 := g0[a.0][a.1 := g0[b.0][b.1]]];
            var g2 := g1[b.0 := g1[b.0][b.1 := g0[a.0][a.1]]];
            && WellFormed(g2) && Swapped(g0, g2, a, b)
            && CountGrid(g2, Red) == CountGrid(g0, Red)
            && CountGrid(g2, White) == CountGrid(g0, White)
  {
    var g1 := g0[a.0 := g0[a.0][a.1 := g0[b.0][b.1]]];
    CountGridUpdate(g0, a.0, a.1, g0[b.0][b.1], Red);
    CountGridUpdate(g0, a.0, a.1, g0[b.0][b.1], White);
    CountGridUpdate(g1, b.0, b.1, g0[a.0][a.1], Red);
    CountGridUpdate(g1, b.0, b.1, g0[a.0][a.1], White);
  }

  /**
   * After a piece moves from `src` to an empty `dst` and records `dst`, every
   * piece on the board is again in step with its cell.
   */
  lemma SyncedAfterRelocation(g0: Grid, g: Grid, src: Pos, dst: Pos, piece: Piece)
    requires WellFormed(g0) && WellFormed(g)
    requires IsValidPosition(src.0, src.1) && IsValidPosition(dst.0, dst.1)
    requires Swapped(g0, g, src, dst)
    requires g0[src.0][src.1] == Occupied(piece) && (g0[dst.0][dst.1].Empty? || src == dst)
    requires piece.row == dst.0 && piece.col == dst.1
    requires forall r, c | 0 <= r < Rows && 0 <= c < Cols && (r, c) != src :: InStep(g0, r, c)
    ensures Synced(g)
  {
    forall r, c | 0 <= r < Rows && 0 <= c < Cols
      ensures InStep(g, r, c)
    {
      if (r, c) != dst && (r, c) != src {
        assert g[r][c] == g0[r][c];
        assert InStep(g0, r, c);
      }
    }
  }

  class Board {
    var grid: Grid
    var redLeft: int
    var whiteLeft: int
    var redKings: nat
    var whiteKings: nat

    ghost function Pieces(): set<Piece>
      reads this
    {
      PiecesIn(grid)
    }

    /** 8x8, every piece in step with its cell, and the live counters equal to the grid's counts. */
    ghost predicate Valid()
      reads this, Pieces()
    {
      && WellFormed(grid)
      && Synced(grid)
      && redLeft == CountGrid(grid, Red)
      && whiteLeft == CountGrid(grid, White)
    }

    /** The position create_board sets up, with the counters __init__ sets. */
    ghost predicate IsStart()
      reads this, Pieces()
    {
      && WellFormed(grid)
      && (forall r, c | 0 <= r < Rows && 0 <= c < Cols :: StartCell(grid[r][c], r, c))
      && redLeft == 12 && whiteLeft == 12
      && redKings == 0 && whiteKings == 0
    }

    constructor ()
      ensures Valid() && IsStart() && fresh(Pieces())
    {
      grid := [];
      redLeft, whiteLeft := 12, 12;
      redKings, whiteKings := 0, 0;
      new;
      CreateBoard();
      StartCounts(grid);
    }

    /**
     * Board.create_board: appends eight rows to the empty grid, filling row r
     * cell by cell with the start position.
     */
    method CreateBoard()
      requires grid == []
      modifies this
      ensures |grid| == Rows && StartRows(grid) && fresh(PiecesIn(grid))
      ensures redLeft == old(redLeft) && whiteLeft == old(whiteLeft)
      ensures redKings == old(redKings) && whiteKings == old(whiteKings)
    {
      for row := 0 to Rows
        invariant |grid| == row && StartRows(grid)
        invariant fresh(PiecesIn(grid))
        invariant redLeft == old(redLeft) && whiteLeft == old(whiteLeft)
        invariant redKings == old(redKings) && whiteKings == old(whiteKings)
      {
        EmptyRowPieces(grid);
        grid := grid + [[]];
        for col := 0 to Cols
          invariant |grid| == row + 1 && |grid[row]| == col
          invariant StartRows(grid[..row])
          invariant forall c | 0 <= c < col :: StartCell(grid[row][c], row, c)
          invariant fresh(PiecesIn(grid))
          invariant redLeft == old(redLeft) && whiteLeft == old(whiteLeft)
          invariant redKings == old(redKings) && whiteKings == old(whiteKings)
        {
          var x: Cell;
          if col % 2 == (row + 1) % 2 {
            if row < 3 {
              var p := new Piece(row, col, White);
              x := Occupied(p);
            } else if row > 4 {
              var p := new Piece(row, col, Red);
              x := Occupied(p);
            } else {
              x := Empty;
            }
          } else {
            x := Empty;
          }
          assert grid[row := grid[row] + [x]][..row] == grid[..row];
          AppendedPieces(grid, row, x);
          grid := grid[row := grid[row] + [x]];
        }
        assert grid[..row] + [grid[row]] == grid;
      }
    }

    /** Board.get_piece: the cell at (row, col). */
    function GetPiece(row: int, col: int): (x: Cell)
      reads this, Pieces()
      requires WellFormed(grid) && IsValidPosition(row, col)
      ensures x.Occupied? ==> x.piece in Pieces()
      ensures Valid() && x.Occupied? ==> x.piece.row == row && x.piece.col == col
    {
      assert Valid() ==> InStep(grid, row, col);
      grid[row][col]
    }

    /**
     * Board.move: exchanges the piece's cell with (row, col), records the new
     * position in the piece, and on row 0 or 7 makes it a king and bumps its
     * side's king counter, whether or not it already was a king.
     */
    method Move(piece: Piece, row: int, col: int)
      requires WellFormed(grid)
      requires IsValidPosition(piece.row, piece.col) && IsValidPosition(row, col)
      modifies this, piece
      ensures WellFormed(grid)
      ensures Swapped(old(grid), grid, (old(piece.row), old(piece.col)), (row, col))
      ensures piece.row == row && piece.col == col
      ensures redLeft == old(redLeft) && whiteLeft == old(whiteLeft)
      ensures CountGrid(grid, Red) == old(CountGrid(grid, Red))
      ensures CountGrid(grid, White) == old(CountGrid(grid, White))
      ensures row == 0 || row == Rows - 1 ==>
                && piece.king
                && whiteKings == old(whiteKings) + (if piece.colour == White then 1 else 0)
                && redKings == old(redKings) + (if piece.colour == Red then 1 else 0)
      ensures row != 0 && row != Rows - 1 ==>
                piece.king == old(piece.king) && whiteKings == old(whiteKings) && redKings == old(redKings)
      ensures (old(Valid()) && old(OnBoard(grid, piece)) &&
               (old(grid[row][col]).Empty? || (row, col) == (old(piece.row), old(piece.col)))) ==> Valid()
    {
      var r0, c0 := piece.row, piece.col;
      ghost var g0: Grid := grid;
      var src, dst := grid[r0][c0], grid[row][col];
      grid := grid[r0 := grid[r0][c0 := dst]];
      grid := grid[row := grid[row][col := src]];
      ExchangeCells(g0, (r0, c0), (row, col));
      piece.Move(row, col);
      if row == Rows - 1 || row == 0 {
        piece.MakeKing();
        if piece.colour == White {
          whiteKings := whiteKings + 1;
        } else {
          redKings := redKings + 1;
        }
      }
      if old(Valid()) && old(OnBoard(grid, piece)) && (dst.Empty? || (row, col) == (r0, c0)) {
        forall r, c | 0 <= r < Rows && 0 <= c < Cols && (r, c) != (r0, c0)
          ensures InStep(g0, r, c)
        {
          assert old(InStep(g0, r, c));
        }
        SyncedAfterRelocation(g0, grid, (r0, c0), (row, col), piece);
      }
    }

    /** The pieces listed for removal are on the board, each once. */
    ghost predicate Removable(pieces: seq<Piece>)
      reads this, Pieces(), set i | 0 <= i < |pieces| :: pieces[i]
    {
      && Valid()
      && (forall i | 0 <= i < |pieces| :: OnBoard(grid, pieces[i]))
      && (forall i, j | 0 <= i < j < |pieces| :: pieces[i] != pieces[j])
    }

    /**
     * Board.remove: empties the cell each listed piece records and decrements
     * that piece's side's live counter once per entry, without looking at
     * what the cell held.
     */
    method Remove(pieces: seq<Piece>)
      requires WellFormed(grid)
      requires forall i | 0 <= i < |pieces| :: IsValidPosition(pieces[i].row, pieces[i].col)
      modifies this
      ensures WellFormed(grid) && Cleared(old(grid), grid, Positions(pieces))
      ensures redLeft == old(redLeft) - CountListed(pieces, Red)
      ensures whiteLeft == old(whiteLeft) - CountListed(pieces, White)
      ensures redKings == old(redKings) && whiteKings == old(whiteKings)
      ensures old(Removable(pieces)) ==> Valid()
    {
      ghost var g0: Grid := grid;
      ghost var tidy := Removable(pieces);
      ghost var cells := Positions(pieces);
      if tidy {
        HoldingListed(g0, pieces);
      }
      assert Cleared(g0, grid, cells[..0]);
      for k := 0 to |pieces|
        invariant WellFormed(grid) && Cleared(g0, grid, cells[..k])
        invariant redLeft == old(redLeft) - CountListed(pieces[..k], Red)
        invariant whiteLeft == old(whiteLeft) - CountListed(pieces[..k], White)
        invariant redKings == old(redKings) && whiteKings == old(whiteKings)
        invariant tidy ==> redLeft == CountGrid(grid, Red) && whiteLeft == CountGrid(grid, White)
      {
        var piece := pieces[k];
        ghost var g1 := grid;
        ghost var g2 := g1[piece.row := g1[piece.row][piece.col := Empty]];
        if tidy {
          ClearedCount(g0, g1, g2, cells, pieces, k);
        }
        ClearOneMore(g0, g1, g2, cells, k);
        CountListedNext(pieces, k, Red);
        CountListedNext(pieces, k, White);
        grid := grid[piece.row := grid[piece.row][piece.col := Empty]];
        if piece.colour == Red {
          redLeft := redLeft - 1;
        } else {
          whiteLeft := whiteLeft - 1;
        }
      }
      assert cells[..|pieces|] == cells && pieces[..|pieces|] == pieces;
      if tidy {
        ClearedSynced(g0, grid, cells);
      }
    }

    /**
     * Board.get_valid_moves: scans both row directions (Red -1 first, White +1
     * first) and both column offsets; a free step cell is recorded with None,
     * otherwise a free jump cell beyond an opposing piece is recorded with
     * that piece. It only reads the board.
     */
    method GetValidMoves(piece: Piece) returns (moves: map<Pos, Option<Piece>>)
      requires WellFormed(grid) && IsValidPosition(piece.row, piece.col)
      ensures AreValidMoves(grid, piece.row, piece.col, piece.colour, moves)
    {
      moves := map[];
      var directions := Directions(piece.colour);
      var offsets := [-1, 1];
      for i := 0 to |directions|
        invariant moves == Scanned(grid, piece.row, piece.col, piece.colour, 2 * i)
      {
        var direction := directions[i];
        for j := 0 to |offsets|
          invariant moves == Scanned(grid, piece.row, piece.col, piece.colour, 2 * i + j)
        {
          var offset := offsets[j];
          ghost var before := moves;
          var newRow, newCol := piece.row + direction, piece.col + offset;
          if IsValidPosition(newRow, newCol) && grid[newRow][newCol].Empty? {
            moves := moves[(newRow, newCol) := None];
          } else {
            var captureRow, captureCol := newRow + direction, newCol + offset;
            if IsValidPosition(captureRow, captureCol) && grid[captureRow][captureCol].Empty? {
              var middle := grid[newRow][newCol];
              if middle.Occupied? && middle.piece.colour != piece.colour {
                moves := moves[(captureRow, captureCol) := Some(middle.piece)];
              }
            }
          }
          assert direction == ScanDirection(piece.colour, 2 * i + j) && offset == ScanOffset(2 * i + j);
          assert moves == ScanOnce(grid, piece.row, piece.col, piece.colour, direction, offset, before);
        }
      }
      AllScanned(grid, piece.row, piece.col, piece.colour);
    }
  }
}
