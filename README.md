# Checkers rule engine in Dafny

This project models the rule engine of a two-player checkers game
(`checkers/checkers.py`) and proves properties of the model. The engine has
three parts:

- **Pieces and the board** (`pieces.dfy`, `board.dfy`).
  - A `Piece` object records its row, column, side and king flag.
  - The `Board` object holds an 8x8 grid of cells and four counters: the live pieces of each side and the kings of each side.
  - A cell is `Empty` (the source's `0`) or `Occupied` by a reference to a `Piece`. References are kept, so the grid, the selection and the move map share the same piece objects, as they do in the source.
  - `Board` sets up the start position, relocates a piece (promoting it on row 0 or 7) and removes pieces.
- **Move generation** (`moves.dfy`, and `Board.GetValidMoves` in `board.dfy`).
  - `AreValidMoves` states the moves of a piece declaratively. A move is a one-square diagonal step onto an empty cell, mapped to `None`. Or it is a two-square diagonal jump onto an empty cell over a piece of the other side, mapped to that piece.
  - `Scanned` folds the four scans the source performs, one per (row direction, column offset) pair, in the source's order.
  - The lemmas prove the two definitions agree. `GetValidMoves` is the source's nested loop, proved to return exactly `AreValidMoves`.
  - Board positions are checked with `IsValidPosition` (`Board.is_valid_position`, lines 163-167).
- **The turn and selection state machine** (`game.dfy`). A `Game` holds:
  - the board;
  - the side to move;
  - the selected piece;
  - the selected piece's move map.

  `Select` handles a click and `Move` is `_move`. The invariant `Game.Valid` holds after construction and after every click. It says:
  - the counters equal the grid's counts;
  - every piece records the cell that holds it;
  - a selected piece stands on the board;
  - its move map is either empty or its exact move map, and in that case it belongs to the side to move.

The sides are the enum `Colour = Red | White` instead of RGB tuples. Red moves first.

Where the code departs from the usual rules of checkers, the model follows the code:
- `get_valid_moves` scans both row directions for every piece, man or king (line 138). A man can therefore step and jump backwards.
- `Board.move` makes a piece a king and bumps its side's king counter on every landing on row 0 or 7. This happens even when the piece already was a king (lines 116-121), so one piece can be counted as a king several times.
- `Board.remove` empties the cell each listed piece records and decrements its side's counter without looking at what the cell held (lines 123-130).
- After a successful move, `select` keeps the moved piece selected and returns false (lines 196-209). The selection is not cleared.
- After a click that neither plays the selected piece nor selects one, `selected` is cleared but the move map is left as it was (line 200).

## Model

| member | source | states |
|---|---|---|
| Pieces.Other | checkers/checkers.py:229-234 | the side that moves next is the other side |
| Pieces.Piece.constructor | checkers/checkers.py:37-41 | a new piece records its cell and side and is not a king |
| Pieces.Piece.MakeKing | checkers/checkers.py:57-58 | the piece becomes a king and keeps its position |
| Pieces.Piece.Move | checkers/checkers.py:70-73 | the piece records the new cell and keeps its king flag |
| BoardState.Board.constructor | checkers/checkers.py:76-80 | a new board is the start position: White on the cells with row + col odd in rows 0-2, Red on those cells in rows 5-7, all else empty; 24 newly created pieces, 12 live pieces and 0 kings per side; the board is valid (counters equal the grid's counts, every piece in step with its cell) |
| BoardState.Board.CreateBoard | checkers/checkers.py:82-94 | from the empty grid, appends eight rows and fills row r cell by cell with the start position, each piece a newly created man recording its own cell; counters untouched |
| BoardState.StartCounts | checkers/checkers.py:76-94 | a grid laid out as the start position holds exactly 12 pieces of each side, so the counters __init__ sets match the grid |
| BoardState.Board.GetPiece | checkers/checkers.py:95-96 | the cell at (row, col); a piece found there is on the board and, on a valid board, records (row, col) |
| BoardState.Board.Move | checkers/checkers.py:112-121 | the piece's cell and the target cell are exchanged and nothing else on the grid changes; the piece records the target; on row 0 or 7 it becomes a king and its side's king counter rises by exactly 1, even for a king; elsewhere king flag and king counters are unchanged; live counters and the grid's counts are unchanged; moving a piece of a valid board to an empty cell keeps the board valid |
| BoardState.ExchangeCells | checkers/checkers.py:113 | exchanging two cells keeps every other cell and both sides' counts |
| BoardState.Board.Remove | checkers/checkers.py:123-130 | every cell a listed piece records becomes empty and every other cell is unchanged; each side's live counter drops by the number of its entries in the list, whatever the cells held; king counters unchanged; removing distinct pieces that stand on a valid board keeps it valid |
| BoardState.ClearedCount | checkers/checkers.py:125-130 | emptying the cell of the next listed piece, which still holds it, lowers exactly that piece's side's count on the grid by one |
| BoardState.Board.GetValidMoves | checkers/checkers.py:131-161 | returns the piece's exact move map: every step and jump destination, each mapped to what a move there captures; it changes nothing |
| MoveGenerator.Directions | checkers/checkers.py:138 | two distinct unit row directions, the forward one first (-1 for Red, +1 for White) |
| MoveGenerator.AllScanned | checkers/checkers.py:137-161 | the four scans in the source's order produce exactly the declarative move map |
| MoveGenerator.ScannedAt | checkers/checkers.py:141-159 | after k scans, a cell is recorded exactly when it is a destination in one of the first k (direction, offset) sectors, with the piece it captures |
| MoveGenerator.ScanKeeps | checkers/checkers.py:143-159 | one more scan extends the recorded sectors by its own sector and overwrites no earlier entry |
| MoveGenerator.StepSector | checkers/checkers.py:143-147 | a free step cell is the only destination in its sector and is a step |
| MoveGenerator.JumpSector | checkers/checkers.py:150-159 | when the step cell holds an opposing piece and the cell beyond is free, that cell is the sector's only destination, a jump over the step cell |
| MoveGenerator.BlockedSector | checkers/checkers.py:146-159 | when neither test of a scan passes, its sector has no destination |
| MoveGenerator.MovesUnique | checkers/checkers.py:137-161 | a piece has exactly one move map |
| MoveGenerator.AtMostFourDestinations | checkers/checkers.py:141-159 | the move map has at most four destinations, one per (direction, offset) pair |
| MoveGenerator.ScannedSize | checkers/checkers.py:141-159 | k scans record at most k destinations |
| MoveGenerator.DestinationShape | checkers/checkers.py:143-159 | every destination is an empty cell on the board; it maps to None exactly when it is one diagonal square away, and to a piece exactly when it is two away, that piece being of the other side and standing in the cell passed over |
| MoveGenerator.JumpOnlyOverBlockedStep | checkers/checkers.py:146-150 | a jump is recorded only when the step cell it passes is not itself a destination |
| GameController.Game.constructor | checkers/checkers.py:178-186 | a new game has a new board, holding newly created pieces, in the start position, Red to move, nothing selected and an empty move map; the game invariant holds |
| GameController.Game.Init | checkers/checkers.py:182-186 | replaces the board by a new one, holding newly created pieces, in the start position, Red to move, nothing selected, empty move map; the game invariant holds |
| GameController.Game.Reset | checkers/checkers.py:193-194 | the same state as Init |
| GameController.Game.ChangeTurn | checkers/checkers.py:229-234 | the move map is emptied and the turn passes to the other side; selection and board unchanged |
| GameController.JumpPlayed | checkers/checkers.py:213-217 | a jump changes the grid only in the source, the target and the captured piece's cell, which becomes empty |
| GameController.Game.Advance | checkers/checkers.py:214-217 | moves the piece to its destination and, on a jump, removes the jumped piece; nothing else on the grid changes; the board stays valid; only the board and the mover change; on row 0 or 7 the mover becomes a king and its side's king counter rises by 1, elsewhere its king flag and both king counters are kept; the captured side's live counter drops by one on a jump only |
| GameController.Game.Move | checkers/checkers.py:211-222 | succeeds exactly when a piece is selected, the clicked cell is empty and in the move map; on failure nothing changes; only the game, the board and the selected piece can change. On success:<br>- the move was a legal destination of the piece on the previous grid;<br>- the piece belongs to the side that was to move and stays selected;<br>- the grid changes only by the move and the capture;<br>- the captured side's live counter drops by one on a jump;<br>- on row 0 or 7 the piece becomes a king and its side's king counter rises by 1, elsewhere its king flag and both king counters are kept;<br>- the turn flips and the move map is emptied.<br>The game invariant is kept. |
| GameController.Game.Select | checkers/checkers.py:196-209 | returns true exactly when the clicked cell ends up holding a piece of the side to move, which is then selected with its exact move map. A click that plays the selected piece:<br>- returns false and keeps the selection;<br>- moves a piece of the side that was to move to a legal destination, emptying its old cell and, on a jump, the jumped piece's cell, with no other cell changed;<br>- changes the live and king counters and the king flag as Game.Move does;<br>- flips the turn and empties the move map.<br>Any other click leaves the board, the pieces and the turn alone; when it selects nothing it clears the selection and leaves the move map as it was. The retry recurses at most one level, and the game invariant is kept. |

## Left out

- Rendering and the window: `pygame`, both `draw_squares`, `Board.draw`, `Piece.draw`, the crown image, `draw_valid_moves` and `Game.update` are library I/O.
- `Piece.calc_pos` and the `x`/`y` pixel fields are presentation only.
- `Piece.direction` is computed in `Piece.__init__` but never read by the move logic.
- `get_row_col_from_mouse` and the `main` loop (event polling, clock, exit) are input plumbing. Their only effect on the core is that a click always names a cell on the 8x8 board. So `GameController.Game.Select`, `GameController.Game.Move` and `BoardState.Board.GetPiece` require an on-board (row, col), where Python would wrap a negative index.
- The `screen` parameter of `Game.__init__` is only used for drawing.
- The RGB colour tuples are replaced by the two-value `Colour` enum.
- BoardState.Board.Remove: list entries are always piece references, so the `piece != 0` test at line 126 always holds and is not modelled. Every listed piece must record an on-board cell, where Python would wrap or fail on any other index.
- BoardState.Board.Move: the piece and the target must be on the board, for the same reason.
- BoardState.Board.CreateBoard: requires the empty grid that `Board.__init__` hands it (line 77), its only caller. On a longer grid the source would lengthen the existing rows 0-7 instead.
- `IsValidPosition` (lines 163-167) is a predicate that is its own definition, so it has no row above. That a jump cell in range implies the step cell is in range, so the read at line 157 is safe, follows from the proof obligations Dafny discharges where `ScanOnce` and `GetValidMoves` index the grid there, without a test of the step cell's range.
