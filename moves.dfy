/**
 * The destinations Board.get_valid_moves reports for a piece
 * (checkers/checkers.py:131-167).
 *
 * They are stated twice: declaratively (a one-square diagonal step onto an
 * empty cell, or a two-square diagonal jump onto an empty cell over a piece
 * of the other side), and as the fold of the four scans the source performs.
 * The lemmas prove the two agree. Every piece, man or king, is scanned in both
 * row directions, as the source does.
 */
module MoveGenerator {
  import opened Pieces

  /** A one-square diagonal offset component. */
  predicate Unit(x: int)
  {
    x == -1 || x == 1
  }

  /** A two-square diagonal offset component. */
  predicate Double(x: int)
  {
    x == -2 || x == 2
  }

  /** The (direction, offset) pair of the scan that reaches `d` from (row, col). */
  function Sector(row: int, col: int, d: Pos): (int, int)
  {
    (if d.0 < row then -1 else 1, if d.1 < col then -1 else 1)
  }

  /** The cell between (row, col) and a jump destination `d`. */
  function Midpoint(row: int, col: int, d: Pos): Pos
  {
    var s := Sector(row, col, d);
    (row + s.0, col + s.1)
  }

  /** `d` is one diagonal square away and empty. */
  ghost predicate IsStep(g: Grid, row: int, col: int, d: Pos)
    requires WellFormed(g)
  {
    && Unit(d.0 - row) && Unit(d.1 - col)
    && IsValidPosition(d.0, d.1) && g[d.0][d.1].Empty?
  }

  /** `d` is two diagonal squares away, empty, and the cell between holds a piece of the other side. */
  ghost predicate IsJump(g: Grid, row: int, col: int, colour: Colour, d: Pos)
    requires WellFormed(g) && IsValidPosition(row, col)
  {
    && Double(d.0 - row) && Double(d.1 - col)
    && IsValidPosition(d.0, d.1) && g[d.0][d.1].Empty?
    && var m := Midpoint(row, col, d);
       g[m.0][m.1].Occupied? && g[m.0][m.1].piece.colour != colour
  }

  /** A piece of side `colour` at (row, col) may move to `d`. */
  ghost predicate IsDestination(g: Grid, row: int, col: int, colour: Colour, d: Pos)
    requires WellFormed(g) && IsValidPosition(row, col)
  {
    IsStep(g, row, col, d) || IsJump(g, row, col, colour, d)
  }

  /** What a move to `d` captures: nothing for a step, the jumped piece for a jump. */
  ghost function Captured(g: Grid, row: int, col: int, colour: Colour, d: Pos): Option<Piece>
    requires WellFormed(g) && IsValidPosition(row, col)
    requires IsDestination(g, row, col, colour, d)
  {
    if IsStep(g, row, col, d) then None
    else var m := Midpoint(row, col, d); Some(g[m.0][m.1].piece)
  }

  /**
   * `m` is the move map of a piece of side `colour` at (row, col): its keys are
   * exactly the destinations, and each maps to what the move there captures.
   */
  ghost predicate AreValidMoves(g: Grid, row: int, col: int, colour: Colour, m: map<Pos, Option<Piece>>)
    requires WellFormed(g) && IsValidPosition(row, col)
  {
    forall d :: (d in m <==> IsDestination(g, row, col, colour, d)) &&
                (d in m ==> m[d] == Captured(g, row, col, colour, d))
  }

  /** The move map of a piece is unique. */
  lemma MovesUnique(g: Grid, row: int, col: int, colour: Colour, m1: map<Pos, Option<Piece>>, m2: map<Pos, Option<Piece>>)
    requires WellFormed(g) && IsValidPosition(row, col)
    requires AreValidMoves(g, row, col, colour, m1) && AreValidMoves(g, row, col, colour, m2)
    ensures m1 == m2
  {
    assert m1.Keys == m2.Keys;
  }

  /** When the step cell of scan (dir, off) is on the board and empty, it is that sector's only destination. */
  lemma StepSector(g: Grid, row: int, col: int, colour: Colour, dir: int, off: int, d: Pos)
    requires WellFormed(g) && IsValidPosition(row, col)
    requires Unit(dir) && Unit(off)
    requires IsValidPosition(row + dir, col + off) && g[row + dir][col + off].Empty?
    ensures (IsDestination(g, row, col, colour, d) && Sector(row, col, d) == (dir, off)) <==> d == (row + dir, col + off)
    ensures IsStep(g, row, col, (row + dir, col + off))
  {
  }

  /**
   * When the step cell of scan (dir, off) holds a piece of the other side and
   * the jump cell beyond it is on the board and empty, the jump cell is that
   * sector's only destination, and a move there captures that piece.
   */
  lemma JumpSector(g: Grid, row: int, col: int, colour: Colour, dir: int, off: int, d: Pos)
    requires WellFormed(g) && IsValidPosition(row, col)
    requires Unit(dir) && Unit(off)
    requires IsValidPosition(row + 2 * dir, col + 2 * off) && g[row + 2 * dir][col + 2 * off].Empty?
    requires IsValidPosition(row + dir, col + off) && g[row + dir][col + off].Occupied?
    requires g[row + dir][col + off].piece.colour != colour
    ensures (IsDestination(g, row, col, colour, d) && Sector(row, col, d) == (dir, off)) <==>
            d == (row + 2 * dir, col + 2 * off)
    ensures IsJump(g, row, col, colour, (row + 2 * dir, col + 2 * off))
    ensures !IsStep(g, row, col, (row + 2 * dir, col + 2 * off))
    ensures Midpoint(row, col, (row + 2 * dir, col + 2 * off)) == (row + dir, col + off)
  {
  }

  /** When neither the step nor the jump of scan (dir, off) is possible, that sector has no destination. */
  lemma BlockedSector(g: Grid, row: int, col: int, colour: Colour, dir: int, off: int, d: Pos)
    requires WellFormed(g) && IsValidPosition(row, col)
    requires Unit(dir) && Unit(off)
    requires !(IsValidPosition(row + dir, col + off) && g[row + dir][col + off].Empty?)
    requires !(IsValidPosition(row + 2 * dir, col + 2 * off) && g[row + 2 * dir][col + 2 * off].Empty? &&
               IsValidPosition(row + dir, col + off) && g[row + dir][col + off].Occupied? &&
               g[row + dir][col + off].piece.colour != colour)
    ensures !(IsDestination(g, row, col, colour, d) && Sector(row, col, d) == (dir, off))
  {
  }

  /** The row directions in the order get_valid_moves scans them: forward first. */
  function Directions(colour: Colour): (ds: seq<int>)
    ensures |ds| == 2 && ds[0] != ds[1] && Unit(ds[0]) && Unit(ds[1])
    ensures ds[0] == (if colour == Red then -1 else 1)
  {
    if colour == Red then [-1, 1] else [1, -1]
  }

  /** The position, 0 to 3, of the scan of sector `s` among the four scans of a piece of side `colour`. */
  function Rank(colour: Colour, s: (int, int)): int
  {
    (if s.0 == Directions(colour)[0] then 0 else 2) + (if s.1 == -1 then 0 else 1)
  }

  /** The row direction of scan number k: the first direction for scans 0 and 1, the second for 2 and 3. */
  function ScanDirection(colour: Colour, k: int): int
  {
    if k < 2 then Directions(colour)[0] else Directions(colour)[1]
  }

  /** The column offset of scan number k: -1 for scans 0 and 2, +1 for 1 and 3. */
  function ScanOffset(k: int): int
  {
    if k == 0 || k == 2 then -1 else 1
  }

  /** Scan number k is the scan of the sector of Rank k. */
  lemma RankMatches(colour: Colour, k: int, s: (int, int))
    requires 0 <= k < 4 && Unit(s.0) && Unit(s.1)
    ensures Rank(colour, s) == k <==> s == (ScanDirection(colour, k), ScanOffset(k))
  {
  }

  /**
   * One pass of the inner loop of get_valid_moves (checkers/checkers.py:143-159):
   * record the step cell if it is on the board and empty, otherwise the jump
   * cell if it is on the board and empty and the step cell holds a piece of
   * the other side.
   */
  function ScanOnce(g: Grid, row: int, col: int, colour: Colour, dir: int, off: int,
                    moves: map<Pos, Option<Piece>>): map<Pos, Option<Piece>>
    requires WellFormed(g) && IsValidPosition(row, col) && Unit(dir) && Unit(off)
  {
    var step, jump := (row + dir, col + off), (row + 2 * dir, col + 2 * off);
    if IsValidPosition(step.0, step.1) && g[step.0][step.1].Empty? then moves[step := None]
    else if IsValidPosition(jump.0, jump.1) && g[jump.0][jump.1].Empty? &&
            g[step.0][step.1].Occupied? && g[step.0][step.1].piece.colour != colour
    then moves[jump := Some(g[step.0][step.1].piece)]
    else moves
  }

  /** The moves collected by the first `k` scans, in the order get_valid_moves performs them. */
  ghost function Scanned(g: Grid, row: int, col: int, colour: Colour, k: nat): map<Pos, Option<Piece>>
    requires WellFormed(g) && IsValidPosition(row, col) && k <= 4
    decreases k
  {
    if k == 0 then map[]
    else ScanOnce(g, row, col, colour, ScanDirection(colour, k - 1), ScanOffset(k - 1),
                  Scanned(g, row, col, colour, k - 1))
  }

  /**
   * `m` records `d` exactly when it is a destination in a sector of Rank below
   * k, and then with what a move there captures.
   */
  ghost predicate Recorded(g: Grid, row: int, col: int, colour: Colour, k: int, m: map<Pos, Option<Piece>>, d: Pos)
    requires WellFormed(g) && IsValidPosition(row, col)
  {
    && (d in m <==> IsDestination(g, row, col, colour, d) && Rank(colour, Sector(row, col, d)) < k)
    && (d in m ==> m[d] == Captured(g, row, col, colour, d))
  }

  /** A free step cell, recorded with None, extends the recorded sectors by the step's sector. */
  lemma StepKeeps(g: Grid, row: int, col: int, colour: Colour, k: int, dir: int, off: int,
                  m: map<Pos, Option<Piece>>, d: Pos)
    requires WellFormed(g) && IsValidPosition(row, col) && Unit(dir) && Unit(off)
    requires Rank(colour, Sector(row, col, d)) == k <==> Sector(row, col, d) == (dir, off)
    requires Recorded(g, row, col, colour, k, m, d)
    requires IsValidPosition(row + dir, col + off) && g[row + dir][col + off].Empty?
    ensures Recorded(g, row, col, colour, k + 1, ScanOnce(g, row, col, colour, dir, off, m), d)
  {
    StepSector(g, row, col, colour, dir, off, d);
  }

  /** A possible jump, recorded with the jumped piece, extends the recorded sectors by the jump's sector. */
  lemma JumpKeeps(g: Grid, row: int, col: int, colour: Colour, k: int, dir: int, off: int,
                  m: map<Pos, Option<Piece>>, d: Pos)
    requires WellFormed(g) && IsValidPosition(row, col) && Unit(dir) && Unit(off)
    requires Rank(colour, Sector(row, col, d)) == k <==> Sector(row, col, d) == (dir, off)
    requires Recorded(g, row, col, colour, k, m, d)
    requires IsValidPosition(row + 2 * dir, col + 2 * off) && g[row + 2 * dir][col + 2 * off].Empty?
    requires IsValidPosition(row + dir, col + off) && g[row + dir][col + off].Occupied?
    requires g[row + dir][col + off].piece.colour != colour
    requires !(IsValidPosition(row + dir, col + off) && g[row + dir][col + off].Empty?)
    ensures Recorded(g, row, col, colour, k + 1, ScanOnce(g, row, col, colour, dir, off, m), d)
  {
    JumpSector(g, row, col, colour, dir, off, d);
  }

  /** A scan that records nothing still extends the recorded sectors by its own, empty, sector. */
  lemma BlockedKeeps(g: Grid, row: int, col: int, colour: Colour, k: int, dir: int, off: int,
                     m: map<Pos, Option<Piece>>, d: Pos)
    requires WellFormed(g) && IsValidPosition(row, col) && Unit(dir) && Unit(off)
    requires Rank(colour, Sector(row, col, d)) == k <==> Sector(row, col, d) == (dir, off)
    requires Recorded(g, row, col, colour, k, m, d)
    requires !(IsValidPosition(row + dir, col + off) && g[row + dir][col + off].Empty?)
    requires !(IsValidPosition(row + 2 * dir, col + 2 * off) && g[row + 2 * dir][col + 2 * off].Empty? &&
               IsValidPosition(row + dir, col + off) && g[row + dir][col + off].Occupied? &&
               g[row + dir][col + off].piece.colour != colour)
    ensures Recorded(g, row, col, colour, k + 1, ScanOnce(g, row, col, colour, dir, off, m), d)
  {
    BlockedSector(g, row, col, colour, dir, off, d);
  }

  /** Scan number k extends a map recording the sectors of Rank below k to one recording those below k + 1. */
  lemma ScanKeeps(g: Grid, row: int, col: int, colour: Colour, k: int, m: map<Pos, Option<Piece>>, d: Pos)
    requires WellFormed(g) && IsValidPosition(row, col) && 0 <= k < 4
    requires Recorded(g, row, col, colour, k, m, d)
    ensures Recorded(g, row, col, colour, k + 1,
                     ScanOnce(g, row, col, colour, ScanDirection(colour, k), ScanOffset(k), m), d)
  {
    var dir, off := ScanDirection(colour, k), ScanOffset(k);
    var step, jump := (row + dir, col + off), (row + 2 * dir, col + 2 * off);
    RankMatches(colour, k, Sector(row, col, d));
    if IsValidPosition(step.0, step.1) && g[step.0][step.1].Empty? {
      StepKeeps(g, row, col, colour, k, dir, off, m, d);
    } else if IsValidPosition(jump.0, jump.1) && g[jump.0][jump.1].Empty? &&
              g[step.0][step.1].Occupied? && g[step.0][step.1].piece.colour != colour {
      JumpKeeps(g, row, col, colour, k, dir, off, m, d);
    } else {
      BlockedKeeps(g, row, col, colour, k, dir, off, m, d);
    }
  }

  /** The first k scans record exactly the destinations in the sectors of Rank below k. */
  lemma {:induction false} ScannedAt(g: Grid, row: int, col: int, colour: Colour, k: nat, d: Pos)
    requires WellFormed(g) && IsValidPosition(row, col) && k <= 4
    ensures Recorded(g, row, col, colour, k, Scanned(g, row, col, colour, k), d)
  {
    if k > 0 {
      ScannedAt(g, row, col, colour, k - 1, d);
      ScanKeeps(g, row, col, colour, k - 1, Scanned(g, row, col, colour, k - 1), d);
    }
  }

  /** The four scans together produce the move map of the piece. */
  lemma AllScanned(g: Grid, row: int, col: int, colour: Colour)
    requires WellFormed(g) && IsValidPosition(row, col)
    ensures AreValidMoves(g, row, col, colour, Scanned(g, row, col, colour, 4))
  {
    var m := Scanned(g, row, col, colour, 4);
    forall d
      ensures d in m <==> IsDestination(g, row, col, colour, d)
      ensures d in m ==> m[d] == Captured(g, row, col, colour, d)
    {
      ScannedAt(g, row, col, colour, 4, d);
    }
  }

  /** One scan records at most one new destination. */
  lemma ScanOnceSize(g: Grid, row: int, col: int, colour: Colour, dir: int, off: int, moves: map<Pos, Option<Piece>>)
    requires WellFormed(g) && IsValidPosition(row, col) && Unit(dir) && Unit(off)
    ensures |ScanOnce(g, row, col, colour, dir, off, moves)| <= |moves| + 1
  {
    var after := ScanOnce(g, row, col, colour, dir, off, moves);
    var step, jump := (row + dir, col + off), (row + 2 * dir, col + 2 * off);
    assert after.Keys <= moves.Keys + {step} || after.Keys <= moves.Keys + {jump};
  }

  /** The first k scans record at most k destinations. */
  lemma {:induction false} ScannedSize(g: Grid, row: int, col: int, colour: Colour, k: nat)
    requires WellFormed(g) && IsValidPosition(row, col) && k <= 4
    ensures |Scanned(g, row, col, colour, k)| <= k
  {
    if k > 0 {
      ScannedSize(g, row, col, colour, k - 1);
      ScanOnceSize(g, row, col, colour, ScanDirection(colour, k - 1), ScanOffset(k - 1),
                   Scanned(g, row, col, colour, k - 1));
    }
  }

  /** Each of the four scans contributes at most one key, so a piece has at most four destinations. */
  lemma AtMostFourDestinations(g: Grid, row: int, col: int, colour: Colour, m: map<Pos, Option<Piece>>)
    requires WellFormed(g) && IsValidPosition(row, col)
    requires AreValidMoves(g, row, col, colour, m)
    ensures |m| <= 4
  {
    AllScanned(g, row, col, colour);
    MovesUnique(g, row, col, colour, m, Scanned(g, row, col, colour, 4));
    ScannedSize(g, row, col, colour, 4);
  }

  /**
   * Every destination is an empty cell on the board; a step records None and a
   * jump records the opposing piece in the cell it passes over.
   */
  lemma DestinationShape(g: Grid, row: int, col: int, colour: Colour, m: map<Pos, Option<Piece>>, d: Pos)
    requires WellFormed(g) && IsValidPosition(row, col)
    requires AreValidMoves(g, row, col, colour, m) && d in m
    ensures IsValidPosition(d.0, d.1) && g[d.0][d.1].Empty?
    ensures m[d] == None <==> Unit(d.0 - row) && Unit(d.1 - col)
    ensures m[d].Some? <==> Double(d.0 - row) && Double(d.1 - col)
    ensures var mid := Midpoint(row, col, d);
            m[d].Some? ==>
              IsValidPosition(mid.0, mid.1) && g[mid.0][mid.1] == Occupied(m[d].value) &&
              m[d].value.colour != colour
  {
    assert d in m <==> IsDestination(g, row, col, colour, d);
  }

  /** A jump is only reported when the step cell it passes is not itself a destination. */
  lemma JumpOnlyOverBlockedStep(g: Grid, row: int, col: int, colour: Colour, m: map<Pos, Option<Piece>>, d: Pos)
    requires WellFormed(g) && IsValidPosition(row, col)
    requires AreValidMoves(g, row, col, colour, m) && d in m && m[d].Some?
    ensures Midpoint(row, col, d) !in m
  {
    assert d in m <==> IsDestination(g, row, col, colour, d);
    var mid := Midpoint(row, col, d);
    assert mid in m <==> IsDestination(g, row, col, colour, mid);
  }
}
