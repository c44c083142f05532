/** The rules of the RS6-versus-watermelon checkers game as pure functions over a board value:
    move legality, move application (capture and promotion), scores, the winner, the set of
    legal destinations and the starting layout, with the lemmas that state what they promise. */
module Rules {

  /** The two sides. 'rs6' starts in rows 0-2 and moves first; 'watermelon' starts in rows 5-7. */
  datatype Side = Rs6 | Watermelon

  /** A piece is its side and its king flag; its identity is its position. */
  datatype Piece = Piece(side: Side, isKing: bool)

  datatype Option<T> = None | Some(value: T)

  /** A cell is empty (`null` in the game) or holds a piece. */
  type Cell = Option<Piece>

  /** A board coordinate, also the shape of the selection `{row, col}`. */
  datatype Pos = Pos(row: int, col: int)

  /** `boardSize`: the board is Size x Size. */
  const Size: int := 8

  /** The board as a value: a sequence of rows, each a sequence of cells. */
  type Board = seq<seq<Cell>>

  predicate WellFormed(b: Board)
  {
    |b| == Size && forall i :: 0 <= i < Size ==> |b[i]| == Size
  }

  predicate InBounds(row: int, col: int)
  {
    0 <= row < Size && 0 <= col < Size
  }

  /** The side that moves after `s`. */
  function Opponent(s: Side): (o: Side)
    ensures o != s
  {
    if s == Rs6 then Watermelon else Rs6
  }

  /** The row direction in which a non-king piece of side `s` moves. */
  function Direction(s: Side): int
  {
    if s == Rs6 then 1 else -1
  }

  /** `Math.sign` on integers. */
  function Sign(x: int): int
  {
    if x > 0 then 1 else if x < 0 then -1 else 0
  }

  /** `Math.abs` on integers. */
  function Abs(x: int): nat
  {
    if x < 0 then -x else x
  }

  predicate Owns(c: Cell, s: Side)
  {
    c.Some? && c.value.side == s
  }

  // ---------------------------------------------------------------------------
  // Move legality
  // ---------------------------------------------------------------------------

  /** `isValidMove`: the piece on (fr, fc) may go to (tr, tc). Both positions lie on the board:
      the game only asks about grid cells. */
  function IsValidMove(b: Board, fr: int, fc: int, tr: int, tc: int): (ok: bool)
    requires WellFormed(b) && InBounds(fr, fc) && InBounds(tr, tc)
    ensures ok ==> b[fr][fc].Some? && b[tr][tc].None?
    ensures ok ==> Abs(tr - fr) == Abs(tc - fc) && (Abs(tr - fr) == 1 || Abs(tr - fr) == 2)
    ensures ok && !b[fr][fc].value.isKing ==> (tr > fr <==> b[fr][fc].value.side == Rs6)
  {
    match b[fr][fc]
    case None => false
    case Some(piece) =>
      var rowDiff := tr - fr;
      var colDiff := tc - fc;
      if !piece.isKing && Sign(rowDiff) != Direction(piece.side) then false
      else if Abs(rowDiff) != Abs(colDiff) then false
      else if Abs(rowDiff) == 1 then b[tr][tc].None?
      else if Abs(rowDiff) == 2 then
        var mid := b[(fr + tr) / 2][(fc + tc) / 2];
        mid.Some? && mid.value.side != piece.side && b[tr][tc].None?
      else false
  }

  /** The cases in which a move is refused outright. */
  lemma RejectedMoves(b: Board, fr: int, fc: int, tr: int, tc: int)
    requires WellFormed(b) && InBounds(fr, fc) && InBounds(tr, tc)
    ensures b[fr][fc].None? ==> !IsValidMove(b, fr, fc, tr, tc)
    ensures b[fr][fc].Some? && !b[fr][fc].value.isKing && Sign(tr - fr) != Direction(b[fr][fc].value.side)
            ==> !IsValidMove(b, fr, fc, tr, tc)
    ensures tr == fr ==> !IsValidMove(b, fr, fc, tr, tc)
    ensures Abs(tr - fr) != Abs(tc - fc) ==> !IsValidMove(b, fr, fc, tr, tc)
    ensures Abs(tr - fr) != 1 && Abs(tr - fr) != 2 ==> !IsValidMove(b, fr, fc, tr, tc)
  {
  }

  /** A piece may go that way: kings in any row direction, other pieces only forward. */
  predicate MayHead(p: Piece, dRow: int)
  {
    p.isKing || dRow == Direction(p.side)
  }

  /** A diagonal step of one cell is legal exactly when the piece may head that way and the
      destination is empty; a diagonal jump of two cells exactly when, in addition, the cell
      jumped over holds a piece of the other side. */
  lemma StepAndJumpRules(b: Board, fr: int, fc: int, dRow: int, dCol: int)
    requires WellFormed(b) && InBounds(fr, fc) && b[fr][fc].Some?
    requires (dRow == 1 || dRow == -1) && (dCol == 1 || dCol == -1)
    ensures InBounds(fr + dRow, fc + dCol) ==>
      (IsValidMove(b, fr, fc, fr + dRow, fc + dCol) <==>
        MayHead(b[fr][fc].value, dRow) && b[fr + dRow][fc + dCol].None?)
    ensures InBounds(fr + 2 * dRow, fc + 2 * dCol) ==>
      (IsValidMove(b, fr, fc, fr + 2 * dRow, fc + 2 * dCol) <==>
        MayHead(b[fr][fc].value, dRow) &&
        Owns(b[fr + dRow][fc + dCol], Opponent(b[fr][fc].value.side)) &&
        b[fr + 2 * dRow][fc + 2 * dCol].None?)
  {
    if InBounds(fr + 2 * dRow, fc + 2 * dCol) {
      assert (fr + (fr + 2 * dRow)) / 2 == fr + dRow;
      assert (fc + (fc + 2 * dCol)) / 2 == fc + dCol;
    }
  }

  /** The four diagonal headings; Up is towards row 0. */
  datatype Heading = UpLeft | UpRight | DownLeft | DownRight

  function RowStep(h: Heading): int
  {
    if h == UpLeft || h == UpRight then -1 else 1
  }

  function ColStep(h: Heading): int
  {
    if h == UpLeft || h == DownLeft then -1 else 1
  }

  /** A simple step covers one cell, a capture jump two. */
  datatype Reach = Step | Jump

  function Target(fr: int, fc: int, h: Heading, k: Reach): Pos
  {
    if k == Step then Pos(fr + RowStep(h), fc + ColStep(h))
    else Pos(fr + 2 * RowStep(h), fc + 2 * ColStep(h))
  }

  /** The move rules stated by heading and reach rather than by row and column differences:
      from an occupied cell, along a heading the piece may take, onto an empty cell of the board,
      and, for a jump, over a piece of the other side. */
  ghost predicate LegalAlong(b: Board, fr: int, fc: int, h: Heading, k: Reach)
    requires WellFormed(b) && InBounds(fr, fc)
  {
    var t := Target(fr, fc, h, k);
    b[fr][fc].Some? && MayHead(b[fr][fc].value, RowStep(h)) &&
    InBounds(t.row, t.col) && b[t.row][t.col].None? &&
    (k == Jump ==> Owns(b[fr + RowStep(h)][fc + ColStep(h)], Opponent(b[fr][fc].value.side)))
  }

  /** `isValidMove` agrees with the heading-and-reach statement of the rules, both ways. */
  lemma ValidMoveMeaning(b: Board, fr: int, fc: int, tr: int, tc: int)
    requires WellFormed(b) && InBounds(fr, fc) && InBounds(tr, tc)
    ensures IsValidMove(b, fr, fc, tr, tc) <==>
      exists h: Heading, k: Reach :: Target(fr, fc, h, k) == Pos(tr, tc) && LegalAlong(b, fr, fc, h, k)
  {
    if IsValidMove(b, fr, fc, tr, tc) {
      var h, k := ValidMoveHeading(b, fr, fc, tr, tc);
    }
    if exists h: Heading, k: Reach :: Target(fr, fc, h, k) == Pos(tr, tc) && LegalAlong(b, fr, fc, h, k) {
      var h: Heading, k: Reach :| Target(fr, fc, h, k) == Pos(tr, tc) && LegalAlong(b, fr, fc, h, k);
      LegalAlongIsValid(b, fr, fc, h, k);
    }
  }

  /** A legal move follows some heading and reach. */
  lemma ValidMoveHeading(b: Board, fr: int, fc: int, tr: int, tc: int) returns (h: Heading, k: Reach)
    requires WellFormed(b) && InBounds(fr, fc) && InBounds(tr, tc)
    requires IsValidMove(b, fr, fc, tr, tc)
    ensures Target(fr, fc, h, k) == Pos(tr, tc) && LegalAlong(b, fr, fc, h, k)
  {
    h := if tr < fr then (if tc < fc then UpLeft else UpRight)
         else (if tc < fc then DownLeft else DownRight);
    k := if Abs(tr - fr) == 1 then Step else Jump;
    if k == Jump {
      assert (fr + tr) / 2 == fr + RowStep(h);
      assert (fc + tc) / 2 == fc + ColStep(h);
    }
  }

  /** A move along a heading that obeys the rules is accepted by `isValidMove`. */
  lemma LegalAlongIsValid(b: Board, fr: int, fc: int, h: Heading, k: Reach)
    requires WellFormed(b) && InBounds(fr, fc) && LegalAlong(b, fr, fc, h, k)
    ensures IsValidMove(b, fr, fc, Target(fr, fc, h, k).row, Target(fr, fc, h, k).col)
  {
    var t := Target(fr, fc, h, k);
    assert Sign(t.row - fr) == RowStep(h);
    if k == Jump {
      assert (fr + t.row) / 2 == fr + RowStep(h);
      assert (fc + t.col) / 2 == fc + ColStep(h);
    }
  }

  // ---------------------------------------------------------------------------
  // Move application
  // ---------------------------------------------------------------------------

  /** The board with cell (row, col) replaced by `c`. */
  function Put(b: Board, row: int, col: int, c: Cell): (r: Board)
    requires WellFormed(b) && InBounds(row, col)
    ensures WellFormed(r)
    ensures forall i, j :: InBounds(i, j) ==> r[i][j] == if i == row && j == col then c else b[i][j]
  {
    b[row := b[row][col := c]]
  }

  /** Two boards with the same cells are the same board. */
  lemma BoardsEqual(b1: Board, b2: Board)
    requires WellFormed(b1) && WellFormed(b2)
    requires forall i, j :: InBounds(i, j) ==> b1[i][j] == b2[i][j]
    ensures b1 == b2
  {
    forall i | 0 <= i < Size
      ensures b1[i] == b2[i]
    {
      assert forall j :: 0 <= j < Size ==> b1[i][j] == b2[i][j] by {
        forall j | 0 <= j < Size ensures b1[i][j] == b2[i][j] { assert InBounds(i, j); }
      }
    }
  }

  /** The cells a move writes: its source, its destination and, for a jump, the cell jumped over. */
  predicate Touched(fr: int, fc: int, tr: int, tc: int, i: int, j: int)
  {
    (i == fr && j == fc) || (i == tr && j == tc) ||
    (Abs(tr - fr) == 2 && i == (fr + tr) / 2 && j == (fc + tc) / 2)
  }

  /** `makeMove`: the piece is copied to the destination and its source cleared; the copy is crowned
      when an 'rs6' piece reaches row 7 or a 'watermelon' piece row 0 (the game sets the flag on
      the object already stored at the destination); a jump clears the cell jumped over. The game
      calls it only after `isValidMove` has accepted the move. */
  function MakeMove(b: Board, fr: int, fc: int, tr: int, tc: int): (r: Board)
    requires WellFormed(b) && InBounds(fr, fc) && InBounds(tr, tc)
    requires IsValidMove(b, fr, fc, tr, tc)
    ensures WellFormed(r)
    ensures r[fr][fc] == None
    ensures r[tr][tc].Some? && r[tr][tc].value.side == b[fr][fc].value.side
    ensures Abs(tr - fr) == 2 ==> r[(fr + tr) / 2][(fc + tc) / 2] == None
    ensures forall i, j :: InBounds(i, j) && !Touched(fr, fc, tr, tc, i, j) ==> r[i][j] == b[i][j]
  {
    var piece := b[fr][fc].value;
    var moved := Put(Put(b, tr, tc, Some(piece)), fr, fc, None);
    var crowned :=
      if (piece.side == Rs6 && tr == Size - 1) || (piece.side == Watermelon && tr == 0)
      then Put(moved, tr, tc, Some(piece.(isKing := true)))
      else moved;
    if Abs(tr - fr) == 2 then Put(crowned, (fr + tr) / 2, (fc + tc) / 2, None) else crowned
  }

  /** The effect `MakeMove` promises determines the new board: any board with that effect is it. */
  lemma MakeMoveDetermined(b: Board, fr: int, fc: int, tr: int, tc: int, r: Board)
    requires WellFormed(b) && InBounds(fr, fc) && InBounds(tr, tc)
    requires IsValidMove(b, fr, fc, tr, tc)
    requires WellFormed(r) && r[fr][fc] == None
    requires var p := b[fr][fc].value;
      r[tr][tc] == Some(Piece(p.side, p.isKing || (p.side == Rs6 && tr == 7) || (p.side == Watermelon && tr == 0)))
    requires Abs(tr - fr) == 2 ==> r[(fr + tr) / 2][(fc + tc) / 2] == None
    requires forall i, j :: InBounds(i, j) && !Touched(fr, fc, tr, tc, i, j) ==> r[i][j] == b[i][j]
    ensures r == MakeMove(b, fr, fc, tr, tc)
  {
    var m := MakeMove(b, fr, fc, tr, tc);
    Promotion(b, fr, fc, tr, tc);
    forall i, j | InBounds(i, j)
      ensures r[i][j] == m[i][j]
    {
      if !Touched(fr, fc, tr, tc, i, j) {
        assert r[i][j] == b[i][j];
      }
    }
    BoardsEqual(r, m);
  }

  /** Promotion: a piece that is not a king becomes one exactly when an 'rs6' piece lands on row 7
      or a 'watermelon' piece on row 0; a king stays a king whatever its move. */
  lemma Promotion(b: Board, fr: int, fc: int, tr: int, tc: int)
    requires WellFormed(b) && InBounds(fr, fc) && InBounds(tr, tc)
    requires IsValidMove(b, fr, fc, tr, tc)
    ensures var p := b[fr][fc].value; var q := MakeMove(b, fr, fc, tr, tc)[tr][tc].value;
      (!p.isKing ==> (q.isKing <==> (p.side == Rs6 && tr == 7) || (p.side == Watermelon && tr == 0))) &&
      (p.isKing ==> q.isKing)
  {
  }

  /** Moves keep every piece on a dark square ((row + col) odd): a diagonal move keeps the parity
      of row + col. */
  lemma MovePreservesDarkSquares(b: Board, fr: int, fc: int, tr: int, tc: int)
    requires WellFormed(b) && InBounds(fr, fc) && InBounds(tr, tc)
    requires IsValidMove(b, fr, fc, tr, tc)
    requires OnDarkSquares(b)
    ensures OnDarkSquares(MakeMove(b, fr, fc, tr, tc))
  {
    assert (fr + fc) % 2 == 1;
    DiagonalKeepsColour(fr, fc, tr, tc);
    OnlyTouchedChange(b, MakeMove(b, fr, fc, tr, tc), fr, fc, tr, tc);
  }

  /** A diagonal move ends on a cell of the colour it started on. */
  lemma DiagonalKeepsColour(fr: int, fc: int, tr: int, tc: int)
    requires Abs(tr - fr) == Abs(tc - fc)
    ensures (tr + tc) % 2 == (fr + fc) % 2
  {
    var d := tr - fr;
    if tc - fc == d {
      assert tr + tc == fr + fc + 2 * d;
    } else {
      assert tr + tc == fr + fc;
    }
  }

  /** A board that differs from a board on dark squares only by an emptied source, a piece on a
      dark destination and an emptied cell jumped over is on dark squares. */
  lemma OnlyTouchedChange(b: Board, r: Board, fr: int, fc: int, tr: int, tc: int)
    requires WellFormed(b) && WellFormed(r) && OnDarkSquares(b)
    requires InBounds(fr, fc) && InBounds(tr, tc) && (tr + tc) % 2 == 1
    requires r[fr][fc] == None
    requires Abs(tr - fr) == 2 ==> r[(fr + tr) / 2][(fc + tc) / 2] == None
    requires forall i, j :: InBounds(i, j) && !Touched(fr, fc, tr, tc, i, j) ==> r[i][j] == b[i][j]
    ensures OnDarkSquares(r)
  {
    forall i: int, j: int | InBounds(i, j) && r[i][j] != None
      ensures (i + j) % 2 == 1
    {
      if !Touched(fr, fc, tr, tc, i, j) {
        assert r[i][j] == b[i][j];
      }
    }
  }

  /** Every piece stands on a dark square. */
  ghost predicate OnDarkSquares(b: Board)
    requires WellFormed(b)
  {
    forall i, j :: InBounds(i, j) && b[i][j].Some? ==> (i + j) % 2 == 1
  }

  // ---------------------------------------------------------------------------
  // Scores
  // ---------------------------------------------------------------------------

  function OwnCount(c: Cell, s: Side): nat
  {
    if Owns(c, s) then 1 else 0
  }

  /** The pieces of side `s` among `cells`. */
  function CountCells(cells: seq<Cell>, s: Side): (n: nat)
    ensures n <= |cells|
  {
    if cells == [] then 0
    else CountCells(cells[..|cells| - 1], s) + OwnCount(cells[|cells| - 1], s)
  }

  /** The pieces of side `s` in `rows`. */
  function CountRows(rows: seq<seq<Cell>>, s: Side): nat
  {
    if rows == [] then 0
    else CountRows(rows[..|rows| - 1], s) + CountCells(rows[|rows| - 1], s)
  }

  /** `getScores` for side `s`: its pieces on the board. */
  function Count(b: Board, s: Side): nat
  {
    CountRows(b, s)
  }

  /** A side scores nothing exactly when no cell of the board holds one of its pieces. */
  lemma CountZero(b: Board, s: Side)
    requires WellFormed(b)
    ensures Count(b, s) == 0 <==> forall i, j :: InBounds(i, j) ==> !Owns(b[i][j], s)
  {
    CountRowsZero(b, s);
  }

  lemma {:induction false} CountCellsZero(cells: seq<Cell>, s: Side)
    ensures CountCells(cells, s) == 0 <==> forall k :: 0 <= k < |cells| ==> !Owns(cells[k], s)
  {
    if cells != [] {
      var init := cells[..|cells| - 1];
      CountCellsZero(init, s);
      assert forall k :: 0 <= k < |init| ==> init[k] == cells[k];
    }
  }

  lemma {:induction false} CountRowsZero(rows: seq<seq<Cell>>, s: Side)
    ensures CountRows(rows, s) == 0 <==>
      forall i, j :: 0 <= i < |rows| && 0 <= j < |rows[i]| ==> !Owns(rows[i][j], s)
  {
    if rows != [] {
      var init := rows[..|rows| - 1];
      CountRowsZero(init, s);
      CountCellsZero(rows[|rows| - 1], s);
      assert forall i :: 0 <= i < |init| ==> init[i] == rows[i];
    }
  }

  lemma {:induction false} CountCellsPut(cells: seq<Cell>, k: int, c: Cell, s: Side)
    requires 0 <= k < |cells|
    ensures CountCells(cells[k := c], s) + OwnCount(cells[k], s) == CountCells(cells, s) + OwnCount(c, s)
  {
    var n := |cells|;
    if k == n - 1 {
      assert cells[k := c][..n - 1] == cells[..n - 1];
    } else {
      assert cells[k := c][..n - 1] == cells[..n - 1][k := c];
      CountCellsPut(cells[..n - 1], k, c, s);
    }
  }

  lemma {:induction false} CountRowsPut(rows: seq<seq<Cell>>, k: int, row: seq<Cell>, s: Side)
    requires 0 <= k < |rows|
    ensures CountRows(rows[k := row], s) + CountCells(rows[k], s) == CountRows(rows, s) + CountCells(row, s)
  {
    var n := |rows|;
    if k == n - 1 {
      assert rows[k := row][..n - 1] == rows[..n - 1];
    } else {
      assert rows[k := row][..n - 1] == rows[..n - 1][k := row];
      CountRowsPut(rows[..n - 1], k, row, s);
    }
  }

  /** Writing one cell changes a side's score by what the cell held and what it now holds. */
  lemma CountPut(b: Board, row: int, col: int, c: Cell, s: Side)
    requires WellFormed(b) && InBounds(row, col)
    ensures Count(Put(b, row, col, c), s) + OwnCount(b[row][col], s) == Count(b, s) + OwnCount(c, s)
  {
    CountCellsPut(b[row], col, c, s);
    CountRowsPut(b, row, b[row][col := c], s);
  }

  /** A side with a piece on the board has a positive score. */
  lemma CountPositive(b: Board, row: int, col: int, s: Side)
    requires WellFormed(b) && InBounds(row, col) && Owns(b[row][col], s)
    ensures Count(b, s) > 0
  {
    CountPut(b, row, col, None, s);
  }

  /** `getScores` across a legal move: a step changes neither score; a jump lowers the opponent's
      score by exactly one and leaves the mover's unchanged. */
  lemma ScoresAfterMove(b: Board, fr: int, fc: int, tr: int, tc: int)
    requires WellFormed(b) && InBounds(fr, fc) && InBounds(tr, tc)
    requires IsValidMove(b, fr, fc, tr, tc)
    ensures var s := b[fr][fc].value.side; var r := MakeMove(b, fr, fc, tr, tc);
      Count(r, s) == Count(b, s) &&
      Count(r, Opponent(s)) == if Abs(tr - fr) == 2 then Count(b, Opponent(s)) - 1 else Count(b, Opponent(s))
  {
    var piece := b[fr][fc].value;
    var b1 := Put(b, tr, tc, Some(piece));
    var moved := Put(b1, fr, fc, None);
    var crowned :=
      if (piece.side == Rs6 && tr == Size - 1) || (piece.side == Watermelon && tr == 0)
      then Put(moved, tr, tc, Some(piece.(isKing := true)))
      else moved;
    forall s: Side
      ensures Count(crowned, s) == Count(b, s)
    {
      CountPut(b, tr, tc, Some(piece), s);
      CountPut(b1, fr, fc, None, s);
      if crowned != moved {
        CountPut(moved, tr, tc, Some(piece.(isKing := true)), s);
      }
    }
    if Abs(tr - fr) == 2 {
      var mr, mc := (fr + tr) / 2, (fc + tc) / 2;
      forall s: Side
        ensures Count(Put(crowned, mr, mc, None), s) + OwnCount(b[mr][mc], s) == Count(b, s)
      {
        CountPut(crowned, mr, mc, None, s);
      }
    }
  }

  /** Scores never exceed the starting twelve per side, and every piece is on a dark square:
      the invariant every reachable board keeps. */
  ghost predicate Sound(b: Board)
  {
    WellFormed(b) && OnDarkSquares(b) && Count(b, Rs6) <= 12 && Count(b, Watermelon) <= 12
  }

  lemma MovePreservesSound(b: Board, fr: int, fc: int, tr: int, tc: int)
    requires Sound(b) && InBounds(fr, fc) && InBounds(tr, tc)
    requires IsValidMove(b, fr, fc, tr, tc)
    ensures Sound(MakeMove(b, fr, fc, tr, tc))
  {
    MovePreservesDarkSquares(b, fr, fc, tr, tc);
    ScoresAfterMove(b, fr, fc, tr, tc);
  }

  // ---------------------------------------------------------------------------
  // End of game
  // ---------------------------------------------------------------------------

  /** `checkGameEnd`: 'watermelon' wins when 'rs6' has no piece left, otherwise 'rs6' wins when
      'watermelon' has none; otherwise the game goes on. */
  function Winner(b: Board): (w: Option<Side>)
    ensures w.None? <==> Count(b, Rs6) > 0 && Count(b, Watermelon) > 0
    ensures w.Some? ==> Count(b, Opponent(w.value)) == 0
    ensures Count(b, Rs6) == 0 ==> w == Some(Watermelon)
  {
    if Count(b, Rs6) == 0 then Some(Watermelon)
    else if Count(b, Watermelon) == 0 then Some(Rs6)
    else None
  }

  /** Only a capture can end a game: a step leaves the outcome as it was. */
  lemma StepKeepsOutcome(b: Board, fr: int, fc: int, tr: int, tc: int)
    requires WellFormed(b) && InBounds(fr, fc) && InBounds(tr, tc)
    requires IsValidMove(b, fr, fc, tr, tc) && Abs(tr - fr) == 1
    ensures Winner(MakeMove(b, fr, fc, tr, tc)) == Winner(b)
  {
    ScoresAfterMove(b, fr, fc, tr, tc);
    var s := b[fr][fc].value.side;
    assert Count(MakeMove(b, fr, fc, tr, tc), s) == Count(b, s);
  }

  /** Capturing the opponent's last piece wins the game for the side that moved. */
  lemma LastCaptureWins(b: Board, fr: int, fc: int, tr: int, tc: int)
    requires WellFormed(b) && InBounds(fr, fc) && InBounds(tr, tc)
    requires IsValidMove(b, fr, fc, tr, tc) && Abs(tr - fr) == 2
    requires Count(b, Opponent(b[fr][fc].value.side)) == 1
    ensures Winner(MakeMove(b, fr, fc, tr, tc)) == Some(b[fr][fc].value.side)
  {
    ScoresAfterMove(b, fr, fc, tr, tc);
    var r := MakeMove(b, fr, fc, tr, tc);
    CountPositive(r, tr, tc, b[fr][fc].value.side);
  }

  // ---------------------------------------------------------------------------
  // Legal destinations
  // ---------------------------------------------------------------------------

  /** The cells `showAvailableMoves` marks for the piece on (row, col): every board cell the piece
      may move to. */
  function Destinations(b: Board, row: int, col: int): (d: set<Pos>)
    requires WellFormed(b) && InBounds(row, col)
    ensures forall p :: p in d ==> InBounds(p.row, p.col)
    ensures forall tr, tc :: InBounds(tr, tc) ==> (Pos(tr, tc) in d <==> IsValidMove(b, row, col, tr, tc))
    ensures b[row][col].None? ==> d == {}
  {
    set tr, tc | 0 <= tr < Size && 0 <= tc < Size && IsValidMove(b, row, col, tr, tc) :: Pos(tr, tc)
  }

  /** Every destination is an empty cell of the same colour, one or two diagonal cells away, in the
      piece's forward direction unless it is a king. */
  lemma DestinationsShape(b: Board, row: int, col: int)
    requires WellFormed(b) && InBounds(row, col)
    ensures forall p :: p in Destinations(b, row, col) ==>
      b[p.row][p.col].None? &&
      (p.row + p.col) % 2 == (row + col) % 2 &&
      Abs(p.row - row) == Abs(p.col - col) && 1 <= Abs(p.row - row) <= 2 &&
      (!b[row][col].value.isKing ==> Sign(p.row - row) == Direction(b[row][col].value.side))
  {
    var d := Destinations(b, row, col);
    forall p | p in d
      ensures b[p.row][p.col].None? && (p.row + p.col) % 2 == (row + col) % 2
      ensures Abs(p.row - row) == Abs(p.col - col) && 1 <= Abs(p.row - row) <= 2
      ensures !b[row][col].value.isKing ==> Sign(p.row - row) == Direction(b[row][col].value.side)
    {
      assert IsValidMove(b, row, col, p.row, p.col);
      var dr := p.row - row;
      if p.col - col == dr {
        assert p.row + p.col == row + col + 2 * dr;
      } else {
        assert p.row + p.col == row + col;
      }
    }
  }

  /** The destinations a row-by-row scan of the board has met before reaching (r, c). */
  function DestinationsBefore(b: Board, row: int, col: int, r: int, c: int): set<Pos>
    requires WellFormed(b) && InBounds(row, col)
  {
    set p | p in Destinations(b, row, col) && (p.row < r || (p.row == r && p.col < c))
  }

  /** Scanning one more cell adds it exactly when the piece may move there. */
  lemma DestinationsBeforeNext(b: Board, row: int, col: int, r: int, c: int)
    requires WellFormed(b) && InBounds(row, col) && InBounds(r, c)
    ensures DestinationsBefore(b, row, col, r, c + 1) ==
      DestinationsBefore(b, row, col, r, c) + (if IsValidMove(b, row, col, r, c) then {Pos(r, c)} else {})
  {
  }

  /** The end of one row of the scan is the start of the next; the scan starts with nothing and
      ends with every destination. */
  lemma DestinationsBeforeRows(b: Board, row: int, col: int, r: int)
    requires WellFormed(b) && InBounds(row, col) && 0 <= r < Size
    ensures DestinationsBefore(b, row, col, r, Size) == DestinationsBefore(b, row, col, r + 1, 0)
    ensures DestinationsBefore(b, row, col, 0, 0) == {}
    ensures DestinationsBefore(b, row, col, Size, 0) == Destinations(b, row, col)
  {
  }

  // ---------------------------------------------------------------------------
  // The starting position
  // ---------------------------------------------------------------------------

  /** `createBoard`: every cell empty. */
  function EmptyBoard(): (b: Board)
    ensures WellFormed(b)
    ensures forall i, j :: InBounds(i, j) ==> b[i][j] == None
  {
    seq(Size, i => seq(Size, j => None))
  }

  /** `setupPieces`: 'rs6' pieces on the dark cells ((row + col) odd) of rows 0-2, 'watermelon'
      pieces on those of rows 5-7, none crowned. */
  function StartCell(row: int, col: int): Cell
  {
    if (row + col) % 2 == 1 && 0 <= row < 3 then Some(Piece(Rs6, false))
    else if (row + col) % 2 == 1 && 5 <= row < Size then Some(Piece(Watermelon, false))
    else None
  }

  function Initial(): (b: Board)
    ensures WellFormed(b)
    ensures forall i, j :: InBounds(i, j) ==> b[i][j] == StartCell(i, j)
  {
    seq(Size, i => seq(Size, j => StartCell(i, j)))
  }

  /** The rows where side `s` starts. */
  predicate HomeRow(s: Side, row: int)
  {
    if s == Rs6 then 0 <= row < 3 else 5 <= row < Size
  }

  lemma {:induction false} StartRowCount(row: int, k: int, s: Side)
    requires 0 <= row < Size && 0 <= k <= Size
    ensures CountCells(Initial()[row][..k], s) == if HomeRow(s, row) then (k + row % 2) / 2 else 0
  {
    StartCellsCount(Initial()[row], row, k, s);
  }

  lemma {:induction false} StartCellsCount(cells: seq<Cell>, row: int, k: int, s: Side)
    requires 0 <= row < Size && 0 <= k <= |cells|
    requires forall j :: 0 <= j < |cells| ==> cells[j] == StartCell(row, j)
    ensures CountCells(cells[..k], s) == if HomeRow(s, row) then (k + row % 2) / 2 else 0
  {
    if k > 0 {
      var prefix := cells[..k];
      assert prefix[..k - 1] == cells[..k - 1];
      StartCellsCount(cells, row, k - 1, s);
      assert CountCells(prefix, s) == CountCells(cells[..k - 1], s) + OwnCount(cells[k - 1], s);
      assert cells[k - 1] == StartCell(row, k - 1);
      StartCellOwn(row, k - 1, s);
      HalfStep(k - 1 + row % 2);
    }
  }

  lemma StartCellOwn(row: int, col: int, s: Side)
    requires 0 <= row < Size && 0 <= col
    ensures OwnCount(StartCell(row, col), s) == if HomeRow(s, row) && (col + row % 2) % 2 == 1 then 1 else 0
  {
    ParityShift(row, col);
  }

  lemma ParityShift(row: int, col: int)
    requires 0 <= row && 0 <= col
    ensures (row + col) % 2 == (col + row % 2) % 2
  {
  }

  lemma HalfStep(n: nat)
    ensures n / 2 + (if n % 2 == 1 then 1 else 0) == (n + 1) / 2
  {
  }

  lemma {:induction false} StartRowsCount(n: int, s: Side)
    requires 0 <= n <= Size
    ensures CountRows(Initial()[..n], s) ==
      if s == Rs6 then 4 * (if n < 3 then n else 3) else 4 * (if n < 5 then 0 else n - 5)
  {
    var rows := Initial();
    if n > 0 {
      assert rows[..n][..n - 1] == rows[..n - 1];
      StartRowsCount(n - 1, s);
      StartRowCount(n - 1, Size, s);
      assert rows[n - 1][..Size] == rows[n - 1];
    }
  }

  /** The starting position: twelve uncrowned pieces per side, all on dark squares, 'rs6' in rows
      0-2 and 'watermelon' in rows 5-7, rows 3 and 4 empty; no side has won. */
  lemma InitialLayout()
    ensures Count(Initial(), Rs6) == 12 && Count(Initial(), Watermelon) == 12
    ensures Sound(Initial())
    ensures forall i, j :: InBounds(i, j) && Initial()[i][j].Some? ==>
      !Initial()[i][j].value.isKing && HomeRow(Initial()[i][j].value.side, i)
    ensures forall j :: 0 <= j < Size ==> Initial()[3][j] == None && Initial()[4][j] == None
    ensures Winner(Initial()) == None
  {
    StartRowsCount(Size, Rs6);
    StartRowsCount(Size, Watermelon);
    assert Initial()[..Size] == Initial();
  }
}
