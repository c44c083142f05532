/** The `CheckersGame` object: an 8x8 board updated in place, the side to move and the selected
    piece, with the operations the page calls. Each method is proved against the pure rules. */
module Game {
  import opened Rules

  class CheckersGame {
    var board: array2<Cell>
    var currentPlayer: Side
    var selectedPiece: Option<Pos>

    /** The board as a value, kept equal to the grid. */
    ghost var cells: Board

    /** The grid is 8x8 and holds `cells`. */
    ghost predicate Synced()
      reads this, board
    {
      board.Length0 == Size && board.Length1 == Size && WellFormed(cells) &&
      forall i, j :: InBounds(i, j) ==> board[i, j] == cells[i][j]
    }

    /** The object invariant: the grid holds a board every game reaches (pieces on dark squares,
        at most twelve per side), and a selection, when there is one, is on a piece of the side to
        move. */
    ghost predicate Valid()
      reads this, board
    {
      Synced() && Sound(cells) &&
      (selectedPiece.Some? ==>
        InBounds(selectedPiece.value.row, selectedPiece.value.col) &&
        Owns(cells[selectedPiece.value.row][selectedPiece.value.col], currentPlayer))
    }

    /** `constructor`: 'rs6' to move, nothing selected, the starting position. */
    constructor ()
      ensures Valid() && fresh(board)
      ensures cells == Initial() && currentPlayer == Rs6 && selectedPiece == None
    {
      currentPlayer := Rs6;
      selectedPiece := None;
      board := new Cell[0, 0];
      cells := [];
      new;
      Init();
    }

    /** `init`: a fresh empty grid, then the pieces (rendering is not modelled). */
    method Init()
      requires selectedPiece == None
      modifies this
      ensures Valid() && fresh(board)
      ensures cells == Initial()
      ensures currentPlayer == old(currentPlayer) && selectedPiece == None
    {
      CreateBoard();
      SetupPieces();
      BoardsEqual(cells, Initial());
      InitialLayout();
    }

    /** `createBoard`, board part: a new grid with every cell empty. */
    method CreateBoard()
      modifies this
      ensures Synced() && fresh(board)
      ensures cells == EmptyBoard()
      ensures currentPlayer == old(currentPlayer) && selectedPiece == old(selectedPiece)
    {
      var grid := new Cell[Size, Size];
      for row := 0 to Size
        modifies grid
        invariant forall i, j :: 0 <= i < row && 0 <= j < Size ==> grid[i, j] == None
      {
        for col := 0 to Size
          modifies grid
          invariant forall i, j :: 0 <= i < row && 0 <= j < Size ==> grid[i, j] == None
          invariant forall j :: 0 <= j < col ==> grid[row, j] == None
        {
          grid[row, col] := None;
        }
      }
      board := grid;
      cells := EmptyBoard();
    }

    /** `setupPieces`: each cell of the starting layout that holds a piece is written; every other
        cell keeps what it held. */
    method SetupPieces()
      requires Synced()
      modifies this`cells, board
      ensures Synced()
      ensures forall i, j :: InBounds(i, j) ==>
        cells[i][j] == if StartCell(i, j).Some? then StartCell(i, j) else old(cells)[i][j]
    {
      for row := 0 to 3
        modifies board
        invariant forall i, j :: InBounds(i, j) ==>
          board[i, j] == if i < row && (i + j) % 2 == 1 then Some(Piece(Rs6, false)) else old(board[i, j])
      {
        for col := 0 to Size
          invariant forall i, j :: InBounds(i, j) ==>
            board[i, j] ==
              if (i < row || (i == row && j < col)) && (i + j) % 2 == 1 then Some(Piece(Rs6, false))
              else old(board[i, j])
        {
          if (row + col) % 2 == 1 {
            board[row, col] := Some(Piece(Rs6, false));
          }
        }
      }
      for row := 5 to Size
        modifies board
        invariant forall i, j :: InBounds(i, j) ==>
          board[i, j] ==
            if (i < 3 || 5 <= i < row) && (i + j) % 2 == 1 then StartCell(i, j) else old(board[i, j])
      {
        for col := 0 to Size
          invariant forall i, j :: InBounds(i, j) ==>
            board[i, j] ==
              if (i < 3 || 5 <= i < row || (i == row && j < col)) && (i + j) % 2 == 1 then StartCell(i, j)
              else old(board[i, j])
        {
          if (row + col) % 2 == 1 {
            board[row, col] := Some(Piece(Watermelon, false));
          }
        }
      }
      var before := cells;
      cells := seq(Size, i requires 0 <= i < Size =>
        seq(Size, j requires 0 <= j < Size => if StartCell(i, j).Some? then StartCell(i, j) else before[i][j]));
    }

    /** `isValidMove` on the grid. */
    method IsValidMove(fromRow: int, fromCol: int, toRow: int, toCol: int) returns (ok: bool)
      requires Synced() && InBounds(fromRow, fromCol) && InBounds(toRow, toCol)
      ensures ok == Rules.IsValidMove(cells, fromRow, fromCol, toRow, toCol)
    {
      var piece := board[fromRow, fromCol];
      if piece.None? {
        return false;
      }
      var rowDiff := toRow - fromRow;
      var colDiff := toCol - fromCol;
      if !piece.value.isKing && Sign(rowDiff) != Direction(piece.value.side) {
        return false;
      }
      if Abs(rowDiff) != Abs(colDiff) {
        return false;
      }
      if Abs(rowDiff) == 1 {
        return board[toRow, toCol].None?;
      }
      if Abs(rowDiff) == 2 {
        var midPiece := board[(fromRow + toRow) / 2, (fromCol + toCol) / 2];
        return midPiece.Some? && midPiece.value.side != piece.value.side && board[toRow, toCol].None?;
      }
      return false;
    }

    /** `makeMove` on the grid: the cells are written in the order the game writes them. */
    method MakeMove(fromRow: int, fromCol: int, toRow: int, toCol: int)
      requires Synced() && InBounds(fromRow, fromCol) && InBounds(toRow, toCol)
      requires Rules.IsValidMove(cells, fromRow, fromCol, toRow, toCol)
      modifies this`cells, board
      ensures Synced()
      ensures cells == Rules.MakeMove(old(cells), fromRow, fromCol, toRow, toCol)
    {
      var piece := board[fromRow, fromCol].value;
      Set(toRow, toCol, Some(piece));
      Set(fromRow, fromCol, None);
      if (piece.side == Rs6 && toRow == Size - 1) || (piece.side == Watermelon && toRow == 0) {
        // the flag is set on the object now stored at the destination
        Set(toRow, toCol, Some(piece.(isKing := true)));
      }
      var rowDiff := Abs(toRow - fromRow);
      if rowDiff == 2 {
        Set((fromRow + toRow) / 2, (fromCol + toCol) / 2, None);
      }
    }

    /** One assignment to a cell of the grid. */
    method Set(row: int, col: int, c: Cell)
      requires Synced() && InBounds(row, col)
      modifies this`cells, board
      ensures Synced() && cells == Put(old(cells), row, col, c)
    {
      board[row, col] := c;
      cells := Put(cells, row, col, c);
    }

    /** `showAvailableMoves`: the cells it marks as available for the piece on (row, col). */
    method ShowAvailableMoves(row: int, col: int) returns (available: set<Pos>)
      requires Synced() && InBounds(row, col)
      ensures available == Destinations(cells, row, col)
    {
      available := {};
      if board[row, col].None? {
        return;
      }
      for toRow := 0 to Size
        invariant available == DestinationsBefore(cells, row, col, toRow, 0)
      {
        for toCol := 0 to Size
          invariant available == DestinationsBefore(cells, row, col, toRow, toCol)
        {
          var ok := IsValidMove(row, col, toRow, toCol);
          DestinationsBeforeNext(cells, row, col, toRow, toCol);
          if ok {
            available := available + {Pos(toRow, toCol)};
          }
        }
        DestinationsBeforeRows(cells, row, col, toRow);
      }
      DestinationsBeforeRows(cells, row, col, 0);
    }

    /** `switchPlayer`: the other side is to move. */
    method SwitchPlayer()
      modifies this`currentPlayer
      ensures currentPlayer == Opponent(old(currentPlayer))
    {
      currentPlayer := if currentPlayer == Rs6 then Watermelon else Rs6;
    }

    /** `getScores`: the pieces each side has on the board. */
    method GetScores() returns (rs6: nat, watermelon: nat)
      requires Synced()
      ensures rs6 == Count(cells, Rs6) && watermelon == Count(cells, Watermelon)
    {
      rs6, watermelon := 0, 0;
      for row := 0 to Size
        invariant rs6 == CountRows(cells[..row], Rs6) && watermelon == CountRows(cells[..row], Watermelon)
      {
        for col := 0 to Size
          invariant rs6 == CountRows(cells[..row], Rs6) + CountCells(cells[row][..col], Rs6)
          invariant watermelon == CountRows(cells[..row], Watermelon) + CountCells(cells[row][..col], Watermelon)
        {
          assert cells[row][..col + 1][..col] == cells[row][..col];
          var piece := board[row, col];
          if piece.Some? {
            if piece.value.side == Rs6 {
              rs6 := rs6 + 1;
            } else {
              watermelon := watermelon + 1;
            }
          }
        }
        assert cells[row][..Size] == cells[row];
        assert cells[..row + 1][..row] == cells[..row];
      }
      assert cells[..Size] == cells;
    }

    /** `checkGameEnd`, without the announcement: the side that has won, if any. */
    method CheckGameEnd() returns (winner: Option<Side>)
      requires Synced()
      ensures winner == Winner(cells)
    {
      var rs6, watermelon := GetScores();
      if rs6 == 0 {
        winner := Some(Watermelon);
      } else if watermelon == 0 {
        winner := Some(Rs6);
      } else {
        winner := None;
      }
    }

    /** The side to move has a piece on (row, col). */
    ghost predicate OwnPieceAt(row: int, col: int)
      reads this
      requires WellFormed(cells) && InBounds(row, col)
    {
      Owns(cells[row][col], currentPlayer)
    }

    /** A piece is selected and may move to (row, col). */
    ghost predicate SelectionMayMoveTo(row: int, col: int)
      reads this, board
      requires Valid() && InBounds(row, col)
    {
      selectedPiece.Some? &&
      Rules.IsValidMove(cells, selectedPiece.value.row, selectedPiece.value.col, row, col)
    }

    /** `handleCellClick`: a click on a piece of the side to move selects it; otherwise, when the
        selected piece may move to the clicked cell, the move is made, the selection cleared, the
        turn passed and the end of the game checked; any other click changes nothing. The result is
        the winner `checkGameEnd` announces, if any (the delayed announcement and reset are not
        modelled). */
    method HandleCellClick(row: int, col: int) returns (winner: Option<Side>)
      requires Valid() && InBounds(row, col)
      modifies this, board
      ensures Valid() && board == old(board)
      ensures old(OwnPieceAt(row, col)) ==>
        selectedPiece == Some(Pos(row, col)) &&
        cells == old(cells) && currentPlayer == old(currentPlayer) && winner == None
      ensures !old(OwnPieceAt(row, col)) && old(SelectionMayMoveTo(row, col)) ==>
        cells == Rules.MakeMove(old(cells), old(selectedPiece).value.row, old(selectedPiece).value.col, row, col) &&
        selectedPiece == None && currentPlayer == Opponent(old(currentPlayer)) && winner == Winner(cells)
      ensures !old(OwnPieceAt(row, col)) && !old(SelectionMayMoveTo(row, col)) ==>
        cells == old(cells) && currentPlayer == old(currentPlayer) &&
        selectedPiece == old(selectedPiece) && winner == None
    {
      winner := None;
      var piece := board[row, col];
      if piece.Some? && piece.value.side == currentPlayer {
        selectedPiece := Some(Pos(row, col));
        return;
      }
      if selectedPiece.Some? {
        var from := selectedPiece.value;
        var ok := IsValidMove(from.row, from.col, row, col);
        if ok {
          MovePreservesSound(cells, from.row, from.col, row, col);
          MakeMove(from.row, from.col, row, col);
          selectedPiece := None;
          SwitchPlayer();
          winner := CheckGameEnd();
        }
      }
    }

    /** `reset`: the starting state, whatever the state before. */
    method Reset()
      modifies this
      ensures Valid() && fresh(board)
      ensures cells == Initial() && currentPlayer == Rs6 && selectedPiece == None
    {
      currentPlayer := Rs6;
      selectedPiece := None;
      board := new Cell[0, 0];
      Init();
    }
  }
}
