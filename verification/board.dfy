/** The optional value used for results that may be missing or for calls that raise. */
module Wrappers {
  datatype Option<+T> = None | Some(value: T)
}

/**
  The 6x7 Connect Four board of game_utils.py: the grid, the gravity drop,
  the draw test and move validation.

  Row 0 is the bottom row. A cell holds NoPlayer (0), Player1 (1) or Player2 (2);
  the board is a plain integer grid, so the functions also accept other values
  wherever the Python code does.
*/
module GameBoard {
  const Rows: int := 6
  const Cols: int := 7

  const NoPlayer: int := 0
  const Player1: int := 1
  const Player2: int := 2

  type Board = seq<seq<int>>

  /** A board has exactly Rows rows of Cols cells each. */
  predicate IsBoard(b: Board) {
    |b| == Rows && forall r :: 0 <= r < Rows ==> |b[r]| == Cols
  }

  predicate ValidColumn(c: int) {
    0 <= c < Cols
  }

  /** Every cell holds NoPlayer, Player1 or Player2. */
  predicate HasPieceValues(b: Board)
    requires IsBoard(b)
  {
    forall r, c :: 0 <= r < Rows && 0 <= c < Cols ==> 0 <= b[r][c] <= 2
  }

  /** Columns fill bottom-up: above an empty cell every cell is empty. */
  predicate Gravity(b: Board)
    requires IsBoard(b)
  {
    forall r, r', c :: 0 <= r <= r' < Rows && 0 <= c < Cols && b[r][c] == NoPlayer ==> b[r'][c] == NoPlayer
  }

  /** The initial position: every cell empty. */
  function InitializeGameState(): (b: Board)
    ensures IsBoard(b) && Gravity(b) && HasPieceValues(b)
    ensures forall r, c :: 0 <= r < Rows && 0 <= c < Cols ==> b[r][c] == NoPlayer
  {
    seq(Rows, r => seq(Cols, c => NoPlayer))
  }

  /** The cells of column `c`, bottom row first (`board[:, c]`). */
  function Column(b: Board, c: int): (col: seq<int>)
    requires IsBoard(b) && ValidColumn(c)
    ensures |col| == Rows && forall r :: 0 <= r < Rows ==> col[r] == b[r][c]
  {
    seq(Rows, r requires 0 <= r < Rows => b[r][c])
  }

  /**
    The ascending indices `i >= from` with `s[i] == 0`: what
    `np.argwhere(column == NO_PLAYER)` lists.
  */
  function ZeroIndices(s: seq<int>, from: nat): (idx: seq<nat>)
    requires from <= |s|
    decreases |s| - from
    ensures forall k :: 0 <= k < |idx| ==> from <= idx[k] < |s| && s[idx[k]] == 0
    ensures forall i :: from <= i < |s| && s[i] == 0 ==> i in idx
    ensures forall k, l :: 0 <= k < l < |idx| ==> idx[k] < idx[l]
  {
    if from == |s| then []
    else if s[from] == 0 then [from] + ZeroIndices(s, from + 1)
    else ZeroIndices(s, from + 1)
  }

  /** `np.any` over a list of indices: some index differs from 0. */
  predicate AnyNonzero(idx: seq<nat>) {
    exists k :: 0 <= k < |idx| && idx[k] != 0
  }

  /**
    The row a piece dropped into column `col` lands in, or -1.
    The test `np.any(np.argwhere(...))` asks whether some empty row has a
    NON-ZERO index, so a column whose only empty cell is row 0 also yields -1.
  */
  function GetLowestEmptyRow(b: Board, col: int): (r: int)
    requires IsBoard(b) && ValidColumn(col)
    ensures -1 <= r < Rows
    ensures r == -1 <==> forall i :: 1 <= i < Rows ==> b[i][col] != NoPlayer
    ensures r >= 0 ==> b[r][col] == NoPlayer && forall i :: 0 <= i < r ==> b[i][col] != NoPlayer
  {
    var empty := ZeroIndices(Column(b, col), 0);
    if AnyNonzero(empty) then empty[0] else -1
  }

  /** A column a piece can be dropped into: `get_lowest_empty_row(...) >= 0`. */
  predicate ColumnHasRoom(b: Board, c: int)
    requires IsBoard(b) && ValidColumn(c)
  {
    GetLowestEmptyRow(b, c) >= 0
  }

  /** The row `board[lowest_empty_row, action]` writes: numpy reads index -1 as the top row. */
  function DropRow(b: Board, action: int): (row: int)
    requires IsBoard(b) && ValidColumn(action)
    ensures 0 <= row < Rows
    ensures ColumnHasRoom(b, action) ==> row == GetLowestEmptyRow(b, action)
    ensures !ColumnHasRoom(b, action) ==> row == Rows - 1
  {
    var low := GetLowestEmptyRow(b, action);
    if low >= 0 then low else low + Rows
  }

  /**
    Sets the cell (DropRow, action) to `player`; nothing else changes. On a
    full column this overwrites the top cell.
  */
  function ApplyPlayerAction(b: Board, action: int, player: int): (r: Board)
    requires IsBoard(b) && ValidColumn(action)
    ensures IsBoard(r)
    ensures r[DropRow(b, action)][action] == player
    ensures forall i, j :: 0 <= i < Rows && 0 <= j < Cols && (i != DropRow(b, action) || j != action) ==> r[i][j] == b[i][j]
  {
    var row := DropRow(b, action);
    b[row := b[row][action := player]]
  }

  /** On a gravity-filled board a column has room exactly when its top cell is empty. */
  lemma GravityColumnHasRoom(b: Board, c: int)
    requires IsBoard(b) && Gravity(b) && ValidColumn(c)
    ensures ColumnHasRoom(b, c) <==> b[Rows - 1][c] == NoPlayer
    ensures !ColumnHasRoom(b, c) ==> forall i :: 0 <= i < Rows ==> b[i][c] != NoPlayer
    ensures ColumnHasRoom(b, c) ==>
      forall i :: 0 <= i < Rows ==> (b[i][c] == NoPlayer <==> i >= GetLowestEmptyRow(b, c))
  {
    if b[Rows - 1][c] == NoPlayer {
      assert !(forall i :: 1 <= i < Rows ==> b[i][c] != NoPlayer);
    }
  }

  /** A move on a gravity-filled board keeps it gravity-filled. */
  lemma ApplyKeepsGravity(b: Board, action: int, player: int)
    requires IsBoard(b) && Gravity(b) && ValidColumn(action) && ColumnHasRoom(b, action)
    ensures Gravity(ApplyPlayerAction(b, action, player))
  {
    var b' := ApplyPlayerAction(b, action, player);
    var low := GetLowestEmptyRow(b, action);
    GravityColumnHasRoom(b, action);
    forall r, r', c | 0 <= r <= r' < Rows && 0 <= c < Cols && b'[r][c] == NoPlayer
      ensures b'[r'][c] == NoPlayer
    {
      if c == action {
        if r == low {
          assert b[r'][c] == NoPlayer;
        } else {
          assert b[r][c] == NoPlayer;
          assert r > low;
        }
      } else {
        assert b[r][c] == NoPlayer;
      }
    }
  }

  /** The number of empty cells in a sequence of rows. */
  function EmptyCells(b: seq<seq<int>>): nat
    decreases |b|
  {
    if |b| == 0 then 0 else EmptyCells(b[..|b| - 1]) + multiset(b[|b| - 1])[NoPlayer]
  }

  lemma {:induction false} EmptyCellsZero(b: seq<seq<int>>)
    ensures EmptyCells(b) == 0 <==> forall r, c :: 0 <= r < |b| && 0 <= c < |b[r]| ==> b[r][c] != NoPlayer
  {
    if |b| > 0 {
      var init := b[..|b| - 1];
      EmptyCellsZero(init);
      var last := b[|b| - 1];
      if EmptyCells(b) == 0 {
        forall r, c | 0 <= r < |b| && 0 <= c < |b[r]|
          ensures b[r][c] != NoPlayer
        {
          if r < |b| - 1 {
            assert b[r] == init[r];
          } else {
            assert last[c] in multiset(last);
          }
        }
      } else if multiset(last)[NoPlayer] > 0 {
        var c :| 0 <= c < |last| && last[c] == NoPlayer;
        assert b[|b| - 1][c] == NoPlayer;
      } else {
        var r, c :| 0 <= r < |init| && 0 <= c < |init[r]| && init[r][c] == NoPlayer;
        assert b[r][c] == NoPlayer;
      }
    }
  }

  /** Filling one empty cell with a piece removes exactly one empty cell. */
  lemma {:induction false} EmptyCellsFill(b: seq<seq<int>>, r: int, c: int, v: int)
    requires 0 <= r < |b| && 0 <= c < |b[r]| && b[r][c] == NoPlayer && v != NoPlayer
    ensures EmptyCells(b[r := b[r][c := v]]) + 1 == EmptyCells(b)
    decreases |b|
  {
    var b' := b[r := b[r][c := v]];
    if r == |b| - 1 {
      assert b'[..|b'| - 1] == b[..|b| - 1];
      var row := b[r];
      assert row == row[..c] + [row[c]] + row[c + 1..];
      assert row[c := v] == row[..c] + [v] + row[c + 1..];
    } else {
      assert b'[..|b'| - 1] == b[..|b| - 1][r := b[r][c := v]];
      EmptyCellsFill(b[..|b| - 1], r, c, v);
    }
  }

  /** `is_draw`: the game is drawn only once no cell is empty. */
  predicate IsDraw(b: Board)
    requires IsBoard(b)
  {
    forall r, c :: 0 <= r < Rows && 0 <= c < Cols ==> b[r][c] != NoPlayer
  }

  /** A draw is exactly a board without empty cells. */
  lemma IsDrawIffNoEmptyCell(b: Board)
    requires IsBoard(b)
    ensures IsDraw(b) <==> EmptyCells(b) == 0
  {
    EmptyCellsZero(b);
  }

  /** On a gravity-filled board that is not full, some column has room. */
  lemma NotFullHasRoom(b: Board) returns (c: int)
    requires IsBoard(b) && Gravity(b) && !IsDraw(b)
    ensures ValidColumn(c) && ColumnHasRoom(b, c)
  {
    var r, c0 :| 0 <= r < Rows && 0 <= c0 < Cols && b[r][c0] == NoPlayer;
    assert b[Rows - 1][c0] == NoPlayer;
    GravityColumnHasRoom(b, c0);
    c := c0;
  }

  /**
    A legal move of a real piece on a gravity-filled board: it lands on the
    lowest empty cell, the board stays gravity-filled, and one empty cell fewer remains.
  */
  lemma LegalMoveFillsOneCell(b: Board, action: int, player: int)
    requires IsBoard(b) && Gravity(b) && ValidColumn(action) && ColumnHasRoom(b, action)
    requires player != NoPlayer
    ensures var b' := ApplyPlayerAction(b, action, player);
      && Gravity(b')
      && b[GetLowestEmptyRow(b, action)][action] == NoPlayer
      && EmptyCells(b') + 1 == EmptyCells(b)
  {
    ApplyKeepsGravity(b, action, player);
    var row := GetLowestEmptyRow(b, action);
    EmptyCellsFill(b, row, action, player);
  }

  /** Moves in one column stack upward: after a legal move the column's next free row is one higher. */
  lemma StackingMoves(b: Board, action: int, player: int)
    requires IsBoard(b) && Gravity(b) && ValidColumn(action) && ColumnHasRoom(b, action)
    requires player != NoPlayer
    ensures var low := GetLowestEmptyRow(b, action);
      var low' := GetLowestEmptyRow(ApplyPlayerAction(b, action, player), action);
      if low < Rows - 1 then low' == low + 1 else low' == -1
  {
    var b' := ApplyPlayerAction(b, action, player);
    var low := GetLowestEmptyRow(b, action);
    GravityColumnHasRoom(b, action);
    ApplyKeepsGravity(b, action, player);
    GravityColumnHasRoom(b', action);
    if low < Rows - 1 {
      assert b'[low + 1][action] == NoPlayer;
      assert b'[low][action] != NoPlayer;
    }
  }

  /** A legal move changes its column only at the lowest empty row. */
  lemma ApplyColumn(b: Board, action: int, player: int)
    requires IsBoard(b) && ValidColumn(action) && ColumnHasRoom(b, action)
    ensures Column(ApplyPlayerAction(b, action, player), action) == Column(b, action)[GetLowestEmptyRow(b, action) := player]
  {
  }

  /** The 8-bit integers a PlayerAction (np.int8) can hold. */
  newtype Int8 = x: int | -128 <= x < 128

  /** The argument of check_move_status: an np.int8 action, or a value of any other type. */
  datatype ColumnArg = Action(value: Int8) | OtherType

  datatype MoveStatus = IsValid | WrongType | OutOfBounds | FullColumn

  /** `check_move_status`: type first, then upper bound, lower bound, then a full column. */
  function CheckMoveStatus(b: Board, column: ColumnArg): (s: MoveStatus)
    requires IsBoard(b)
    ensures s == IsValid <==> column.Action? && ValidColumn(column.value as int) && ColumnHasRoom(b, column.value as int)
    ensures s == WrongType <==> column.OtherType?
    ensures s == OutOfBounds <==> column.Action? && !ValidColumn(column.value as int)
    ensures s == FullColumn ==> forall i :: 1 <= i < Rows ==> b[i][column.value as int] != NoPlayer
  {
    match column
    case OtherType => WrongType
    case Action(v) =>
      if v >= Cols as Int8 then OutOfBounds
      else if v < 0 then OutOfBounds
      else if GetLowestEmptyRow(b, v as int) == -1 then FullColumn
      else IsValid
  }
}
