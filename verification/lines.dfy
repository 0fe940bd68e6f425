/**
  Four-in-a-row detection of game_utils.py: the window scan shared by the
  row, column and diagonal checks, numpy's diagonals, `connected_four` and
  `check_end_state`.

  Two places in the source miss wins; each is kept here as written
  (ConnectedFourAsWritten, DiagonalWinCheckAsWritten) next to the corrected
  definition (ConnectedFour, DiagonalWinCheck). CheckEndState, and so the
  rollout, judges a move as the source does, with the as-written check;
  CheckEndStateFixed is the corrected end state.
*/
module Lines {
  import opened GameBoard

  predicate InBoard(i: int, j: int) {
    0 <= i < Rows && 0 <= j < Cols
  }

  /**
    The reference meaning of "four in a row": four cells starting at (i, j)
    and stepping by (di, dj) lie on the board and all hold `player`.
  */
  predicate Four(b: Board, player: int, i: int, j: int, di: int, dj: int)
    requires IsBoard(b)
  {
    && InBoard(i, j) && InBoard(i + di, j + dj) && InBoard(i + 2 * di, j + 2 * dj) && InBoard(i + 3 * di, j + 3 * dj)
    && b[i][j] == player && b[i + di][j + dj] == player
    && b[i + 2 * di][j + 2 * dj] == player && b[i + 3 * di][j + 3 * dj] == player
  }

  /** A four-in-a-row of `player` along row `r`. */
  ghost predicate RowFour(b: Board, player: int, r: int)
    requires IsBoard(b)
  {
    exists j :: Four(b, player, r, j, 0, 1)
  }

  /** A four-in-a-row of `player` up column `c`. */
  ghost predicate ColumnFour(b: Board, player: int, c: int)
    requires IsBoard(b)
  {
    exists i :: Four(b, player, i, c, 1, 0)
  }

  /** A four-in-a-row of `player` along the diagonal of cells (i, j) with `j - i == k`. */
  ghost predicate DiagFour(b: Board, player: int, k: int)
    requires IsBoard(b)
  {
    exists i, j :: j - i == k && Four(b, player, i, j, 1, 1)
  }

  /** A four-in-a-row of `player` along the anti-diagonal of cells (i, j) with `i + j == sum`. */
  ghost predicate AntiDiagFour(b: Board, player: int, sum: int)
    requires IsBoard(b)
  {
    exists i, j :: i + j == sum && Four(b, player, i, j, 1, -1)
  }

  /** Four in a row on row `r`, on column `c`, or on one of the two diagonals through (r, c). */
  ghost predicate FourOnLinesOf(b: Board, player: int, r: int, c: int)
    requires IsBoard(b)
  {
    RowFour(b, player, r) || ColumnFour(b, player, c) || DiagFour(b, player, c - r) || AntiDiagFour(b, player, r + c)
  }

  /** The slice `line[j:j+4]` exists and equals `np.ones(4) * player`. */
  predicate WindowAt(line: seq<int>, player: int, j: int) {
    0 <= j && j + 4 <= |line|
    && line[j] == player && line[j + 1] == player && line[j + 2] == player && line[j + 3] == player
  }

  /** The loop `for idx in range(len(line) - 3)` of the win checks, from window `idx` on. */
  function ScanWindows(line: seq<int>, player: int, idx: nat): (found: bool)
    decreases |line| - idx
    ensures found <==> exists j :: idx <= j && WindowAt(line, player, j)
  {
    if idx + 4 > |line| then false
    else if WindowAt(line, player, idx) then true
    else ScanWindows(line, player, idx + 1)
  }

  /** A window of row `row` is a horizontal four-in-a-row. */
  lemma RowWindows(b: Board, row: int, player: int)
    requires IsBoard(b) && 0 <= row < Rows
    ensures ScanWindows(b[row], player, 0) <==> RowFour(b, player, row)
  {
    if ScanWindows(b[row], player, 0) {
      var j :| 0 <= j && WindowAt(b[row], player, j);
      assert Four(b, player, row, j, 0, 1);
    }
    if RowFour(b, player, row) {
      var j :| Four(b, player, row, j, 0, 1);
      assert WindowAt(b[row], player, j);
    }
  }

  /** A window of column `col` is a vertical four-in-a-row. */
  lemma ColumnWindows(b: Board, col: int, player: int)
    requires IsBoard(b) && ValidColumn(col)
    ensures ScanWindows(Column(b, col), player, 0) <==> ColumnFour(b, player, col)
  {
    var line := Column(b, col);
    if ScanWindows(line, player, 0) {
      var i :| 0 <= i && WindowAt(line, player, i);
      assert Four(b, player, i, col, 1, 0);
    }
    if ColumnFour(b, player, col) {
      var i :| Four(b, player, i, col, 1, 0);
      assert WindowAt(line, player, i);
    }
  }

  /** `horizontal_win_check(board[row, :], player)`. */
  function HorizontalWinCheck(b: Board, row: int, player: int): (won: bool)
    requires IsBoard(b) && 0 <= row < Rows
    ensures won <==> RowFour(b, player, row)
  {
    RowWindows(b, row, player);
    ScanWindows(b[row], player, 0)
  }

  /** `vertical_win_check(board[:, col], player)`. */
  function VerticalWinCheck(b: Board, col: int, player: int): (won: bool)
    requires IsBoard(b) && ValidColumn(col)
    ensures won <==> ColumnFour(b, player, col)
  {
    ColumnWindows(b, col, player);
    ScanWindows(Column(b, col), player, 0)
  }

  function Min(x: int, y: int): int {
    if x <= y then x else y
  }

  /** The length of `np.diag(board, k)` on a Rows x Cols board (0 when the offset misses the board). */
  function DiagLen(k: int): (n: nat)
    ensures n <= Rows
  {
    if k >= 0 then (if Cols - k <= 0 then 0 else Min(Rows, Cols - k))
    else (if Rows + k <= 0 then 0 else Min(Rows + k, Cols))
  }

  /** `np.diag(board, k)`: cells (t, t + k) for k >= 0 and (t - k, t) for k < 0. */
  function Diag(b: Board, k: int): (d: seq<int>)
    requires IsBoard(b)
    ensures |d| == DiagLen(k)
    ensures k >= 0 ==> forall t :: 0 <= t < |d| ==> d[t] == b[t][t + k]
    ensures k < 0 ==> forall t :: 0 <= t < |d| ==> d[t] == b[t - k][t]
  {
    seq(DiagLen(k), t requires 0 <= t < DiagLen(k) => if k >= 0 then b[t][t + k] else b[t - k][t])
  }

  /** `np.fliplr(board)`. */
  function FlipLR(b: Board): (f: Board)
    requires IsBoard(b)
    ensures IsBoard(f)
    ensures forall i, j :: 0 <= i < Rows && 0 <= j < Cols ==> f[i][j] == b[i][Cols - 1 - j]
  {
    seq(Rows, i requires 0 <= i < Rows => seq(Cols, j requires 0 <= j < Cols => b[i][Cols - 1 - j]))
  }

  /** The board cell that entry `t` of diagonal `k` reads. */
  function DiagCell(k: int, t: int): (int, int) {
    if k >= 0 then (t, t + k) else (t - k, t)
  }

  lemma DiagWindowIsFour(b: Board, k: int, player: int, t: int)
    requires IsBoard(b) && WindowAt(Diag(b, k), player, t)
    ensures Four(b, player, DiagCell(k, t).0, DiagCell(k, t).1, 1, 1)
  {
    var d := Diag(b, k);
    if k >= 0 {
      assert t + 4 <= Rows && t + k + 4 <= Cols;
      WindowIsFour(b, player, d, t, t, t + k);
    } else {
      assert t - k + 4 <= Rows && t + 4 <= Cols;
      WindowIsFour(b, player, d, t, t - k, t);
    }
  }

  /** A window whose four entries are the cells (i, j) .. (i + 3, j + 3) is a four-in-a-row there. */
  lemma WindowIsFour(b: Board, player: int, d: seq<int>, t: int, i: int, j: int)
    requires IsBoard(b) && WindowAt(d, player, t)
    requires 0 <= i && 0 <= j && i + 4 <= Rows && j + 4 <= Cols
    requires d[t] == b[i][j] && d[t + 1] == b[i + 1][j + 1] && d[t + 2] == b[i + 2][j + 2] && d[t + 3] == b[i + 3][j + 3]
    ensures Four(b, player, i, j, 1, 1)
  {
  }

  lemma FourIsDiagWindow(b: Board, player: int, i: int, j: int)
    requires IsBoard(b) && Four(b, player, i, j, 1, 1)
    ensures var k := j - i; WindowAt(Diag(b, k), player, if k >= 0 then i else j)
  {
    var k := j - i;
    var d := Diag(b, k);
    if k >= 0 {
      assert i + 4 <= |d|;
      FourIsWindow(b, player, d, i, i, j);
    } else {
      assert j + 4 <= |d|;
      FourIsWindow(b, player, d, j, i, j);
    }
  }

  /** A four-in-a-row at (i, j) .. (i + 3, j + 3) whose cells are four entries of `d` is a window of `d`. */
  lemma FourIsWindow(b: Board, player: int, d: seq<int>, t: int, i: int, j: int)
    requires IsBoard(b) && Four(b, player, i, j, 1, 1)
    requires 0 <= t && t + 4 <= |d|
    requires d[t] == b[i][j] && d[t + 1] == b[i + 1][j + 1] && d[t + 2] == b[i + 2][j + 2] && d[t + 3] == b[i + 3][j + 3]
    ensures WindowAt(d, player, t)
  {
  }

  /** A window on diagonal `k` is a four-in-a-row in direction (1, 1) with `j - i == k`. */
  lemma DiagWindows(b: Board, k: int, player: int)
    requires IsBoard(b)
    ensures ScanWindows(Diag(b, k), player, 0) <==> DiagFour(b, player, k)
  {
    var d := Diag(b, k);
    if ScanWindows(d, player, 0) {
      var t :| 0 <= t && WindowAt(d, player, t);
      DiagWindowIsFour(b, k, player, t);
      var (i, j) := DiagCell(k, t);
      assert j - i == k && Four(b, player, i, j, 1, 1);
    }
    if DiagFour(b, player, k) {
      var i, j :| j - i == k && Four(b, player, i, j, 1, 1);
      FourIsDiagWindow(b, player, i, j);
    }
  }

  /** A (1, 1) four-in-a-row of the mirrored board is a (1, -1) four-in-a-row of the board, and back. */
  lemma MirrorFour(b: Board, player: int, i: int, j: int)
    requires IsBoard(b)
    ensures Four(FlipLR(b), player, i, j, 1, 1) <==> Four(b, player, i, Cols - 1 - j, 1, -1)
  {
    var f := FlipLR(b);
    if InBoard(i, j) && InBoard(i + 3, j + 3) {
      assert f[i][j] == b[i][Cols - 1 - j];
      assert f[i + 1][j + 1] == b[i + 1][Cols - 1 - j - 1];
      assert f[i + 2][j + 2] == b[i + 2][Cols - 1 - j - 2];
      assert f[i + 3][j + 3] == b[i + 3][Cols - 1 - j - 3];
    }
  }

  /**
    A window on diagonal `k` of the mirrored board is a four-in-a-row in
    direction (1, -1) with `i + j == sum`, where `k == Cols - 1 - sum`.
  */
  lemma AntiDiagWindows(b: Board, k: int, sum: int, player: int)
    requires IsBoard(b) && k == Cols - 1 - sum
    ensures ScanWindows(Diag(FlipLR(b), k), player, 0) <==> AntiDiagFour(b, player, sum)
  {
    var f := FlipLR(b);
    DiagWindows(f, k, player);
    if DiagFour(f, player, k) {
      var i, j :| j - i == k && Four(f, player, i, j, 1, 1);
      MirrorFour(b, player, i, j);
      assert i + (Cols - 1 - j) == sum;
    }
    if AntiDiagFour(b, player, sum) {
      var i, j :| i + j == sum && Four(b, player, i, j, 1, -1);
      MirrorFour(b, player, i, Cols - 1 - j);
      assert (Cols - 1 - j) - i == k;
    }
  }

  /** Diagonal `col - row` and mirrored diagonal `(Cols - 1 - col) - row` both pass through (row, col). */
  lemma DiagonalsPassThrough(b: Board, row: int, col: int)
    requires IsBoard(b) && InBoard(row, col)
    ensures var d := Diag(b, col - row); var t := Min(row, col); 0 <= t < |d| && d[t] == b[row][col]
    ensures var a := Diag(FlipLR(b), (Cols - 1 - col) - row); var t := Min(row, Cols - 1 - col);
      0 <= t < |a| && a[t] == b[row][col]
  {
    DiagThrough(b, row, col);
    var f := FlipLR(b);
    DiagThrough(f, row, Cols - 1 - col);
    assert f[row][Cols - 1 - col] == b[row][col];
  }

  /** Diagonal `col - row` passes through (row, col) at entry `Min(row, col)`. */
  lemma DiagThrough(b: Board, row: int, col: int)
    requires IsBoard(b) && InBoard(row, col)
    ensures var d := Diag(b, col - row); var t := Min(row, col); 0 <= t < |d| && d[t] == b[row][col]
  {
    if col >= row {
      assert Min(row, col) == row;
    } else {
      assert Min(row, col) == col;
    }
  }

  /**
    `diagonal_win_check` with the early exits removed: a win on either
    diagonal through (rowIdx, colIdx).
  */
  function DiagonalWinCheck(b: Board, rowIdx: int, colIdx: int, player: int): (won: bool)
    requires IsBoard(b)
    ensures won <==>
      DiagFour(b, player, colIdx - rowIdx) || AntiDiagFour(b, player, rowIdx + colIdx)
  {
    DiagScan(b, colIdx - rowIdx, player)
    || AntiDiagScan(b, (Cols - 1 - colIdx) - rowIdx, rowIdx + colIdx, player)
  }

  /** The scan of `np.diag(board, k)`: a win on diagonal `k`. */
  function DiagScan(b: Board, k: int, player: int): (found: bool)
    requires IsBoard(b)
    ensures found <==> DiagFour(b, player, k)
  {
    DiagWindows(b, k, player);
    ScanWindows(Diag(b, k), player, 0)
  }

  /** The scan of `np.diag(np.fliplr(board), k)`: a win on the anti-diagonal with `i + j == sum`. */
  function AntiDiagScan(b: Board, k: int, sum: int, player: int): (found: bool)
    requires IsBoard(b) && k == Cols - 1 - sum
    ensures found <==> AntiDiagFour(b, player, sum)
  {
    AntiDiagWindows(b, k, sum, player);
    ScanWindows(Diag(FlipLR(b), k), player, 0)
  }

  /**
    `diagonal_win_check` as written: it returns false as soon as EITHER
    diagonal has fewer than four cells, before looking at the other one.
  */
  function DiagonalWinCheckAsWritten(b: Board, rowIdx: int, colIdx: int, player: int): (won: bool)
    requires IsBoard(b)
    ensures won <==> DiagLen(colIdx - rowIdx) >= 4 && DiagLen((Cols - 1 - colIdx) - rowIdx) >= 4
                     && DiagonalWinCheck(b, rowIdx, colIdx, player)
  {
    var diagonal := Diag(b, colIdx - rowIdx);
    var antiDiagonal := Diag(FlipLR(b), (Cols - 1 - colIdx) - rowIdx);
    if |diagonal| < 4 then false
    else if |antiDiagonal| < 4 then false
    else ScanWindows(diagonal, player, 0) || ScanWindows(antiDiagonal, player, 0)
  }

  /**
    The row of the piece the last move put in column `c`, as the comments of
    `connected_four` intend: one below the lowest empty row, or the top row
    when the column is full (`row_idx = -1`).
  */
  function LastMoveRow(b: Board, c: int): (row: int)
    requires IsBoard(b) && ValidColumn(c)
    ensures 0 <= row < Rows
  {
    var low := GetLowestEmptyRow(b, c);
    if low >= 1 then low - 1 else Rows - 1
  }

  /** After a legal move on a gravity-filled board, LastMoveRow finds the cell the piece landed in. */
  lemma LastMoveRowFindsPiece(b: Board, c: int, player: int)
    requires IsBoard(b) && Gravity(b) && ValidColumn(c) && ColumnHasRoom(b, c) && player != NoPlayer
    ensures LastMoveRow(ApplyPlayerAction(b, c, player), c) == GetLowestEmptyRow(b, c)
  {
    StackingMoves(b, c, player);
  }

  /**
    `connected_four` as intended: a four-in-a-row of `player` on the row,
    the column or a diagonal through the cell of the last piece.
  */
  function ConnectedFour(b: Board, lastAction: int, player: int): (won: bool)
    requires IsBoard(b) && ValidColumn(lastAction)
    ensures won <==> FourOnLinesOf(b, player, LastMoveRow(b, lastAction), lastAction)
  {
    var rowIdx := LastMoveRow(b, lastAction);
    HorizontalWinCheck(b, rowIdx, player)
    || VerticalWinCheck(b, lastAction, player)
    || DiagonalWinCheck(b, rowIdx, lastAction, player)
  }

  /** The `row_idx` computed by `connected_four` as written: -1 from a full column is truthy, giving -2. */
  function RowIndexAsWritten(b: Board, c: int): (rowIdx: int)
    requires IsBoard(b) && ValidColumn(c)
    ensures -2 <= rowIdx < Rows - 1
    ensures GetLowestEmptyRow(b, c) == -1 ==> rowIdx == -2
    ensures GetLowestEmptyRow(b, c) >= 1 ==> rowIdx == LastMoveRow(b, c)
  {
    var low := GetLowestEmptyRow(b, c);
    if low != 0 then low - 1 else -1
  }

  /**
    `connected_four` as written. The row check reads `board[row_idx, :]` with
    numpy's wrap-around; the diagonal check gets the raw, possibly negative, `row_idx`.
  */
  function ConnectedFourAsWritten(b: Board, lastAction: int, player: int): (won: bool)
    requires IsBoard(b) && ValidColumn(lastAction)
    ensures GetLowestEmptyRow(b, lastAction) >= 1 ==> (won ==> ConnectedFour(b, lastAction, player))
  {
    var rowIdx := RowIndexAsWritten(b, lastAction);
    var row := if rowIdx < 0 then rowIdx + Rows else rowIdx;
    HorizontalWinCheck(b, row, player)
    || VerticalWinCheck(b, lastAction, player)
    || DiagonalWinCheckAsWritten(b, rowIdx, lastAction, player)
  }

  /**
    What `connected_four` as written finds when the column is not full: a
    four on the row or the column of the last piece, or on a diagonal through
    it, but the diagonals only when both have at least four cells.
  */
  lemma ConnectedFourAsWrittenNotFull(b: Board, c: int, player: int)
    requires IsBoard(b) && ValidColumn(c) && GetLowestEmptyRow(b, c) >= 1
    ensures var r := LastMoveRow(b, c);
      ConnectedFourAsWritten(b, c, player) <==>
        RowFour(b, player, r) || ColumnFour(b, player, c)
        || (DiagLen(c - r) >= 4 && DiagLen(Cols - 1 - c - r) >= 4
            && (DiagFour(b, player, c - r) || AntiDiagFour(b, player, r + c)))
  {
    var r := LastMoveRow(b, c);
    var won := ConnectedFourAsWritten(b, c, player);
    assert won == (HorizontalWinCheck(b, r, player) || VerticalWinCheck(b, c, player)
                   || DiagonalWinCheckAsWritten(b, r, c, player));
    DiagonalsAsWritten(b, r, c, player);
  }

  /** The as-written diagonal check on the two diagonals through (r, c). */
  lemma DiagonalsAsWritten(b: Board, r: int, c: int, player: int)
    requires IsBoard(b)
    ensures DiagonalWinCheckAsWritten(b, r, c, player) <==>
      DiagLen(c - r) >= 4 && DiagLen(Cols - 1 - c - r) >= 4
      && (DiagFour(b, player, c - r) || AntiDiagFour(b, player, r + c))
  {
  }

  /**
    What `connected_four` as written finds when the column is full (`row_idx`
    -2) or empty (`row_idx` -1): a four on row 4 or row 5 respectively, or on
    the column. Neither diagonal check runs, as one of the two diagonals is
    shorter than four cells.
  */
  lemma ConnectedFourAsWrittenNoRoom(b: Board, c: int, player: int)
    requires IsBoard(b) && ValidColumn(c) && GetLowestEmptyRow(b, c) <= 0
    ensures GetLowestEmptyRow(b, c) == -1 ==> (ConnectedFourAsWritten(b, c, player) <==> RowFour(b, player, 4) || ColumnFour(b, player, c))
    ensures GetLowestEmptyRow(b, c) == 0 ==> (ConnectedFourAsWritten(b, c, player) <==> RowFour(b, player, 5) || ColumnFour(b, player, c))
  {
    var rowIdx := RowIndexAsWritten(b, c);
    ShortDiagonalsAboveBoard(c, rowIdx);
    assert !DiagonalWinCheckAsWritten(b, rowIdx, c, player);
  }

  /** A negative `row_idx` leaves at least one of the two diagonals shorter than four cells. */
  lemma ShortDiagonalsAboveBoard(c: int, rowIdx: int)
    requires ValidColumn(c) && -2 <= rowIdx
    ensures rowIdx < 0 ==> DiagLen(c - rowIdx) < 4 || DiagLen(Cols - 1 - c - rowIdx) < 4
  {
  }

  /**
    Columns 0 to 2 full, column 3 one short of full, the top row holding three
    pieces of Player1. Twelve pieces each and no four in a row: Player1
    starting, the columns 2 1 0 1 1 1 1 3 1 3 0 3 3 2 2 0 0 2 0 2 2 4 0 3
    reach it, and Player1 is to move.
  */
  const FullColumnExample: Board :=
    [[1, 2, 1, 2, 2, 0, 0],
     [1, 2, 2, 2, 0, 0, 0],
     [2, 1, 1, 2, 0, 0, 0],
     [1, 2, 2, 1, 0, 0, 0],
     [1, 1, 2, 2, 0, 0, 0],
     [1, 1, 1, 0, 0, 0, 0]]

  /**
    Player1 fills column 3 and completes the top row: connected_four as
    written looks at row 4 and misses the win; the corrected check finds it.
  */
  lemma FullColumnWinMissed(before: Board)
    requires before == FullColumnExample
    ensures IsBoard(before) && Gravity(before) && ColumnHasRoom(before, 3)
    ensures !ConnectedFourAsWritten(ApplyPlayerAction(before, 3, Player1), 3, Player1)
    ensures ConnectedFour(ApplyPlayerAction(before, 3, Player1), 3, Player1)
  {
    FullColumnGravity(before);
    FullColumnMove(before);
    FullColumnAfterMove(ApplyPlayerAction(before, 3, Player1));
  }

  lemma FullColumnGravity(before: Board)
    requires before == FullColumnExample
    ensures IsBoard(before) && Gravity(before)
  {
    var height := [6, 6, 6, 5, 1, 0, 0];
    forall r, c | 0 <= r < Rows && 0 <= c < Cols
      ensures before[r][c] == NoPlayer <==> r >= height[c]
    {
      assert before[r] == FullColumnExample[r];
    }
  }

  /** The move of FullColumnWinMissed lands in the top row. */
  lemma FullColumnMove(before: Board)
    requires IsBoard(before) && before[5] == [1, 1, 1, 0, 0, 0, 0]
    requires forall r :: 0 <= r < Rows - 1 ==> before[r][3] != NoPlayer
    ensures ColumnHasRoom(before, 3)
    ensures ApplyPlayerAction(before, 3, Player1) == before[5 := [1, 1, 1, 1, 0, 0, 0]]
  {
    assert GetLowestEmptyRow(before, 3) == 5;
    assert before[5][3 := Player1] == [1, 1, 1, 1, 0, 0, 0];
  }

  /** The checks on the board of FullColumnWinMissed after the move. */
  lemma FullColumnAfterMove(after: Board)
    requires after == FullColumnExample[5 := [1, 1, 1, 1, 0, 0, 0]]
    ensures IsBoard(after)
    ensures !ConnectedFourAsWritten(after, 3, Player1) && ConnectedFour(after, 3, Player1)
  {
    assert forall r :: 0 <= r < Rows ==> after[r][3] != NoPlayer;
    assert GetLowestEmptyRow(after, 3) == -1;
    assert RowIndexAsWritten(after, 3) == -2;
    assert LastMoveRow(after, 3) == 5;
    assert Four(after, Player1, 5, 0, 0, 1);
    assert after[4] == [1, 1, 2, 2, 0, 0, 0];
    assert !HorizontalWinCheck(after, 4, Player1);
    assert !VerticalWinCheck(after, 3, Player1);
    assert DiagLen(3 - (-2)) < 4;
  }

  /**
    Player1 has pieces on (1, 1), (2, 2) and (3, 3); the corner (0, 0) is
    empty. Five pieces each and no four in a row: Player1 starting, the
    columns 2 3 1 3 1 3 3 2 2 4 reach it, and Player1 is to move.
  */
  const CornerExample: Board :=
    [[0, 1, 1, 2, 2, 0, 0],
     [0, 1, 2, 2, 0, 0, 0],
     [0, 0, 1, 2, 0, 0, 0],
     [0, 0, 0, 1, 0, 0, 0],
     [0, 0, 0, 0, 0, 0, 0],
     [0, 0, 0, 0, 0, 0, 0]]

  /**
    Player1 drops into the corner and completes a diagonal; diagonal_win_check
    as written gives up because the other diagonal through the corner has one cell.
  */
  lemma CornerDiagonalWinMissed(before: Board)
    requires before == CornerExample
    ensures IsBoard(before) && Gravity(before) && ColumnHasRoom(before, 0)
    ensures !DiagonalWinCheckAsWritten(ApplyPlayerAction(before, 0, Player1), 0, 0, Player1)
    ensures DiagonalWinCheck(ApplyPlayerAction(before, 0, Player1), 0, 0, Player1)
    ensures !ConnectedFourAsWritten(ApplyPlayerAction(before, 0, Player1), 0, Player1)
    ensures ConnectedFour(ApplyPlayerAction(before, 0, Player1), 0, Player1)
  {
    CornerGravity(before);
    CornerMove(before);
    CornerAfterMove(ApplyPlayerAction(before, 0, Player1));
  }

  /** The corner move of CornerDiagonalWinMissed lands in row 0. */
  lemma CornerMove(before: Board)
    requires IsBoard(before) && before[0] == [0, 1, 1, 2, 2, 0, 0] && before[1][0] == NoPlayer
    ensures ColumnHasRoom(before, 0)
    ensures ApplyPlayerAction(before, 0, Player1) == before[0 := [1, 1, 1, 2, 2, 0, 0]]
  {
    assert GetLowestEmptyRow(before, 0) == 0;
    assert before[0][0 := Player1] == [1, 1, 1, 2, 2, 0, 0];
  }

  lemma CornerGravity(before: Board)
    requires before == CornerExample
    ensures IsBoard(before) && Gravity(before)
  {
    var height := [0, 2, 3, 4, 1, 0, 0];
    forall r, c | 0 <= r < Rows && 0 <= c < Cols
      ensures before[r][c] == NoPlayer <==> r >= height[c]
    {
      assert before[r] == CornerExample[r];
    }
  }

  /** The checks on the board of CornerDiagonalWinMissed after the corner move. */
  lemma CornerAfterMove(after: Board)
    requires after == CornerExample[0 := [1, 1, 1, 2, 2, 0, 0]]
    ensures IsBoard(after)
    ensures !DiagonalWinCheckAsWritten(after, 0, 0, Player1) && DiagonalWinCheck(after, 0, 0, Player1)
    ensures !ConnectedFourAsWritten(after, 0, Player1) && ConnectedFour(after, 0, Player1)
  {
    assert after[0][0] == Player1 && after[1][0] == NoPlayer;
    assert GetLowestEmptyRow(after, 0) == 1;
    assert RowIndexAsWritten(after, 0) == 0 && LastMoveRow(after, 0) == 0;
    assert Four(after, Player1, 0, 0, 1, 1);
    assert DiagLen(Cols - 1) < 4;
    assert !HorizontalWinCheck(after, 0, Player1);
    assert !VerticalWinCheck(after, 0, Player1);
  }

  datatype GameState = IsWin | IsDraw | StillPlaying

  /**
    `check_end_state(board, player, last_action)`. It forwards its arguments
    positionally to `connected_four(board, last_action, player)`, so its
    SECOND argument is used as the column and its third as the player; the
    callers pass `(board, action, player)`, which lines the two up again.
    The win test is `connected_four` as written.
  */
  function CheckEndState(b: Board, player: int, lastAction: int): (s: GameState)
    requires IsBoard(b) && ValidColumn(player)
    ensures s == IsWin <==> ConnectedFourAsWritten(b, player, lastAction)
    ensures s == IsWin && GetLowestEmptyRow(b, player) >= 1 ==> FourOnLinesOf(b, lastAction, LastMoveRow(b, player), player)
    ensures s == GameState.IsDraw <==> !ConnectedFourAsWritten(b, player, lastAction) && EmptyCells(b) == 0
    ensures s == StillPlaying ==> EmptyCells(b) > 0
  {
    IsDrawIffNoEmptyCell(b);
    if ConnectedFourAsWritten(b, player, lastAction) then IsWin
    else if GameBoard.IsDraw(b) then GameState.IsDraw
    else StillPlaying
  }

  /** `check_end_state` over the corrected `connected_four`: a win is any four through the last piece. */
  function CheckEndStateFixed(b: Board, player: int, lastAction: int): (s: GameState)
    requires IsBoard(b) && ValidColumn(player)
    ensures s == IsWin <==> FourOnLinesOf(b, lastAction, LastMoveRow(b, player), player)
    ensures s == GameState.IsDraw <==> !ConnectedFour(b, player, lastAction) && EmptyCells(b) == 0
    ensures s == StillPlaying ==> EmptyCells(b) > 0
  {
    IsDrawIffNoEmptyCell(b);
    if ConnectedFour(b, player, lastAction) then IsWin
    else if GameBoard.IsDraw(b) then GameState.IsDraw
    else StillPlaying
  }

  /**
    The two end states agree whenever the column is not full and both
    diagonals through the last piece have four cells or more.
  */
  lemma EndStatesAgree(b: Board, col: int, player: int)
    requires IsBoard(b) && ValidColumn(col) && GetLowestEmptyRow(b, col) >= 1
    requires var r := LastMoveRow(b, col); DiagLen(col - r) >= 4 && DiagLen(Cols - 1 - col - r) >= 4
    ensures CheckEndState(b, col, player) == CheckEndStateFixed(b, col, player)
  {
    ConnectedFourAsWrittenNotFull(b, col, player);
  }

  /** After the corner move of CornerDiagonalWinMissed the source plays on, though Player1 has won. */
  lemma CornerEndStates(before: Board)
    requires before == CornerExample
    ensures IsBoard(before) && Gravity(before) && ColumnHasRoom(before, 0)
    ensures CheckEndState(ApplyPlayerAction(before, 0, Player1), 0, Player1) == StillPlaying
    ensures CheckEndStateFixed(ApplyPlayerAction(before, 0, Player1), 0, Player1) == IsWin
  {
    CornerDiagonalWinMissed(before);
    CornerMove(before);
    CornerNotFull(ApplyPlayerAction(before, 0, Player1));
  }

  lemma CornerNotFull(after: Board)
    requires after == CornerExample[0 := [1, 1, 1, 2, 2, 0, 0]]
    ensures IsBoard(after) && !GameBoard.IsDraw(after)
  {
    assert after[5][0] == NoPlayer;
  }
}
