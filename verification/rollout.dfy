/**
  The random player and the random rollout of agents/agent_mcts/mcts.py
  (`generate_move_random`, `simulation`, `expansion`); agents/agent_random/random.py
  holds the same `generate_move_random`.

  `np.random.randint(BOARD_COLS)` is a stream `draws` of column numbers read
  from a cursor: the k-th call returns `draws(k)`. Rejection sampling ends
  only if an acceptable column keeps coming up, which `Fair` states: every
  column recurs after every position of the stream.
*/
module Rollout {
  import opened Wrappers
  import opened GameBoard
  import opened Lines

  /** The outcomes of successive `np.random.randint(BOARD_COLS)` calls. */
  type Draws = nat -> int

  /** The placeholder class `SavedState`: it holds nothing. */
  datatype SavedState = SavedState

  /** Column `c` is drawn again at position `k` or later. */
  ghost predicate Recurs(draws: Draws, k: nat, c: int) {
    exists j: nat :: k <= j && draws(j) == c
  }

  /** Every column is drawn infinitely often. */
  ghost predicate Fair(draws: Draws) {
    forall k: nat, c :: 0 <= c < Cols ==> Recurs(draws, k, c)
  }

  /**
    The `while not valid_action` loop: read draws from `cursor` on until one
    passes `accept`; `used` is the position of that draw. `bound` is a position
    whose draw passes, which bounds the search.
  */
  method DrawUntil(accept: int -> bool, draws: Draws, cursor: nat, ghost bound: nat)
    returns (choice: int, used: nat)
    requires cursor <= bound && accept(draws(bound))
    ensures cursor <= used <= bound
    ensures choice == draws(used) && accept(choice)
    ensures forall k :: cursor <= k < used ==> !accept(draws(k))
  {
    var i := cursor;
    var validAction := false;
    var last: nat := cursor;
    choice := 0;
    while !validAction
      invariant cursor <= i <= bound + 1
      invariant !validAction ==> i <= bound && forall k :: cursor <= k < i ==> !accept(draws(k))
      invariant validAction ==> cursor <= last && i == last + 1 && choice == draws(last) && accept(choice)
      invariant validAction ==> forall k :: cursor <= k < last ==> !accept(draws(k))
      decreases bound + 1 - i
    {
      last := i;
      choice := draws(i);
      i := i + 1;
      if accept(choice) {
        validAction := true;
      }
    }
    used := last;
  }

  /**
    `generate_move_random`: draw columns until one has an empty cell and
    return it, with the saved state unchanged; the board and the player are
    only read. `used` is the position of the draw returned.
  */
  method GenerateMoveRandom(b: Board, player: int, savedState: Option<SavedState>, draws: Draws, cursor: nat)
    returns (action: Int8, saved: Option<SavedState>, used: nat)
    requires IsBoard(b)
    requires forall k: nat :: 0 <= draws(k) < Cols
    requires Fair(draws)
    requires exists c :: ValidColumn(c) && ColumnHasRoom(b, c)
    ensures ValidColumn(action as int) && ColumnHasRoom(b, action as int)
    ensures CheckMoveStatus(b, Action(action)) == IsValid
    ensures saved == savedState
    ensures cursor <= used && draws(used) == action as int
    ensures forall k :: cursor <= k < used ==> !ColumnHasRoom(b, draws(k))
  {
    var accept := (c: int) => ValidColumn(c) && GetLowestEmptyRow(b, c) >= 0;
    ghost var j := AcceptableDrawAhead(b, draws, cursor);
    var a;
    a, used := DrawUntil(accept, draws, cursor, j);
    RejectedHaveNoRoom(b, accept, draws, cursor, used);
    action := a as Int8;
    saved := savedState;
  }

  /** Under a fair stream, a column with room is drawn at or after any position. */
  lemma AcceptableDrawAhead(b: Board, draws: Draws, cursor: nat) returns (j: nat)
    requires IsBoard(b)
    requires Fair(draws)
    requires exists c :: ValidColumn(c) && ColumnHasRoom(b, c)
    ensures cursor <= j && ValidColumn(draws(j)) && ColumnHasRoom(b, draws(j))
  {
    var c :| ValidColumn(c) && ColumnHasRoom(b, c);
    assert Recurs(draws, cursor, c);
    j :| cursor <= j && draws(j) == c;
  }

  lemma RejectedHaveNoRoom(b: Board, accept: int -> bool, draws: Draws, from: nat, to: nat)
    requires IsBoard(b)
    requires forall c :: accept(c) == (ValidColumn(c) && GetLowestEmptyRow(b, c) >= 0)
    requires forall k: nat :: 0 <= draws(k) < Cols
    requires forall k :: from <= k < to ==> !accept(draws(k))
    ensures forall k :: from <= k < to ==> !ColumnHasRoom(b, draws(k))
  {
  }

  /** On a full board no column is acceptable, so `generate_move_random` never returns. */
  lemma FullBoardRejectsEveryDraw(b: Board, draws: Draws)
    requires IsBoard(b) && GameBoard.IsDraw(b)
    requires forall k: nat :: 0 <= draws(k) < Cols
    ensures forall k: nat :: !ColumnHasRoom(b, draws(k))
    ensures !exists c :: ValidColumn(c) && ColumnHasRoom(b, c)
  {
  }

  /** On a gravity-filled board, some column has room exactly when some cell is empty. */
  lemma RoomIffNotFull(b: Board)
    requires IsBoard(b) && Gravity(b)
    ensures (exists c :: ValidColumn(c) && ColumnHasRoom(b, c)) <==> EmptyCells(b) > 0
  {
    IsDrawIffNoEmptyCell(b);
    if EmptyCells(b) > 0 {
      var c := NotFullHasRoom(b);
    }
  }

  /** The other player; anything but Player1 has Player1 as opponent. */
  function Opponent(p: int): (q: int)
    ensures p == Player1 ==> q == Player2
    ensures p != Player1 ==> q == Player1
  {
    if p == Player1 then Player2 else Player1
  }

  /** `players[move_count % 2]`: who plays move `k` of a rollout begun by `start`. */
  function Mover(start: int, k: nat): (p: int)
    ensures k % 2 == 0 ==> p == start
    ensures k % 2 == 1 ==> p == Opponent(start)
  {
    if k % 2 == 0 then start else Opponent(start)
  }

  /** Two consecutive moves are made by different players. */
  lemma MoversAlternate(start: int, k: nat)
    requires start == Player1 || start == Player2
    ensures Mover(start, k) != Mover(start, k + 1)
    ensures Mover(start, k) == Mover(start, k + 2)
    ensures Mover(start, k) == Player1 || Mover(start, k) == Player2
  {
  }

  /** `players[move_count % 2]` with `players = [start, opponent]` is the mover. */
  lemma PlayerOfMove(start: int, k: nat)
    ensures 0 <= k % 2 < 2 && [start, Opponent(start)][k % 2] == Mover(start, k)
  {
  }

  predicate ValidColumns(moves: seq<int>) {
    forall k :: 0 <= k < |moves| ==> ValidColumn(moves[k])
  }

  /** The board after the given moves, played alternately from `start` on. */
  function Replay(b: Board, start: int, moves: seq<int>): (r: Board)
    requires IsBoard(b) && ValidColumns(moves)
    ensures IsBoard(r)
    decreases |moves|
  {
    if |moves| == 0 then b
    else ApplyPlayerAction(Replay(b, start, moves[..|moves| - 1]), moves[|moves| - 1], Mover(start, |moves| - 1))
  }

  /** Every move went into a column with an empty cell of the board before it. */
  predicate LegalMoves(b: Board, start: int, moves: seq<int>)
    requires IsBoard(b) && ValidColumns(moves)
    decreases |moves|
  {
    |moves| == 0 ||
    var earlier := moves[..|moves| - 1];
    LegalMoves(b, start, earlier) && ColumnHasRoom(Replay(b, start, earlier), moves[|moves| - 1])
  }

  /** The game was still going after each of the moves. */
  predicate StillPlayingAfterEach(b: Board, start: int, moves: seq<int>)
    requires IsBoard(b) && ValidColumns(moves)
    decreases |moves|
  {
    |moves| == 0 ||
    (StillPlayingAfterEach(b, start, moves[..|moves| - 1])
      && CheckEndState(Replay(b, start, moves), moves[|moves| - 1], Mover(start, |moves| - 1)) == StillPlaying)
  }

  /** Extending the moves by one legal move keeps them legal, and the game goes on if it did. */
  lemma ExtendMoves(b: Board, start: int, moves: seq<int>, a: int)
    requires IsBoard(b) && ValidColumns(moves) && ValidColumn(a)
    requires LegalMoves(b, start, moves) && ColumnHasRoom(Replay(b, start, moves), a)
    ensures ValidColumns(moves + [a])
    ensures Replay(b, start, moves + [a]) == ApplyPlayerAction(Replay(b, start, moves), a, Mover(start, |moves|))
    ensures LegalMoves(b, start, moves + [a])
    ensures StillPlayingAfterEach(b, start, moves)
      && CheckEndState(Replay(b, start, moves + [a]), a, Mover(start, |moves|)) == StillPlaying
      ==> StillPlayingAfterEach(b, start, moves + [a])
  {
    var ms := moves + [a];
    assert ms[..|moves|] == moves;
    assert forall k :: 0 <= k < |ms| ==> ms[k] == if k < |moves| then moves[k] else a;
  }

  /** One move of a rollout keeps the loop's facts about the board and the moves. */
  lemma PlayStep(board: Board, start: int, moves: seq<int>, b: Board, a: int, player: int)
    requires IsBoard(board) && IsBoard(b) && Gravity(b)
    requires ValidColumns(moves) && LegalMoves(board, start, moves) && b == Replay(board, start, moves)
    requires EmptyCells(b) + |moves| == EmptyCells(board)
    requires ValidColumn(a) && ColumnHasRoom(b, a)
    requires player == Mover(start, |moves|) && player != NoPlayer
    ensures var after := ApplyPlayerAction(b, a, player);
      && ValidColumns(moves + [a]) && LegalMoves(board, start, moves + [a])
      && after == Replay(board, start, moves + [a]) && Gravity(after)
      && EmptyCells(after) + |moves| + 1 == EmptyCells(board)
      && (StillPlayingAfterEach(board, start, moves) && CheckEndState(after, a, player) == StillPlaying
          ==> StillPlayingAfterEach(board, start, moves + [a]))
  {
    LegalMoveFillsOneCell(b, a, player);
    ExtendMoves(board, start, moves, a);
  }

  /**
    One pass of the `while playing` loop of `simulation`, up to
    `check_end_state`: draw a column for `player`, check it, drop the piece
    and judge the new board. The check never fails, so its `break` is dead.
  */
  method PlayTurn(board: Board, start: int, ghost moves: seq<int>, b: Board, player: int, savedState: Option<SavedState>, draws: Draws, cursor: nat)
    returns (action: Int8, saved: Option<SavedState>, used: nat, after: Board, endState: GameState)
    requires IsBoard(board) && IsBoard(b) && Gravity(b) && EmptyCells(b) > 0
    requires ValidColumns(moves) && LegalMoves(board, start, moves) && b == Replay(board, start, moves)
    requires EmptyCells(b) + |moves| == EmptyCells(board)
    requires player == Mover(start, |moves|) && (player == Player1 || player == Player2)
    requires forall k: nat :: 0 <= draws(k) < Cols
    requires Fair(draws)
    ensures cursor <= used && saved == savedState
    ensures ValidColumns(moves + [action as int]) && LegalMoves(board, start, moves + [action as int])
    ensures IsBoard(after) && Gravity(after) && after == Replay(board, start, moves + [action as int])
    ensures EmptyCells(after) + |moves| + 1 == EmptyCells(board)
    ensures endState == CheckEndState(after, action as int, player)
    ensures endState == StillPlaying ==> EmptyCells(after) > 0
    ensures StillPlayingAfterEach(board, start, moves) && endState == StillPlaying
      ==> StillPlayingAfterEach(board, start, moves + [action as int])
  {
    RoomIffNotFull(b);
    action, saved, used := GenerateMoveRandom(b, player, savedState, draws, cursor);
    var moveStatus := CheckMoveStatus(b, Action(action));
    if moveStatus != IsValid {
      assert false;
    }
    PlayStep(board, start, moves, b, action as int, player);
    after := ApplyPlayerAction(b, action as int, player);
    endState := CheckEndState(after, action as int, player);
  }

  /**
    `simulation` with `return_final_board`: random moves alternate from
    `startingPlayer` until a move wins or fills the board. `winValue` is 1 if
    the last move won for the starting player, -1 if it won for the opponent,
    0 for a draw; `moveCount` is the number of moves played minus one;
    `moves` records the columns played.
  */
  method Simulation(board: Board, startingPlayer: int, draws: Draws, cursor: nat)
    returns (winValue: int, moveCount: nat, finalBoard: Board, lastAction: Int8, ghost moves: seq<int>)
    requires IsBoard(board) && Gravity(board) && EmptyCells(board) > 0
    requires startingPlayer == Player1 || startingPlayer == Player2
    requires forall k: nat :: 0 <= draws(k) < Cols
    requires Fair(draws)
    ensures winValue == -1 || winValue == 0 || winValue == 1
    ensures |moves| == moveCount + 1 && moves[moveCount] == lastAction as int
    ensures ValidColumns(moves) && LegalMoves(board, startingPlayer, moves)
    ensures IsBoard(finalBoard) && Gravity(finalBoard) && finalBoard == Replay(board, startingPlayer, moves)
    ensures EmptyCells(finalBoard) + |moves| == EmptyCells(board)
    ensures StillPlayingAfterEach(board, startingPlayer, moves[..moveCount])
    ensures var end := CheckEndState(finalBoard, lastAction as int, Mover(startingPlayer, moveCount));
      && end != StillPlaying
      && (winValue == 0 <==> end == GameState.IsDraw)
      && (winValue == 1 <==> end == IsWin && Mover(startingPlayer, moveCount) == startingPlayer)
      && (winValue == -1 <==> end == IsWin && Mover(startingPlayer, moveCount) != startingPlayer)
  {
    var savedState: map<int, Option<SavedState>> := map[Player1 := None, Player2 := None];
    var opponent := Opponent(startingPlayer);
    var players := [startingPlayer, opponent];
    var b := board;
    var i := cursor;
    moveCount := 0;
    winValue := 0;
    moves := [];
    while true
      invariant IsBoard(b) && Gravity(b) && EmptyCells(b) > 0
      invariant |moves| == moveCount
      invariant ValidColumns(moves) && LegalMoves(board, startingPlayer, moves)
      invariant b == Replay(board, startingPlayer, moves)
      invariant EmptyCells(b) + |moves| == EmptyCells(board)
      invariant StillPlayingAfterEach(board, startingPlayer, moves)
      invariant Player1 in savedState && Player2 in savedState
      decreases EmptyCells(b)
    {
      PlayerOfMove(startingPlayer, moveCount);
      var currentPlayer := players[moveCount % 2];
      var action, saved, used, after, endState := PlayTurn(board, startingPlayer, moves, b, currentPlayer, savedState[currentPlayer], draws, i);
      savedState := savedState[currentPlayer := saved];
      i := used + 1;
      ghost var earlier := moves;
      b := after;
      moves := moves + [action as int];

      if endState != StillPlaying {
        if endState == GameState.IsDraw {
          winValue := 0;
        } else {
          if currentPlayer == startingPlayer {
            winValue := 1;
          } else {
            winValue := -1;
          }
        }
        assert moves[..moveCount] == earlier;
        finalBoard := b;
        lastAction := action;
        break;
      }
      moveCount := moveCount + 1;
    }
  }

  /** A rollout from a board with `n` empty cells plays at most `n` moves. */
  lemma SimulationMoveBound(board: Board, moves: seq<int>, finalBoard: Board)
    requires IsBoard(board) && IsBoard(finalBoard)
    requires EmptyCells(finalBoard) + |moves| == EmptyCells(board)
    ensures |moves| <= EmptyCells(board)
    ensures |moves| == EmptyCells(board) ==> GameBoard.IsDraw(finalBoard)
  {
    IsDrawIffNoEmptyCell(finalBoard);
  }

  /**
    `expansion`: apply one random legal move for `player` to the caller's
    board. The two tree nodes it builds are local and it returns nothing, so
    the moved board is its only effect.
  */
  method Expansion(board: Board, player: int, draws: Draws, cursor: nat)
    returns (after: Board, ghost action: int)
    requires IsBoard(board)
    requires player == Player1 || player == Player2
    requires forall k: nat :: 0 <= draws(k) < Cols
    requires Fair(draws)
    requires exists c :: ValidColumn(c) && ColumnHasRoom(board, c)
    ensures ValidColumn(action) && ColumnHasRoom(board, action)
    ensures IsBoard(after) && after == ApplyPlayerAction(board, action, player)
    ensures after[GetLowestEmptyRow(board, action)][action] == player
    ensures forall r, c :: 0 <= r < Rows && 0 <= c < Cols && (r != GetLowestEmptyRow(board, action) || c != action) ==> after[r][c] == board[r][c]
  {
    var savedState: map<int, Option<SavedState>> := map[Player1 := None, Player2 := None];
    var a, saved, _ := GenerateMoveRandom(board, player, savedState[player], draws, cursor);
    action := a as int;
    after := ApplyPlayerAction(board, a as int, player);
  }
}
