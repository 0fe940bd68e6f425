# Connect Four engine and random rollouts, in Dafny

A model of a small Connect Four project written in Python with numpy:

- the game engine of `game_utils.py`: the 6x7 board (row 0 at the bottom),
  `get_lowest_empty_row`, `apply_player_action`, the row/column/diagonal win
  checks, `connected_four`, `is_draw`, `check_end_state`, `check_move_status`,
  and the text form `pretty_print_board` / `string_to_board`;
- the search-tree node `TreeNode` of `agents/agent_mcts/tree.py`;
- the random player `generate_move_random` (`agents/agent_random/random.py`,
  repeated in `agents/agent_mcts/mcts.py`) and the Monte Carlo pieces built on
  it in `mcts.py`: `expansion` and the random rollout `simulation`.

Files and modules:

- `board.dfy` — `Wrappers` (the `Option` type) and `GameBoard` (grid, gravity
  drop, empty-cell count, draw test, move status).
- `lines.dfy` — `Lines`: the four-in-a-row scans, numpy's diagonals,
  `connected_four`, `check_end_state`, and the as-written variants of the two
  checks that miss wins.
- `text.dfy` — `Text`: the printer, Python's `str.split`, the parser, and the
  print/parse round trip.
- `tree.dfy` — `Tree`: the node record and its three methods.
- `rollout.dfy` — `Rollout`: rejection sampling of a column, one rollout
  move, the whole rollout, and `expansion`.

Modelling choices:

- numpy arrays are values. `apply_player_action` mutates its board in place;
  here it returns the new board and every caller threads it on.
- `np.random.randint(BOARD_COLS)` is a stream `draws: nat -> int` of columns
  read from a cursor. `Fair(draws)` states that every column comes up again
  after every position, which is what makes the `while not valid_action`
  loop end. The methods return the position of the draw they used.
- The piece values are plain integers (`int`), as numpy's `int8` grid holds
  them; `PlayerAction` is the `Int8` newtype, and `check_move_status`'s
  "any other type" argument is the `OtherType` case of `ColumnArg`.
- `get_lowest_empty_row` is modelled with its `np.any(np.argwhere(...))`
  test: it asks whether some empty row has a NON-ZERO index. On a board
  where pieces obey gravity this is the usual lowest empty row, or -1 for a
  full column. `board[-1, action]` writes the top row (`DropRow`).
- `check_end_state(board, player, last_action)` hands its arguments to
  `connected_four(board, last_action, player)` positionally, so its second
  parameter is the column. The callers in `mcts.py` pass
  `(board, action, player)`, so the two swaps cancel; `CheckEndState` keeps
  the source's parameter names and order.
- `saved_state` is `Option<SavedState>`; the class holds nothing.
- Where the source is wrong (see Findings) both versions are defined.
  `CheckEndState`, and so the rollout, uses `connected_four` as written,
  as the source does; `CheckEndStateFixed` is the end state over the
  corrected check, and `EndStatesAgree` says when the two coincide.

## Model

| member | source | states |
|---|---|---|
| GameBoard.InitializeGameState | game_utils.py:46-50 | a 6x7 board whose every cell is empty; it obeys gravity and holds only piece values |
| GameBoard.GetLowestEmptyRow | game_utils.py:139-147 | the result is -1 exactly when rows 1..5 of the column are occupied; otherwise it is an empty row with every row below it occupied |
| GameBoard.DropRow | game_utils.py:134-135 | the row written is the lowest empty row when the column has room, and the top row (numpy index -1) when it does not |
| GameBoard.ApplyPlayerAction | game_utils.py:128-136 | the player's piece is in the drop cell of the column and every other cell is unchanged |
| GameBoard.GravityColumnHasRoom | game_utils.py:139-147 | on a board obeying gravity a column has room exactly when its top cell is empty, and a column without room is full |
| GameBoard.ApplyKeepsGravity | game_utils.py:128-136 | a legal move keeps every column filled from the bottom up |
| GameBoard.EmptyCellsZero | game_utils.py:217-223 | the empty-cell count is zero exactly when no cell is empty |
| GameBoard.EmptyCellsFill | game_utils.py:128-136 | putting a piece in one empty cell lowers the empty-cell count by exactly one |
| GameBoard.IsDrawIffNoEmptyCell | game_utils.py:217-223 | `is_draw` holds exactly when the board has no empty cell |
| GameBoard.NotFullHasRoom | game_utils.py:217-223 | a board obeying gravity that is not a draw has a column with room |
| GameBoard.LegalMoveFillsOneCell | game_utils.py:128-147 | a legal move lands on an empty cell, keeps gravity, and leaves one empty cell fewer |
| GameBoard.StackingMoves | game_utils.py:128-147 | moves into one column stack: the next free row is one higher, or none after the top row is filled |
| GameBoard.ApplyColumn | game_utils.py:128-136 | a legal move changes its column at the lowest empty row only |
| GameBoard.CheckMoveStatus | game_utils.py:236-248 | valid exactly for an int8 action inside the board whose column has room; wrong type exactly for a non-int8 argument; out of bounds exactly for an int8 outside 0..6; a full column has rows 1..5 occupied |
| Lines.ScanWindows | game_utils.py:170-177 | the window loop finds a win exactly when some slice of four from the start index on holds only the player |
| Lines.HorizontalWinCheck | game_utils.py:170-177 | true exactly when the row holds four adjacent pieces of the player |
| Lines.VerticalWinCheck | game_utils.py:180-187 | true exactly when the column holds four adjacent pieces of the player |
| Lines.Diag | game_utils.py:194-197 | `np.diag(board, k)`: the cells (t, t + k) for k >= 0 and (t - k, t) for k < 0, as many as fit |
| Lines.DiagWindows | game_utils.py:204-208 | a window of `np.diag(board, k)` is exactly a four-in-a-row on the diagonal with column minus row equal to k |
| Lines.AntiDiagWindows | game_utils.py:209-213 | a window of the diagonal of `np.fliplr(board)` is exactly a four-in-a-row on the matching anti-diagonal |
| Lines.DiagonalsPassThrough | game_utils.py:194-197 | the two diagonals `diagonal_win_check` extracts both pass through the cell (row_idx, col_idx) |
| Lines.DiagonalWinCheck | game_utils.py:190-214 | corrected check: true exactly when either diagonal through the cell holds four of the player |
| Lines.DiagonalWinCheckAsWritten | game_utils.py:190-214 | as written: true exactly when BOTH diagonals have at least four cells and one of them holds four of the player |
| Lines.LastMoveRowFindsPiece | game_utils.py:156-161 | after a legal move the row `connected_four` intends to inspect is the row the piece landed in |
| Lines.ConnectedFour | game_utils.py:150-168 | corrected check: true exactly when the row, the column or a diagonal through the last piece holds four of the player |
| Lines.RowIndexAsWritten | game_utils.py:156-161 | a full column (-1, truthy) gives row index -2; a column with lowest empty row r >= 1 gives r - 1 |
| Lines.ConnectedFourAsWritten | game_utils.py:150-168 | as written: when the column is not full, every win it reports is a real win |
| Lines.ConnectedFourAsWrittenNotFull | game_utils.py:156-168 | as written, column not full: true exactly when the row or the column of the last piece holds four of the player, or a diagonal through it does while both diagonals have at least four cells |
| Lines.ConnectedFourAsWrittenNoRoom | game_utils.py:156-168 | as written, column full: true exactly when row 4 or the column holds four of the player; column empty: the same with row 5; no diagonal is ever scanned |
| Lines.FullColumnWinMissed | game_utils.py:156-161 | a legal move that fills a column and completes the top row is missed as written and found by the corrected check |
| Lines.CornerDiagonalWinMissed | game_utils.py:199-202 | a legal corner move that completes a diagonal is missed as written and found by the corrected check |
| Lines.CheckEndState | game_utils.py:225-233 | a win exactly when `connected_four` as written reports one, and then a real four through the last piece when its column is not full; a draw exactly when there is no such win and no empty cell; still playing only with an empty cell left |
| Lines.CheckEndStateFixed | game_utils.py:225-233 | corrected end state: a win exactly when four lines through the last piece hold the player's pieces; a draw exactly when there is no win and no empty cell; still playing only with an empty cell left |
| Lines.EndStatesAgree | game_utils.py:225-233 | the source's end state equals the corrected one whenever the last column is not full and both diagonals through the last piece have four cells |
| Lines.CornerEndStates | game_utils.py:225-233 | after a legal corner move that completes a diagonal, the source's end state is still playing while the corrected one is a win |
| Text.CellText | game_utils.py:89-95 | an empty cell prints as a blank, Player1 as X, Player2 as O, each followed by a space |
| Text.PrettyPrintBoard | game_utils.py:59-106 | the text of a board of piece values is 152 characters long |
| Text.EmptyBoardText | tests/test_game_utils.py:12-17 | the empty board prints as the border, six blank rows, the border and the column labels |
| Text.JoinSplit | game_utils.py:115 | joining the pieces of a split with the separator gives back the string |
| Text.EveryOther | game_utils.py:119-120 | `row[0::2]`: the characters at even positions, half the length rounded up |
| Text.ParseCells | game_utils.py:122-123 | either every character decodes through the table, in order, or some character is missing from it |
| Text.ParseRow | game_utils.py:117-124 | a parsed row has seven cells, each a piece value |
| Text.RowTextParses | game_utils.py:85-96 | a printed row holds no bar, and its even positions decode back to the row |
| Text.SplitPrinted | game_utils.py:115 | splitting a printed board on the row separator gives the two edges, the six rows top first, and the labels |
| Text.StringToBoard | game_utils.py:108-125 | as written: a parsed board has six rows of seven cells, each a piece value |
| Text.StringToBoardFixed | game_utils.py:108-125 | corrected parse: a parsed board has six rows of seven cells, each a piece value |
| Text.StringToBoardFlips | game_utils.py:108-125 | parsing a printed board as written gives the board upside down |
| Text.StringToBoardFixedRoundTrip | game_utils.py:108-125 | the corrected parse gives back every printed board of piece values |
| Text.StringToBoardIdentityIffSymmetric | tests/test_game_utils.py:26-30 | parsing as written gives back the printed board exactly when the board reads the same upside down |
| Text.StringToBoardLosesBottomRow | game_utils.py:115-124 | a single piece in the bottom-left corner does not survive printing and parsing as written |
| Tree.NewTreeNode | agents/agent_mcts/tree.py:39-54 | a new node keeps the given board, action, parent and player, with no children, no expanded actions and zero counters |
| Tree.AddChild | agents/agent_mcts/tree.py:56-58 | the child is appended after the earlier children and no other field changes |
| Tree.AddChildKeepsChild | agents/agent_mcts/tree.py:56-58 | the appended child is stored as given, its parent field untouched |
| Tree.AddChildrenAppends | agents/agent_mcts/tree.py:56-58 | adding children one at a time appends them all, in order, duplicates included, and changes nothing else |
| Tree.NewNodeFullyExpanded | agents/agent_mcts/tree.py:60-62 | a new node is fully expanded exactly for counts of zero or less |
| Tree.AddChildKeepsExpansion | agents/agent_mcts/tree.py:56-62 | adding a child does not change whether the node is fully expanded |
| Tree.FullyExpandedDownward | agents/agent_mcts/tree.py:60-62 | fully expanded for a count implies fully expanded for every smaller count |
| Tree.FullyExpandedStays | agents/agent_mcts/tree.py:60-62 | expanding more actions keeps a fully expanded node fully expanded |
| Rollout.DrawUntil | agents/agent_random/random.py:8-13 | the draw returned is the first acceptable one from the cursor on; every draw before it was rejected |
| Rollout.GenerateMoveRandom | agents/agent_random/random.py:4-15 | the column returned is inside the board, has room, passes `check_move_status`, and is the first such draw; the saved state comes back unchanged |
| Rollout.AcceptableDrawAhead | agents/agent_mcts/mcts.py:113-117 | on a fair stream and a board with a playable column, an acceptable draw comes at or after any position |
| Rollout.FullBoardRejectsEveryDraw | agents/agent_mcts/mcts.py:113-117 | on a full board every draw is rejected and no column has room, so the loop never ends |
| Rollout.RoomIffNotFull | agents/agent_mcts/mcts.py:113 | on a board obeying gravity some column has room exactly when some cell is empty |
| Rollout.MoversAlternate | agents/agent_mcts/mcts.py:49-61 | consecutive moves are made by different players, moves two apart by the same one, always Player1 or Player2 |
| Rollout.ExtendMoves | agents/agent_mcts/mcts.py:59-86 | one more legal move keeps the move list legal and replays to the board after the move |
| Rollout.PlayTurn | agents/agent_mcts/mcts.py:60-75 | one loop pass plays a legal move for the current player, never takes the invalid-move exit, and removes exactly one empty cell |
| Rollout.Simulation | agents/agent_mcts/mcts.py:42-91 | the rollout plays legal alternating moves until the source's end state (with `connected_four` as written) says the last one won or filled the board, the game going on after every earlier move; the win value is 1, -1 or 0 exactly as the last mover is the starting player, the opponent, or the board is drawn |
| Rollout.SimulationMoveBound | agents/agent_mcts/mcts.py:42-91 | a rollout plays at most as many moves as the board had empty cells, and playing that many ends in a full board |
| Rollout.Expansion | agents/agent_mcts/mcts.py:26-39 | the caller's board gains one piece of the player in a column that had room, and no other cell changes |

## Left out

- `main.py` and `agents/agent_human_user/human_user.py`: the game loop and the console player are input/output around the engine.
- `create_random_game_state` (game_utils.py:52-57): it only calls the random number generator.
- The statistical test of `generate_move_random` in `tests/test_mcts.py`: randomness is the stream parameter `draws`, so there is no distribution to test.
- `selection` and `update` (mcts.py:93-105) have empty bodies.
- Simulation: requires the starting player to be 1 or 2 and the board to obey gravity with an empty cell left. On a full board `generate_move_random` loops forever (FullBoardRejectsEveryDraw), and any other starting value builds a player list the model does not give meaning to.
- Simulation: the `return_final_board` flag is dropped; the method always returns the final board and last action, a superset of both return shapes.
- Simulation: the `print` and `break` of the invalid-move branch are not modelled, because PlayTurn proves the branch dead.
- Expansion: the third parameter `action` of `expansion` is not a parameter of the model, because the source overwrites it with the random move before reading it.
- Expansion: requires the player to be 1 or 2, since any other value raises `KeyError` on `saved_state[player]`; the two `TreeNode`s it builds are local and discarded, so only the move on the board is modelled.
- StringToBoard: a parse that raises (an unknown character, a row of the wrong length, more than six rows), or one that leaves rows of `np.empty` unset (fewer than six), is `None`; the float dtype of `np.empty` is not modelled.
- The `np.int8` element type of the board is not modelled: cells are unbounded integers, and only `PlayerAction` is the `Int8` newtype.
- Tree: a node's `parent` is a snapshot value, not a shared reference, and `value` and `uct_score` are carried as reals but never computed.
- `test_lowest_empty_row_of_full_column` (tests/test_game_utils.py:43-50) expects a falsy result for a full column; the code returns -1, which is truthy. The model follows the code.

## Findings

| source | as written | input that shows it | evidently intended | confidence | as-written member | corrected member |
|---|---|---|---|---|---|---|
| game_utils.py:156-161 | a full column gives -1 from `get_lowest_empty_row`, which is truthy, so `row_idx` becomes -2 and the row below the last piece is checked | the board `Lines.FullColumnExample` with Player1 playing column 3, filling it and completing the top row | inspect the top row, where the last piece landed (`row_idx = -1`) | not executed | Lines.ConnectedFourAsWritten, Lines.FullColumnWinMissed | Lines.ConnectedFour, Lines.CheckEndStateFixed |
| game_utils.py:199-202 | `diagonal_win_check` returns False when EITHER diagonal has fewer than four cells, without scanning the other one | the board `Lines.CornerExample` with Player1 playing column 0, completing the diagonal from (0, 0) | skip only the short diagonal and still scan the other | not executed | Lines.DiagonalWinCheckAsWritten, Lines.CornerDiagonalWinMissed, Lines.CornerEndStates | Lines.DiagonalWinCheck, Lines.CheckEndStateFixed |
| game_utils.py:115-124 | printed rows are assigned to board rows 0, 1, ... in printed order, but the printer writes the top row first, so the parse is upside down | one Player1 piece in the bottom-left corner of an empty board | write the i-th printed row to row 5 - i, so that parsing inverts printing | not executed | Text.StringToBoard, Text.StringToBoardLosesBottomRow | Text.StringToBoardFixed, Text.StringToBoardFixedRoundTrip |
