# Logic games: the three rule engines

This project models the rule engines of three tkinter mini-games in Dafny,
with the widgets replaced by plain state:

- **Minesweeper** (`minesweeper.dfy`). A `rows × cols` grid and the sets of
  mines, opened cells and flagged cells. The set of cells that have a button
  is kept too, because `open_cell` looks the button up after its opened/flagged
  test and before its mine test.
  The operations are `new_game` (its checks, the reset and the random mine
  placement), `count_mines_around`, the recursive flood fill `open_cell`,
  `toggle_flag` and the win test `check_win`.
- **Tic-Tac-Toe** (`tictactoe.dfy`). The nine-cell board, the player to
  move, the two win counters, the theme flag, and a flag for the buttons that
  `disable_all` switches off. The operations are `on_click`, `check_winner`
  (a scan of the 8-triple table in order), `restart_game`, `reset_scores`
  and `toggle_theme`.
- **Snake** (`snake.dfy`). The score with its record, the segment chain and
  its direction vector, the food square, and the `in_game`/`paused` flags.
  The operations are `Score.increment` and `Score.reset`,
  `Snake.move`, `Snake.add_segment` and `Snake.change_direction`, one run of
  `main_loop`, `game_over`, `pause_game`, `restart_game`, `create_snake` and
  `create_block`. A canvas item is reduced to the top-left corner of its
  `SEG_SIZE` square, so every coordinate is an integer multiple of 25.

`wrappers.dfy` holds the `Option` type the three modules share.

Each game panel is a `class Game` whose methods change its fields in place.
A method's `ensures` pins down the new state outright wherever the source
determines it. The flood fill is the exception: its contracts bound the opened
cells, inside the grid and the cells with a button, away from mines and
flags, instead of naming them. The source's promises are proved as
invariants and lemmas:

- The Minesweeper flood fill never opens a mine or a flagged cell.
- It opens only cells of the grid, apart from the clicked cell itself.
- When it returns normally, every in-bounds, unflagged neighbour of each
  zero-count cell it opened is opened.
- The cells it opens form a flood from the clicked cell through zero-count
  cells.
- Its recursion terminates because the set of closed cells shrinks.

Some inputs from outside the engine become parameters:

- The random draws: the stream of mine cells, and the food factors `kx`, `ky`.
- The parsed text entries of `new_game`.
- The stored counters and record.

Two scenario methods check small games:

- `Minesweeper.FiveByFiveScenario`: a 5 × 5 board with mines at (0, 0) and
  (1, 1). Opening (4, 4) opens neither mine; opening (0, 0) then explodes.
- `TicTacToe.DiagonalScenario`: after the opening X@0, O@1, X@4, O@2
  (`TicTacToe.DiagonalOpening`), X@8 wins on the diagonal 0, 4, 8. The X
  counter goes up and the buttons are disabled.

Behaviours of the code that a reader might not expect, modelled as written:

- Minesweeper: `new_game` stores `rows`, `cols` and `mine_count` before it
  checks them, one entry at a time until `int()` rejects one. A rejected call
  can therefore leave the old sets with partly or wholly new dimensions. `open_cell` looks up the button after its opened/flagged test
  and before its mine test, so on such a board it can raise `KeyError`. The model's outcome `Raised` stands
  for that exception, and it aborts the whole recursion.
- Snake: the self-collision branch calls a bare `game_over()` that is not
  defined at module level. The `NameError` ends that run of `main_loop`
  before the next one is scheduled, and `in_game` stays true (outcome
  `Halted`).
- Snake: `restart_game` ends by calling `main_loop`, so the new snake has
  already moved one square when it returns. Its segments are then (50, 25),
  (75, 25), (100, 25), not the three squares `create_snake` builds. If the
  new food lies on (100, 25), the snake eats it in that same run.
- Snake: `change_direction` refuses only the exact reverse of the current
  vector. Two keys pressed between ticks can still turn the snake right
  round (`SnakeGame.TwoKeysReverseHeading`).
- Snake: `create_block` does not avoid the snake's body, so the model's food
  may lie on a segment.

## Model

| member | source | states |
|---|---|---|
| Minesweeper.GridSize | games/minesweeper.py:84-93 | the grid has exactly rows * cols cells, the number check_win compares against |
| Minesweeper.CountMinesAround | games/minesweeper.py:105-111 | the count is at most 9, at most 8 for an in-grid cell that is not a mine, at least 1 for an in-grid mine, and 0 exactly when no in-grid cell of the 3 × 3 window is a mine |
| Minesweeper.CountIsWindowMines | games/minesweeper.py:105-111 | count_mines_around equals the number of distinct mines in the 3 × 3 window clipped to the grid |
| Minesweeper.RowMinesSize | games/minesweeper.py:107-110 | one row of the clipped window holds as many mines as its three membership tests add up to |
| Minesweeper.FloodOrderAppend | games/minesweeper.py:131-135 | the trail of a zero-count cell followed by the trail of a call started on its neighbour is again a trail in which every cell after the first touches an earlier zero-count cell |
| Minesweeper.Game.constructor | games/minesweeper.py:50-56 | a fresh panel has no buttons, no mines, opened or flagged cells and zero dimensions, and satisfies both invariants |
| Minesweeper.Game.WinMeansAllSafeCellsOpened | games/minesweeper.py:152-153 | on a consistent board, the test of check_win (`CheckWin`: opened + mines == rows * cols) holds exactly when every cell of the grid is opened or a mine |
| Minesweeper.Game.NewGame | games/minesweeper.py:62-96 | the fields are overwritten entry by entry up to the first entry int() rejects; Started exactly when all three parse and rows, cols, mine_count > 0 and mine_count < rows * cols; TooManyMines exactly for positive values with mine_count >= rows * cols; any rejection leaves mines, opened, flags and buttons untouched; a start empties opened and flags, gives every grid cell a button and places exactly mine_count distinct in-grid mines, the distinct cells of a prefix of the random draws |
| Minesweeper.Game.PlaceMines | games/minesweeper.py:95-96 | the loop stops with exactly mine_count distinct in-grid mines, namely the distinct cells of a prefix of the random draws |
| Minesweeper.Game.OpenCell | games/minesweeper.py:113-135 | opened or flagged: nothing changes; no button: KeyError with nothing changed; a mine: nothing is opened; otherwise the cell is opened. Opened cells never gain a mine or a flag, and every newly opened cell had a button. After a normal return every in-bounds, unflagged neighbour of each newly opened zero-count cell is opened. Every newly opened cell other than (r, c) lies in the grid. The newly opened cells form a flood from (r, c) through zero-count cells. The recursion terminates because the closed cells shrink. |
| Minesweeper.Game.OpenNeighbours | games/minesweeper.py:131-135 | the loops over the window of a zero-count opened cell open every in-bounds unflagged neighbour unless a nested call raises, never open a mine, a flag or a cell outside the grid, and open only cells that extend the flood from (r, c) |
| Minesweeper.Game.OpenWindowRow | games/minesweeper.py:133-135 | the inner loop over one row of the window opens that row's in-bounds unflagged cells unless a call raises, with the same guarantees as the window loop |
| Minesweeper.Game.OpenWindowCell | games/minesweeper.py:134-135 | one step of the inner loop: open_cell on (i, j) only when it lies in the grid; afterwards (i, j) and every earlier window cell are opened unless flagged or the call raised, with the same guarantees as the window loop |
| Minesweeper.Game.ToggleFlag | games/minesweeper.py:140-149 | no change on an opened cell; otherwise the cell's flag is removed if present and added if absent, and no opened cell ever carries a flag |
| Minesweeper.ToggleFlagTwice | games/minesweeper.py:140-149 | toggling the same cell twice restores the flags and leaves the opened cells alone |
| TicTacToe.FirstWin | games/tictactoe.py:78-84 | the index of the first triple in table order that holds three equal non-empty marks, with no earlier triple won, or None when no triple is won |
| TicTacToe.Winner | games/tictactoe.py:83-89 | a non-empty winner exactly when some triple is won, and then it is the mark of the first won triple in table order |
| TicTacToe.OnlyMoverCanWin | games/tictactoe.py:111-116 | placing a mark on an empty cell of a board nobody has won can make only that mark the winner |
| TicTacToe.Game.constructor | games/tictactoe.py:24-28 | the stored counters and theme, an empty board and X to move |
| TicTacToe.Game.CheckWinner | games/tictactoe.py:77-97 | reports true exactly on a win or a full board; on a win exactly the winner's counter goes up by one and the buttons are disabled; without a win both counters and the buttons are unchanged |
| TicTacToe.Game.OnClick | games/tictactoe.py:111-117 | an occupied cell changes nothing; otherwise only that cell takes the current mark; only the mover can become the winner; a win raises the winner's counter and disables the board without passing the turn; a draw keeps the counters and the turn; any other move passes the turn to the other player |
| TicTacToe.Game.RestartGame | games/tictactoe.py:123-127 | nine empty cells, X to move, the buttons enabled, counters and theme untouched |
| TicTacToe.Game.ResetScores | games/tictactoe.py:132-135 | both counters are zero |
| TicTacToe.Game.ToggleTheme | games/tictactoe.py:137-140 | the theme flag is flipped |
| TicTacToe.ToggleThemeTwice | games/tictactoe.py:137-138 | toggling the theme twice restores it and leaves board and counters alone |
| TicTacToe.DiagonalOpening | games/tictactoe.py:111-117 | X@0, O@1, X@4, O@2 on a fresh panel fill exactly those cells, win nothing, keep the buttons enabled and give the turn back to X |
| SnakeGame.Steer | games/snake.py:165-169 | a key outside the four arrows keeps the vector; the exact reverse of the vector is refused; any other arrow sets the vector to the key's unit vector; from a unit vector the result is a unit vector that never points backwards |
| SnakeGame.TwoKeysReverseHeading | games/snake.py:165-169 | two accepted keys in a row can reverse the heading |
| SnakeGame.CreateBlock | games/snake.py:242-248 | the food's x lies in [SEG_SIZE, WIDTH - SEG_SIZE] and its y in [SEG_SIZE, HEIGHT - SEG_SIZE], both multiples of SEG_SIZE, and its square lies entirely inside the field |
| SnakeGame.EveryFoodCellCanBeDrawn | games/snake.py:244-245 | every such aligned cell is the result of some pair of draws |
| SnakeGame.MovedAligned | games/snake.py:143-156 | moving with a unit vector keeps every segment on the SEG_SIZE grid |
| SnakeGame.Score.constructor | games/snake.py:88-92 | score 0 and the stored record |
| SnakeGame.Score.Increment | games/snake.py:108-113 | the value goes up by one and the record becomes the maximum of the old record and the new value, so the record is at least the value and never decreases |
| SnakeGame.Score.Reset | games/snake.py:115-117 | the value is zero and the record is unchanged |
| SnakeGame.Snake.constructor | games/snake.py:131-141 | the given segments and the rightward vector of the mapping |
| SnakeGame.Snake.Move | games/snake.py:143-156 | the length is unchanged, segment i takes the old place of segment i + 1, and the head is the old head moved by vector * SEG_SIZE |
| SnakeGame.Snake.AddSegment | games/snake.py:158-163 | one point more, with the record updated, and a new segment in front of the list on the tail's square, so the chain grows by exactly one |
| SnakeGame.Snake.ChangeDirection | games/snake.py:165-169 | the vector becomes the steering result for the key |
| SnakeGame.Game.CreateSnake | games/snake.py:234-240 | a new chain (25, 25), (50, 25), (75, 25), tail first, heading right |
| SnakeGame.Game.constructor | games/snake.py:78-82 | score 0 with the stored record, food from the draws, the initial chain, running and not paused |
| SnakeGame.Game.GameOver | games/snake.py:203-205 | in_game is false |
| SnakeGame.Game.PauseGame | games/snake.py:227-232 | the pause flag is flipped |
| SnakeGame.PauseTwice | games/snake.py:227-228 | pausing twice restores the pause flag, the running flag and the snake |
| SnakeGame.Game.Tick | games/snake.py:176-201 | not running: nothing changes and nothing is scheduled; paused: nothing but the reschedule; otherwise the chain moves and then, in this order: a head off the field ends the game; a head on the food eats it, so the chain grows by one at the tail end, the score goes up and new food is drawn; a head on another segment halts the loop with in_game still true. The record never decreases and the invariants are kept. |
| SnakeGame.Game.RestartGame | games/snake.py:207-225 | running, not paused, the heading right, the record kept and the score reset, then the first run of the loop moves the new chain once: (50, 25), (75, 25), (100, 25) with score 0, unless the new food lies on (100, 25), which is then eaten at once, giving score 1 and fresh food |

## Left out

- All tkinter work is left out, as it is presentation: widgets, button configuration, canvas drawing, labels, colours, `get_colors`/`update_theme`, `reveal_all` and every message box.
- `main.py` and the replaced `pack`/`pack_forget` wrappers of the Snake panel are not part of this model. They handle panel navigation.
- Persistence is left out because it is file I/O: Minesweeper's `save_game`, `load_game` and the removal of the save file, Tic-Tac-Toe's `save_data` and the loading in its `__init__`, and Snake's `load_record`/`save_record`. The values a constructor would load are its parameters.
- A board restored by `load_game` is not checked against the invariants `Valid` and `Consistent`. The constructor models a start without a saved game.
- Minesweeper.Game.OpenCell: the model's recursion has no depth bound. `open_cell` calls itself once per nested level and the source never raises Python's default recursion limit of about 1000 frames. On a board whose zero region has roughly 1000 cells or more, the source's flood therefore aborts with `RecursionError`, leaving a partly opened region, and `check_win` and `save_game` never run. The model instead returns normally with the full flood, and its "normal return" guarantees assume unbounded recursion.
- Minesweeper's `reset_game` is left out: it is `new_game` after deleting the save file.
- Minesweeper's `check_win` runs at the end of every `open_cell` call that opened its cell and whose nested calls did not raise, nested calls included. Only its test (`CheckWin`) is modelled; the repeated messages are presentation.
- `animate_win` is left out: it is a background thread with `time.sleep`, and only changes colours.
- `after`/`after_cancel` and the 100 ms timer are left out. One run of the loop is the method `Tick`, and the timer ids do not appear.
- The model does not include the `main_loop` run at the end of the Snake `__init__`. `SnakeGame.Game.constructor` stops at line 82, and the caller's first `Tick` is that run.
- `random.randint` is replaced by parameters. The mine draws are a sequence of in-grid cells with enough distinct cells. The food draws are factors within the `randint` bounds.
- `int()` parsing of the entries is given as an `Option<int>` per entry, with `None` where `int()` raises `ValueError`.
- Minesweeper.Game.ToggleFlag requires the cell to have a button. Only a button's right-click calls `toggle_flag`, so the `KeyError` branch cannot be reached.
- TicTacToe.Game.OnClick requires the buttons to be enabled, because a disabled button delivers no click.
