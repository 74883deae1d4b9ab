# Tic-tac-toe game logic in Dafny

This project models the game logic of a desktop tic-tac-toe game. The model covers:

- the nine-cell board and its eight fixed lines;
- the scripted opponent `TicTacToeAI` (ai.py). It answers with a random free cell, a blocking cell or the result of a full minimax search, depending on its difficulty;
- the board and turn logic of the game window `TicTacToe` (game.py). This is its own win test, which returns the winning line, and the transitions `make_move`, `skip_turn`, `ai_move` and `reset_game`.

Modules, one per file:

- `Wrappers` (wrappers.dfy) holds `Option`, which stands for Python's `None`-or-value results.
- `Board` (board.dfy) holds cells, lines, the opponent's `check_winner`, `available_moves` and the count of empty cells that makes the search terminate.
- `Search` (search.dfy) gives the values that `minimax` and `minimax_move` compute, as functions on board values, with the lemmas that characterise them. These are: the score range, the minimax equations, and the first best move.
- `AI` (ai.dfy) holds the class `TicTacToeAI`. Its methods work on the caller's board, an `array<Cell>`, as the Python code works on the caller's list. The random and blocking policies have no `modifies` clause, so they provably leave the board alone. `medium_move` writes into a fresh copy for each trial. The search places a mark, recurses and writes the cell back. That place/score/undo step is the method `TryMove`, which the maximising loop, the minimising loop and `MinimaxMove` all use. Each search method is proved to leave the board exactly as it found it and to return the value of the `Search` functions.
- `Game` (game.dfy) holds the window's `check_winner` and a value-level `Step` (the board/turn part of one `make_move`), with lemmas about `Step`. It also holds the class `TicTacToe`, whose fields `board` and `currentPlayer` are updated in place. Its invariant is that at most one mark owns a line. Each method's postcondition ties the new state to `Step`. When it is then the opponent's turn, the postcondition also covers the opponent's reply, which any answer `get_move` may give at the configured difficulty can produce.

The search keeps the first move of strictly greatest score, so it may prefer a lower-index forced win to a win it could complete at once. `Search.ForkPreferredExample` shows a board where this happens. That is why `Search.BestMoveTakesWin` promises a move scoring +1 rather than the completing move.

The Python code uses `±float('inf')` as the starting accumulators of the search. Scores are only -1, 0 or 1, so the model uses -2 and 2 (`Search.Bottom`, `Search.Top`).

## Model

| member | source | states |
|---|---|---|
| `Board.Opponent` | ai.py:6 | the human's mark differs from the opponent's: "X" for "O" and "O" otherwise |
| `Board.Wins` | ai.py:72-81 | true exactly when one of the eight fixed lines has all three cells equal to the queried value (no guard against the empty value) |
| `Board.Owns` | ai.py:79 | a line is owned by a value when all three of its cells hold it; its meaning for the win test is stated by `Board.Wins` and `Game.Completed` |
| `Board.WinsFrom` | ai.py:78-81 | the scan over lines k..7 answers true exactly when one of those lines is owned |
| `Board.WinsRelabel` | ai.py:72-81 | swapping every "X" and "O" and querying the swapped mark gives the same answer |
| `Board.AvailableMoves` | ai.py:69-70 | exactly the indices of empty cells, strictly increasing; empty exactly when no cell is empty |
| `Board.EmptyCountPlace` | ai.py:55-57 | placing a mark on an empty cell leaves one empty cell fewer (the search's termination measure) |
| `Search.Score` | ai.py:44-67 | the minimax value of a board is always -1, 0 or 1 |
| `Search.Mover` | ai.py:55-63 | the mark placed on a ply is the opponent's exactly on the maximising ply, and the human's on the other |
| `Search.Child` | ai.py:55-57 | the score after the side to move takes a free cell is -1, 0 or 1 |
| `Search.Fold` | ai.py:52-67 | the loop over a non-empty move list yields a value in -1..1, and the start value when the list is exhausted |
| `Search.FoldBounds` | ai.py:52-67 | the maximising loop ends at or above its start and every child, the minimising loop at or below |
| `Search.FoldAttained` | ai.py:52-67 | the loop ends at its start value or at the score of one of the children it visited |
| `Search.ScoreIsMinimax` | ai.py:44-67 | +1 when the opponent owns a line, else -1 when the human does, else 0 on a full board; otherwise the largest (opponent to move) or smallest (human to move) child score, reached by some free cell |
| `Search.ForcedWinScoresOne` | ai.py:44-59 | if the opponent, to move, can complete a line on a board the human has not won, the search scores +1 |
| `Search.BestFoldChoice` | ai.py:33-42 | the `minimax_move` loop keeps a free cell whose score bounds every remaining move and is strictly greater than that of every lower remaining move, and keeps the accumulator only when nothing beats it |
| `Search.BestFold` | ai.py:35-41 | the `minimax_move` loop ends with its accumulator or one of the moves it visited; `Search.BestFoldChoice` states which |
| `Search.BestMoveSpec` | ai.py:32-42 | `minimax_move` returns None exactly on a full board; otherwise a free cell of maximal score, the lowest index with that score |
| `Search.BestMove` | ai.py:32-42 | the cell `minimax_move` returns: None exactly on a full board, otherwise a free cell; `Search.BestMoveSpec` proves it is the lowest cell of maximal score |
| `Search.BestMoveTakesWin` | ai.py:32-42 | when the opponent can complete a line at once, the chosen cell scores +1 |
| `Search.ForcedWinExample` | ai.py:32-42 | on X X _ / O O _ / _ _ _ with the opponent playing "X" the search picks cell 2 |
| `Search.ReplyScores` | ai.py:60-67 | on O X _ / X X _ / _ _ O with the human to move, every reply still scores +1 for the opponent (it completes a line next) |
| `Search.ForkScoresOne` | ai.py:52-59 | on O _ _ / X X _ / _ _ O with "X" to move, taking cell 1 scores +1 |
| `Search.ForkPreferredExample` | ai.py:32-42 | on O _ _ / X X _ / _ _ O cell 5 wins at once for "X", yet the search answers cell 1, the lower-index forced win of equal score |
| `AI.BlockingExample` | ai.py:23-29 | on O O _ / _ _ _ / _ _ _ with the human playing "O" the blocking policy must answer cell 2 |
| `AI.Blocks` | ai.py:26-28 | a trial of the blocking policy: the cell is free and the human's mark there completes a line; `AI.TicTacToeAI.MediumMove` states that the first such cell is returned |
| `AI.TicTacToeAI.constructor` | ai.py:4-7 | stores the mark and difficulty; the human's mark is the other one |
| `AI.TicTacToeAI.GetMove` | ai.py:9-17 | dispatches on the difficulty ("easy" and unknown strings play at random); answers None exactly on a full board, else a free cell; the blocking answer at "medium", the search's answer at "hard"; the board is restored |
| `AI.TicTacToeAI.RandomMove` | ai.py:19-21 | None exactly when no cell is empty, otherwise some empty cell |
| `AI.TicTacToeAI.MediumMove` | ai.py:23-30 | reads the board only; if some free cell would complete a line for the human, returns the lowest such cell; otherwise a free cell, or None exactly on a full board |
| `AI.TicTacToeAI.MinimaxMove` | ai.py:32-42 | returns the search's first best move and leaves the board exactly as on entry |
| `AI.TicTacToeAI.Minimax` | ai.py:44-67 | returns the minimax score (in -1..1) of the entry board, terminates by the number of empty cells, and leaves the board exactly as on entry |
| `AI.TicTacToeAI.TryMove` | ai.py:55-57 | places the mover's mark, scores the rest of the game with the other side to move, and restores the cell |
| `Game.WinningLineFrom` | game.py:186-189 | the first of lines k..7 whose three cells are equal and non-empty, or None exactly when there is none |
| `Game.Completed` | game.py:187 | three equal cells, not empty, exactly when the first cell's mark owns the line |
| `Game.WinningLine` | game.py:180-189 | returns one of the eight fixed triples, whose cells are equal and non-empty, the first such in table order; None exactly when no line qualifies |
| `Game.WinningLineMatchesWins` | game.py:180-189 | the window's test finds a line exactly when "X" or "O" owns one by the opponent's test, and the returned line is owned by the mark in its cells |
| `Game.Accepts` | game.py:142 | `make_move` goes ahead exactly when the cell is empty and neither "X" nor "O" owns a line |
| `Game.Step` | game.py:141-162 | the board/turn part of `make_move`: nine cells, and no cell other than the chosen one changes; `Game.StepWritesOneCell`, `Game.StepTurn` and `Game.StepWinnerIsMover` state the rest |
| `Game.StepWritesOneCell` | game.py:141-150 | a refused move (occupied cell or existing winning line) changes nothing; an accepted one writes the mover's mark into exactly the chosen cell, never overwrites a mark and uses up one empty cell |
| `Game.StepTurn` | game.py:151-162 | the turn passes to the other mark exactly when the move was accepted and left neither a winning line nor a full board |
| `Game.StepWinnerIsMover` | game.py:151-157 | on a board nobody has won, a move that produces a winning line was made by the player to move, who keeps the turn and is the only owner of a line |
| `Game.StepKeepsOneWinner` | game.py:141-162 | if at most one mark owns a line before a move, the same holds after it |
| `Game.AIAnswerAccepted` | game.py:175-178 | on a board nobody has won with a free cell, any answer the opponent may give is a cell that `make_move` accepts |
| `Game.TicTacToe.constructor` | game.py:62-96 | the opponent's mark is the complement of the player's; the board starts empty; some starter is chosen, and if it is the opponent it moves at once |
| `Game.TicTacToe.MakeMove` | game.py:141-165 | the new state is `Step` of the old one and, when the turn passes to the opponent in single-player mode, then the opponent's reply; the board object is kept and the invariant holds |
| `Game.TicTacToe.SkipTurn` | game.py:167-173 | the player to move flips exactly when `skip_turn_on_timeout` is set, the board is untouched, then the opponent replies if it is its turn |
| `Game.TicTacToe.AIMove` | game.py:175-178 | asks the opponent on the real board; a None answer leaves the state unchanged, a cell is played through `MakeMove` |
| `Game.TicTacToe.ResetGame` | game.py:191-200 | a fresh all-empty board, some starting player, and the opponent's move if it starts |

## Left out

- Everything tkinter does is left out: creating widgets, layout, `resize_grid`, `animate_winning_line`, `apply_dark_mode`, message boxes and the button texts. The button texts always equal the board cells, so the board alone is the state.
- The timer (`start_timer`, `update_timer`, `stop_timer`) is left out, because it relies on `root.after` callbacks. `SkipTurn` is the transition the timer fires.
- Sound (`winsound`), reading and writing the settings file, themes and process launching are left out. They are I/O. `skip_turn_on_timeout` and the mode, difficulty and player symbol become constructor parameters.
- After a win or a draw, the window asks "play again?" and may call `reset_game`. The answer comes from the user, so `ResetGame` is a separate transition rather than a continuation of `MakeMove`.
- `random.choice` (ai.py:21, game.py:70, game.py:195) becomes a nondeterministic choice from the candidate set. The model says which answers are possible, not that they are uniformly distributed.
- `AI.TicTacToeAI.constructor` has no defaults. Python defaults `ai_player` to "O" and `difficulty` to "easy" (ai.py:4), but the only caller (game.py:69) passes both.
- The marks are limited to "X" and "O". Python would accept any string as `ai_player` or `player_symbol`, but the game only ever passes "X" or "O".
- All boards have exactly nine cells. The Python functions index cells 0..8 and would fail on a shorter list.
- `Game.TicTacToe.AIMove` requires that it is the opponent's turn. Every caller in game.py checks this before calling `ai_move`.
- "The optimal policy never loses a whole game" is not proved. It needs reasoning over the full game tree from the empty board. The model proves the per-move facts instead: maximal score, lowest index, and +1 when a win is available at once.
- draft.py, index.py, setup_window.py, options_window.py and theme_utils.py are not part of this model.
