# Tic-tac-toe minimax: outcome evaluator and exhaustive search

This project models the game logic of a tic-tac-toe program in Dafny. The human
plays against an AI that picks its moves by exhaustive minimax search. The model
covers three functions of `TicTacToe.py`:

- `check_winner` scans the eight winning lines (rows, then columns, then
  diagonals). It reports the mark of the first line whose three cells hold the
  same mark. Otherwise it reports a draw when every cell holds a mark, and no
  result when at least one cell is still free.
- `minimax` scores a board. A win for the AI scores `10 - depth`, a win for the
  human `depth - 10` and a draw `0`. Any other board is scored by trying every
  free cell in index order: the mover's mark is written into the cell, the
  child is searched with the other side to move and `depth + 1`, and the
  cell's saved value is written back. Maximizing takes the largest child score,
  minimizing the smallest.
- `best_move` places the AI's mark on each free cell and scores the result with
  `minimax(..., False, ..., 0)`. It keeps the first cell whose score is strictly
  greater than the best so far.

Layout:

- `evaluator.dfy` (module `Evaluator`) holds the board, its cells, the winning
  lines and `CheckWinner`, a pure function.
- `search.dfy` (module `Search`) holds the search in two forms.
  - Pure specification functions: `Value` is what `minimax` returns. `BestUpTo`
    is its loop's running best after cells `0..n-1`. `Child` is one child's
    value. `RootScores`, `RootScan` and `BestMoveOf` describe `best_move`.
  - The methods `Minimax` and `BestMove` mutate an `array<Cell>` in place, as
    the original does. Each is proved to leave the array exactly as it found it
    and to return the value of its specification function.
- `search_properties.dfy` (module `SearchProperties`) holds the lemmas:
  terminal scoring, the max/min characterisation, the score range, the
  lowest-index tie-break of `best_move`, and its preference for an immediate
  win and against an immediate loss.

Modelling choices:

- Free cells are not blank. The game fills them with the labels `"1"`..`"9"`,
  and the code treats any cell that is not `'X'` or `'O'` as free. A cell is
  therefore `Taken(mark)` or `Free(digit)`, and the restore property covers the
  digit too.
- `math.inf` is modelled exactly by `Score = NegInf | Finite(v) | PosInf`.
  `Max`, `Min` and `Above` behave like Python's `max`, `min` and `>` on these
  values, so the search keeps its infinite starting values instead of integer
  stand-ins. `Value` is proved `Finite` whenever the two players' marks differ.
- `best_move` requires neither a free cell on the board nor two different
  marks. It returns `None` on a full board, and with equal marks a win by the
  other mark is not terminal. `Value`, `Minimax` and `BestMove` therefore carry
  neither requirement; only the lemmas that depend on distinct marks require
  them.
- `best_move` passes depth 0 after it has already placed the AI's mark
  (TicTacToe.py:59-60), so an immediate AI win scores 10, not 9. `RootScore`
  models this offset as written.

## Model

| member | source | states |
|---|---|---|
| `Evaluator.FirstCompleteLine` | TicTacToe.py:6-18 | The line index it returns is the first line, in list order, whose three cells hold one mark. No result means that no line is complete. |
| `Evaluator.CheckWinner` | TicTacToe.py:5-21 | The result is a win exactly when some line is complete. The winner is the mark of the first complete line in list order. The result is a draw exactly when no line is complete and every cell holds a mark. It is "no result yet" exactly when no line is complete and some cell is free. |
| `Evaluator.SoleWinner` | TicTacToe.py:16-18 | If mark `m` holds a line and every complete line is held by `m`, the evaluator reports a win for `m`. |
| `Search.Value` | TicTacToe.py:23-51 | When the two players' marks differ, the minimax score is a finite integer and never one of the infinite starting values. |
| `Search.BestUpTo` | TicTacToe.py:32-51 | With distinct marks, the loop's running best is finite exactly when it has met a free cell. Otherwise it is still its starting value, -inf when maximizing and +inf when minimizing. |
| `Search.Child` | TicTacToe.py:35-38 | Writing the mover's mark into a free cell and searching with the other side to move at `depth + 1` gives a finite score when the marks differ. |
| `Search.RootScore` | TicTacToe.py:57-60 | Defined for free cells only. The root score of a free cell is the minimax score after the AI's mark is placed there, with the human to move, at depth 0. It is finite when the marks differ. |
| `Search.Minimax` | TicTacToe.py:23-51 | Restores every cell of the board, free-cell digits included, and returns the score `Value` gives the board it started from. |
| `Search.BestMove` | TicTacToe.py:53-65 | Restores every cell of the board and returns the move `BestMoveOf` gives the board it started from. |
| `SearchProperties.TerminalScore` | TicTacToe.py:24-30 | With distinct marks, an AI win scores `10 - depth`, a human win `depth - 10` and a draw `0`. On any other board the score is the loop's result over all nine cells. |
| `SearchProperties.BestUpToExtremum` | TicTacToe.py:32-51 | After cells `0..n-1`, the running best is at least (when maximizing) or at most (when minimizing) every child score seen so far. When a free cell was seen, it equals one of those child scores. |
| `SearchProperties.NonTerminalValue` | TicTacToe.py:32-51 | On a board with no result yet, a maximizing call returns the maximum and a minimizing call the minimum of the child scores over all free cells. Each child is scored with the other side to move at `depth + 1`. |
| `SearchProperties.ValueBounds` | TicTacToe.py:24-51 | If `0 <= depth` and `depth` plus the number of free cells is at most 10, the score is finite and lies in `[depth - 10, 10 - depth]`. On a board with no result yet it lies in `[depth - 9, 9 - depth]`. |
| `SearchProperties.RootScanChoice` | TicTacToe.py:56-64 | After cells `0..n-1`, the kept move is a free cell holding the best score. Every free cell before it scores strictly less, and no free cell seen scores more. With no move kept, the best is still -inf. |
| `SearchProperties.BestMoveIsFreeCell` | TicTacToe.py:56-65 | A move returned by `best_move` is an index in 0..8 whose cell is free. |
| `SearchProperties.BestMoveNoneIffFull` | TicTacToe.py:53-65 | With distinct marks, `best_move` returns `None` exactly when no cell is free. |
| `SearchProperties.BestMoveFirstMaximal` | TicTacToe.py:62-64 | With distinct marks and a free cell, the returned cell has the greatest root score among free cells, and every free cell before it scores strictly less. Ties therefore go to the lowest index. |
| `SearchProperties.ImmediateWinChosen` | TicTacToe.py:53-65 | When the AI can win at once, `best_move` returns the lowest free cell that wins at once. That cell scores 10, and every free cell that does not win at once scores at most 9. |
| `SearchProperties.ThreatenedValue` | TicTacToe.py:42-51 | With the human to move at depth 0 on an unfinished board where some free cell completes a human line, the score is exactly -9. |
| `SearchProperties.UnthreatenedValue` | TicTacToe.py:42-51 | With the human to move at depth 0 on an unfinished board where no free cell completes a human line, the score is at least -8. |
| `SearchProperties.ImmediateLossAvoided` | TicTacToe.py:53-65 | Suppose some free cell neither leaves the human already winning nor lets the human complete a line on the next ply. Then `best_move` returns a free cell that neither leaves the human already winning nor loses at once, and whose root score is at least -8: it prefers a delaying move to an immediate loss. |
| `SearchProperties.ImmediateWinExample` | TicTacToe.py:53-65 | On the board `X X _ / O O _ / _ _ _` with the AI playing X, `best_move` returns cell 2. |

## Left out

- The `TicTacToeGUI` class (TicTacToe.py:67-166) and the entry point (TicTacToe.py:168-171) are left out. They hold the tkinter widgets, button colours, the message-box dialogs, the timer that schedules the AI's turn, and window teardown. All of these are presentation and foreign library calls.
- The click guards (TicTacToe.py:103-108) and `reset_game` (TicTacToe.py:163-166) are left out. They are plain board writes made only by the GUI.
- Players are typed as marks (`X` or `O`). The source accepts any value. When neither player value is `'X'` or `'O'`, no write fills a cell, and on a board with no result `minimax` recurses until Python raises RecursionError. When exactly one is, that player's writes never count as marks; the search ends but scores the game as if that player never moved. Neither case is modelled.
- The board is fixed at nine cells. `check_winner`'s `all(...)` would also look at extra cells of a longer list, but the game never builds one.
- Scores are integers plus the two infinities. Other floating-point behaviour is not modelled.
- Game-theoretic optimality, such as "self-play always ends in a draw" or "never picks a losing move when a non-losing one exists", is not stated. Proving it would mean enumerating the whole game tree.
- SearchProperties.ValueBounds: proves the range `[-10, 10]` only when `depth` plus the free-cell count is at most 10, which covers every call `best_move` makes. It does not prove the range for every `depth >= 0`, because that claim is false for large depths: a won board at depth 100 scores -90.
