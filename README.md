# Tic-tac-toe board and game-tree search

A Dafny model of the engine of a console tic-tac-toe program (`tic_tac_toe.py`).
It covers two parts:

- The `Game` object owns a nine-cell board. It lists the blank cells, places a
  mark when the cell is free, detects a win through the placed square, and
  answers whether the board is full.
- The `AI` agent plays one fixed mark. It scores positions by exhaustive
  minimax or by alpha-beta minimax, and picks the first blank cell with the
  best score.

Each of the source's two classes gets a module. Module `Board` (`Board.dfy`)
models class `Game`: it holds the cells, the eight winning lines, the legal
moves, the win test as a function on board contents, and the `Game` class
itself. Module `Search` (`Search.dfy`) models class `AI`: it holds the
terminal evaluator, the specification functions of the two search algorithms
and of the move selection, and the `AI` class with its search methods.

Each search method works on a shared `array<Cell>` the way the source does:

1. write a mark;
2. recurse;
3. erase the mark.

Each method is proved equal to a specification function over the board
contents, and each method leaves the board unchanged. About those functions,
the model proves:

- every value is -1, 0 or +1;
- alpha-beta is fail-soft for every window inside [-2, 2], so with the full
  window it gives exactly the minimax value;
- hence `GetMove` picks the same move under either strategy;
- that move is None exactly when no cell is blank;
- otherwise it is the lowest-numbered blank cell with the highest score.

The source's `math.inf` sentinels become -2 and +2. All scores lie in
{-1, 0, 1}, so every comparison against a sentinel comes out the same as in
the source, including the alpha-beta cut-off tests.

The model follows `check_winner` as written: it tests both diagonals for
every even square, not only the diagonals through it. So after a move at
corner 0, a completed anti-diagonal 2-4-6 is also reported. The contract of
`Board.WinsAt` states this for every board and every even square, and
`Board.WinsAtCornerSeesOtherDiagonal` exhibits one such case. `Board.WinsAtSound` shows it never reports a line that is not really
complete.

## Model

| member | source | states |
|---|---|---|
| Board.AvailableFrom | tic_tac_toe.py:13-14 | the blank cells from index k on, strictly ascending; a cell at or after k is listed iff it is blank; empty iff no such cell is blank |
| Board.Available | tic_tac_toe.py:132-133 | the legal moves are exactly the blank cells, strictly ascending; the list is empty iff the board has no blank |
| Board.Game.AvailableMoves | tic_tac_toe.py:13-14 | the game's legal moves: ascending, on the board, and a cell is listed iff it is blank |
| Board.Game.constructor | tic_tac_toe.py:4-6 | a fresh board of nine blank cells and no winner |
| Board.Game.MakeMove | tic_tac_toe.py:16-22 | succeeds iff the cell was blank; success writes exactly that cell; refusal changes nothing; the winner becomes the letter only after a successful placement that `check_winner` accepts |
| Board.WinsAt | tic_tac_toe.py:24-36 | a completed row or column through the square is reported; for an even square a completed diagonal (either one) is reported; for an odd square the result is exactly "its row or its column is complete" |
| Board.Game.CheckWinner | tic_tac_toe.py:24-36 | true iff one of the lines `check_winner` inspects for the square (the lines through it, plus both diagonals for an even square) is entirely the letter |
| Board.WinsAtExactly | tic_tac_toe.py:24-36 | the win test holds iff some inspected line is entirely the letter, in both directions |
| Board.WinsAtChecked | tic_tac_toe.py:24-36 | a reported win names an inspected line that is entirely the letter |
| Board.WinsAtSound | tic_tac_toe.py:24-36 | a reported win means some canonical line is entirely the letter |
| Board.WinsAtComplete | tic_tac_toe.py:24-36 | every canonical line through the square that is entirely the letter is reported (odd squares lose nothing by skipping the diagonals) |
| Board.WinsAtCornerSeesOtherDiagonal | tic_tac_toe.py:31-35 | square 0 also reports the anti-diagonal 2-4-6, which does not pass through it |
| Board.Game.IsFull | tic_tac_toe.py:38-39 | true iff no cell is blank |
| Board.Game.EmptySquares | tic_tac_toe.py:41-42 | true iff some cell is blank, the negation of `IsFull` |
| Board.BlanksDecrease | tic_tac_toe.py:60 | placing a mark in a blank cell removes exactly one blank, so the search terminates |
| Board.AvailableCount | tic_tac_toe.py:132-133 | there are exactly as many legal moves as blank cells |
| Board.AvailableFromCount | tic_tac_toe.py:132-133 | from index k on, there are as many listed moves as blank cells |
| Search.Opponent | tic_tac_toe.py:48 | the opponent's mark differs from the agent's |
| Search.AI.constructor | tic_tac_toe.py:46-49 | the agent keeps its letter, derives the other mark as opponent and starts with zero nodes |
| Search.WonOwned | tic_tac_toe.py:128 | three equal non-blank cells on a line means exactly that one of the two players owns the whole line |
| Search.FirstWonFrom | tic_tac_toe.py:127-129 | the first line in scan order (from n) with three equal non-blank cells, or the end of the list if there is none |
| Search.CheckTerminal | tic_tac_toe.py:121-130 | a terminal score is in {-1, 0, 1}; "not terminal" only while a blank cell remains |
| Search.CheckTerminalCases | tic_tac_toe.py:121-130 | +1 iff the first won line is the agent's, -1 iff it is the opponent's, 0 iff no line is won and the board is full, None iff no line is won and a cell is blank |
| Search.MinimaxValue | tic_tac_toe.py:51-72 | the minimax value is always -1, 0 or +1 |
| Search.MaxFold | tic_tac_toe.py:57-64 | the maximizing loop never lowers `best` and is at least -1 once a move was tried |
| Search.MinFold | tic_tac_toe.py:65-72 | the minimizing loop never raises `best` and is at most +1 once a move was tried |
| Search.AlphaBetaValue | tic_tac_toe.py:74-101 | the alpha-beta value is always -1, 0 or +1 |
| Search.ABMaxFold | tic_tac_toe.py:80-90 | the maximizing loop with cut-off never lowers `best` and is at least -1 once a move was tried |
| Search.ABMinFold | tic_tac_toe.py:91-101 | the minimizing loop with cut-off never raises `best` and is at most +1 once a move was tried |
| Search.MaxFoldShift | tic_tac_toe.py:58-63 | starting the maximizing loop from max(x, y) gives max(x, the result from y) |
| Search.MinFoldShift | tic_tac_toe.py:66-71 | starting the minimizing loop from min(x, y) gives min(x, the result from y) |
| Search.AlphaBetaWindow | tic_tac_toe.py:74-101 | for any window alpha < beta in [-2, 2], alpha-beta equals minimax inside the window, is at most alpha when minimax is, and at least beta when minimax is |
| Search.ABMaxFoldWindow | tic_tac_toe.py:80-90 | the maximizing loop with cut-off is fail-soft with respect to the plain maximizing loop |
| Search.ABMinFoldWindow | tic_tac_toe.py:91-101 | the minimizing loop with cut-off is fail-soft with respect to the plain minimizing loop |
| Search.AlphaBetaEqualsMinimax | tic_tac_toe.py:111-113 | with the full window, alpha-beta returns exactly the minimax value |
| Search.MoveScore | tic_tac_toe.py:109-113 | the score of a move is the minimax value of the board with the agent's mark there and the opponent to move, whichever strategy computes it, and lies in {-1, 0, 1} |
| Search.PickFrom | tic_tac_toe.py:108-117 | the strict `>` selection keeps the incoming best move or picks a listed move that scores strictly above the incoming best score; it keeps nothing new only if no move beats that score |
| Search.SelectMove | tic_tac_toe.py:103-119 | a chosen move is a blank cell of the board; with no blank cell nothing is chosen |
| Search.PickFromSpec | tic_tac_toe.py:108-117 | over strictly ascending moves, the strict `>` selection yields None iff there are no moves, and otherwise the lowest move of highest score |
| Search.SelectMoveSpec | tic_tac_toe.py:103-119 | the chosen move is None iff the board has no blank; otherwise it is a blank cell whose score is maximal over all blank cells, and it is the lowest such cell |
| Search.PickFromAgree | tic_tac_toe.py:108-117 | two scorings that agree on every candidate select the same move |
| Search.SelectMoveStrategies | tic_tac_toe.py:110-113 | choosing with alpha-beta and choosing with plain minimax give the same move |
| Search.AI.Minimax | tic_tac_toe.py:51-72 | returns the minimax value of the board it was given, leaves the board as it found it, and counts at least one node |
| Search.AI.MinimaxMaxLoop | tic_tac_toe.py:57-64 | tries each move for the agent, restoring the board, and returns the maximizing fold of the children's values |
| Search.AI.MinimaxMinLoop | tic_tac_toe.py:65-72 | tries each move for the opponent, restoring the board, and returns the minimizing fold of the children's values |
| Search.AI.MinimaxChild | tic_tac_toe.py:59-62 | plays a mark at a blank cell, returns the minimax value of the resulting board, erases the mark so the board is as before, and counts at least one node |
| Search.AI.AlphaBeta | tic_tac_toe.py:74-101 | returns the alpha-beta value for the window, leaves the board as it found it, and counts at least one node |
| Search.AI.AlphaBetaMaxLoop | tic_tac_toe.py:80-90 | raises alpha after each child and stops once beta <= alpha; the result is the specified loop value and the board is restored on the early exit too |
| Search.AI.AlphaBetaMinLoop | tic_tac_toe.py:91-101 | lowers beta after each child and stops once beta <= alpha; the result is the specified loop value and the board is restored |
| Search.AI.AlphaBetaChild | tic_tac_toe.py:82-85 | plays a mark at a blank cell, returns the alpha-beta value of the resulting board for the window, erases the mark so the board is as before, and counts at least one node |
| Search.AI.Score | tic_tac_toe.py:110-113 | scores a position with the opponent to move by the chosen strategy, leaving the board unchanged |
| Search.AI.GetMove | tic_tac_toe.py:103-119 | returns the selected move together with the node counter, which is at least the number of legal moves, leaving the board unchanged |

## Left out

- `Game.display` and `play_game` (console output, reading the human's moves and the game loop) are not modelled. They are input and output around the core.
- The source's `math.inf` is modelled as the integers -2 and +2. No floating point is involved.
- Marks are the two players `X` and `O`. The source accepts any string as a letter. The model does not capture a letter other than these two, nor an agent whose opponent is derived from such a letter.
- Board.Game.MakeMove: requires `pos < 9`. In the source an index of 9 or more raises an error, and a negative index wraps around Python's list. Neither is modelled.
- Search.AI.Minimax: the node counter is only stated to grow. The exact number of nodes visited is not specified.
- Search.AI.AlphaBeta: likewise, the exact number of nodes visited is not specified.
- Search.AI.GetMove: the returned count is stated to equal the node counter and to be at least the number of legal moves. Neither the exact count nor the reset of the counter to zero at the start of the call is stated.
- Search.MinimaxValue: no claim is made that the agent plays optimally or never loses. Only the value computed and its agreement with alpha-beta are proved.
- The loop over the moves of each minimax and alpha-beta branch is a method of its own (`MinimaxMaxLoop` and similar). The source has it inline. The behaviour is unchanged.
