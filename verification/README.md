# Tic-tac-toe engine: board model and minimax search

This project models the game engine of a tic-tac-toe chat bot (`logic.py`).
The board is a 3x3 grid of integers: `HUMAN = -1`, `COMP = 1`, `EMPTY = 0`.
The engine has six parts:

- it builds an empty board;
- it lists the empty cells in row-major order;
- it tests the eight winning lines;
- it tests whether the game is over;
- it scores a position as +1, -1 or 0;
- it runs an exhaustive, unpruned minimax search, which picks the machine's move.

There are two modules:

- `Boards` (boards.dfy) is the board model. A board value is `Board`, three rows of three `int`s. `Place` is the value form of writing one cell. `EmptyCellsOf` is the specification of `empty_cells`. `Wins` and `GameOver` are written the way the source builds them: a list of eight line contents, searched for `[p, p, p]`. The method `EmptyCells` is the source's nested loop over an `array2<int>`. It is proved equal to `EmptyCellsOf` of the array's contents (`Snapshot`).
- `Search` (search.dfy) is the search engine. `Evaluate` gives the score. `Minimax`, `Scan` and `ChildScore` are the search as pure functions: `Scan` is the running best after the first n empty cells. `MinimaxSearch` is the source's in-place search. It writes the player's mark into the caller's array, recurses with `-player`, writes `EMPTY` back, and keeps a running best with strict comparisons. It is proved to leave the array as it found it and to return exactly `Minimax` of the original board. `Choice` and `AiChoice` model `ai_choice`.

The search's starting scores `-inf` and `+inf` become the integers `NEG_INF = -2` and `POS_INF = 2`. Every real score is in -1..1, so each comparison in the search has the same outcome as it has against the infinities.

The random opening move (`random.choice` for the row and for the column) is a pair of parameters, `openRow` and `openCol`, each in 0..2.

Three behaviours of the code are worth stating:

- The code minimises for any player other than `COMP`. The model admits only `HUMAN` and `COMP`, which are the two values the docstring allows.
- When `depth` exceeds the number of empty cells, the search can reach a full board with no line. There it returns the starting sentinel. If every cell yields the mover's own start value, no cell replaces it (the comparisons are strict), so the result is `(-1, -1, -inf)` for `COMP` or `(-1, -1, +inf)` for `HUMAN`. `MinimaxBestMove` states this: a result naming a cell never carries the start score.
- With `depth` equal to the number of empty cells, which is how `ai_choice` calls the search, the sentinel never comes back (`MinimaxFullDepth`).

## Model

| member | source | states |
|---|---|---|
| `Boards.EmptyBoard` | logic.py:16-21 | every one of the nine cells of the new board is `EMPTY` |
| `Boards.EmptyBoardCells` | logic.py:16-37 | the empty board offers all nine coordinates in row-major order, and neither player has won on it |
| `Boards.Place` | logic.py:108 | writing mark v at (x, y) sets that cell and leaves the other eight unchanged |
| `Boards.EmptyCells` | logic.py:24-37 | the nested loop returns exactly the row-major list of `EMPTY` coordinates of the array, and it does not write to the array |
| `Boards.EmptyCellsOf` | logic.py:30-37 | every listed coordinate is on the board and holds `EMPTY`; there are at most nine |
| `Boards.EmptyCellsExact` | logic.py:30-37 | a coordinate is listed iff it is on the board and `EMPTY`; the list is strictly increasing in row-major order, so no cell appears twice |
| `Boards.EmptyCellsCount` | logic.py:30-37 | on a board of legal marks, the number of empty cells plus the `HUMAN` cells plus the `COMP` cells is 9 |
| `Boards.NineEmptyMeansEmptyBoard` | logic.py:124-128 | a board with nine empty cells is the empty board, so the opening branch of `ai_choice` is taken only there |
| `Boards.PlaceShrinksEmptyCells` | logic.py:106-109 | marking an empty cell with a non-`EMPTY` value removes exactly that coordinate from the empty-cell list and keeps every other one, so the list is one shorter |
| `Boards.WinsIffLine` | logic.py:40-60 | `wins(state, p)` holds iff one of the 3 rows, 3 columns or 2 diagonals has all three cells equal to p |
| `Boards.GameOverIffUniformLine` | logic.py:63-69 | on a board of legal marks, the game is over iff some line holds three equal marks other than `EMPTY` |
| `Search.Evaluate` | logic.py:72-85 | the score is -1, 0 or 1, and it is non-zero iff the game is over |
| `Search.EvaluateCases` | logic.py:78-85 | the score is 1 whenever `COMP` has a line, even if `HUMAN` also has one; it is -1 iff only `HUMAN` has a line; it is 0 iff nobody has one |
| `Search.Minimax` | logic.py:88-120 | the score lies between the two sentinels -inf and +inf |
| `Search.ChildScore` | logic.py:106-111 | the score of trying one empty cell lies between the sentinels |
| `Search.Scan` | logic.py:106-118 | the running best after any number of tried cells lies between the sentinels |
| `Search.ScanBest` | logic.py:113-118 | after n cells, no tried cell beats the running best (`COMP`: none greater; `HUMAN`: none smaller); the running best is either the start value itself or the first tried cell that reaches its score, with a score different from the start value |
| `Search.MinimaxLeaf` | logic.py:102-104 | with depth 0 or a decided board, the result is (-1, -1, evaluate(state)), with a score in {-1, 0, 1} |
| `Search.MinimaxBestMove` | logic.py:97-120 | in the recursive case, `COMP` gets the maximum child score and `HUMAN` the minimum, and the score is attained whenever a cell is empty; the move is the first empty cell in row-major order that reaches that score, and its score differs from the start value; otherwise (no cell beats the start value) the result is the start value (-1, -1, sentinel) itself |
| `Search.MinimaxFullDepth` | logic.py:102-118 | with depth equal to the number of empty cells, the score is in {-1, 0, 1}; if a cell is empty and nobody has won, the move is an empty cell of the board |
| `Search.ImmediateWin` | logic.py:106-118 | if marking some empty cell gives `COMP` a line, the full-depth search for `COMP` scores 1 and picks that cell or an earlier one |
| `Search.MinimaxSearch` | logic.py:88-120 | the in-place search on the caller's array restores every cell it tries, so the array is unchanged afterwards, and it returns exactly `Minimax` of the original board |
| `Search.Choice` | logic.py:123-134 | the answer is the sentinel (-1, -1) or a cell on the board |
| `Search.ChoiceCases` | logic.py:123-134 | the answer is (-1, -1) iff no cell is empty or the game is over; on the empty board it is the random cell; otherwise it is an empty cell, and off the empty board it is the move of `minimax(board, #empty, COMP)` |
| `Search.TakesTheWin` | logic.py:123-134 | on [[COMP, COMP, _], [HUMAN, HUMAN, _], [_, _, _]] the machine plays (0, 2), whatever the random source gives |
| `Search.ReplyInBottomRowLoses` | logic.py:97-118 | on [[HUMAN, HUMAN, COMP], [COMP, COMP, _], row 2 holding one `HUMAN` mark and two empty cells], the full-depth search for `COMP` scores +1 |
| `Search.ReplyAtRowOneLoses` | logic.py:97-118 | on [[HUMAN, HUMAN, COMP], [COMP, COMP, HUMAN], [_, _, _]], the full-depth search for `COMP` scores +1 |
| `Search.ForkReplyLoses` | logic.py:106-111 | in [[HUMAN, HUMAN, COMP], [COMP, COMP, _], [_, _, _]], every one of the four `HUMAN` replies scores +1 |
| `Search.ForkHolds` | logic.py:97-118 | in [[HUMAN, HUMAN, COMP], [COMP, COMP, _], [_, _, _]], the depth-4 search for `HUMAN` scores +1: `COMP` threatens both row 1 and the anti-diagonal, so no reply saves the game |
| `Search.TakesTheFork` | logic.py:106-134 | on [[HUMAN, HUMAN, _], [COMP, COMP, _], [_, _, _]] the machine plays (0, 2), whatever the random source gives. That cell both blocks the top row and forks on row 1 and the anti-diagonal; it is the first empty cell and scores +1, as does the immediate win at (1, 2), and the strict comparison keeps the first |
| `Search.AiChoice` | logic.py:123-134 | `ai_choice` on the caller's array returns `Choice` of the board it was given, and leaves the array as it was |

## Left out

- main.py is not part of this model. It is the chat-transport glue: message handlers, keyboard rendering, parsing of callback data, sleeping, the worker threads and the restart loop.
- The `__main__` self-play demo in logic.py (lines 137-148) only prints, so it is not modelled.
- `random.choice` is not modelled. The random opening cell is an input (`openRow`, `openCol`), and the model says nothing about its distribution.
- The floating-point infinities are integer sentinels, as described above.
- Boards of other shapes are not modelled. The source's `empty_cells` would enumerate a ragged list; here every board is 3x3.
- Search.Minimax: requires `depth >= 0` and a player in {`HUMAN`, `COMP`}, as the docstring states. The code would also accept other player values (it minimises for them) and negative depths.
- Whole-game claims are not stated. An example is that optimal play from the empty board is a draw. So is "no reachable board is won by both players". The engine does not enforce turn order, so it does not promise either claim.
