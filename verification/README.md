# Minesweeper board model

A Dafny model of the game logic of a small Minesweeper program that exists in two
versions: a pygame `Minesweeper` class (`minesweeper.py`) and a browser script
(`minesweeper/game.js`). Both play on a fixed 10 x 10 grid with 15 mines. A board
cell holds either the mine marker `'M'` or the number of mines among its in-bounds
neighbours. The player reveals cells and toggles flags. Revealing a zero cell
recursively reveals its neighbours. Revealing a mine loses the game. The game is
won when the counter of safe cells still to reveal reaches zero.

The model is functional. A game state is an immutable record. The boolean grids
`revealed` and `flagged` become sets of cell positions. Every handler is a pure
transition function or a method on values.

- `grid.dfy` (module `Grid`): the constants, cell positions, the set of all cells
  and the clipped 8-neighbourhood.
- `mines.dfy` (module `Mines`): cells and boards, the mine set, the adjacency
  count, and the two set-up steps both versions share. These are mine placement by
  rejection sampling and numbering of the safe cells. `_calculate_numbers` and
  `initBoard` run the same loops here, as do the two placement loops, so they are
  modelled once.
- `cascade.dfy` (module `Cascade`): what a flood fill may and must reveal, stated
  over the board and the revealed and flagged cells only, so both versions share it.
  The lower bound is that the cascade is closed: every zero cell it revealed has all
  its neighbours revealed or flagged. The first upper bound is that every other
  revealed cell neighbours a revealed zero cell. The second upper bound is that the
  cascade stays inside every set closed through the zero cells a reveal can still
  enter, meaning those neither revealed nor flagged.
- `python_game.dfy` (module `PythonGame`): `reset_game`, `reveal_cell` and
  `toggle_flag`. This version has the two flags `game_over` and `win`. A mine ends
  `reveal_cell` before the win check.
- `js_game.dfy` (module `JsGame`): `initBoard`, `revealCell`, `flagCell` and
  `revealAllMines`. This version has one `gameOver` flag. A mine reveals every mine
  and then falls through to the win check. If the mine was hit with one safe cell
  left, the counter reaches zero and the win branch runs as well. The game is still
  lost, and a safe cell is still hidden (`JsGame.MineOnLastSafeCell`).

The recursive reveal is a mutual recursion that follows the nested `dr`/`dc` loops
of `reveal_cell` and `revealCell` step by step. It terminates because every call that
gets past the guard reveals one more cell, which shrinks the set of unrevealed cells.

The calls to `random.randint` and `Math.random` become a parameter. This is a stream of
in-range candidate coordinates that the placement loop consumes in order. `Mines.PlaceMines`
is stated for any starting board. `reset_game` and `initBoard` both start it from the
all-zero board, where it leaves exactly MINES_COUNT mines.

## Model

| member | source | states |
|---|---|---|
| Grid.AllPosSize | minesweeper.py:9-10 | the grid has exactly ROWS * COLS = 100 cells |
| Mines.SafeSetSize | minesweeper.py:52 | with MINES_COUNT mines on the board, the number of safe cells is the counter's initial value ROWS * COLS - MINES_COUNT |
| Mines.AllSafeCovered | minesweeper.py:52 | a set of SAFE_CELLS in-grid cells, none of them a mine, is exactly the set of safe cells |
| Mines.PlaceMines | minesweeper.py:59-66 | placement succeeds iff the candidate stream holds at least MINES_COUNT distinct cells that are not already mines; on success it adds exactly MINES_COUNT mines; the mines added are the cells of the shortest candidate prefix that holds MINES_COUNT new cells, so a colliding candidate is skipped and not counted; no number cell changes |
| Mines.PlaceCandidate | minesweeper/game.js:30-33 | one draw: the drawn cell is a mine afterwards, a mine is counted iff the cell held none before, and no other cell changes |
| Mines.CountOffsetRow | minesweeper/game.js:42-49 | the inner dc loop returns the number of mines at offsets (dr, -1..1) that lie on the grid, skipping the centre |
| Mines.CountNeighbourMines | minesweeper.py:73-82 | the two offset loops return the adjacency count of the cell (between 0 and 8) |
| Mines.AdjacentMinesCountsAround | minesweeper.py:75-82 | the loop count equals the size of an independent set definition: the in-bounds neighbours of the cell that hold a mine, centre excluded |
| Mines.ZeroMeansNoMineAround | minesweeper.py:99 | the count is zero iff no in-bounds neighbour holds a mine (both directions) |
| Mines.NumberRow | minesweeper/game.js:38-52 | one row pass writes the adjacency count into every safe cell of that row and leaves the mines and all other rows as they were |
| Mines.CalculateNumbers | minesweeper.py:68-83 | mine cells stay mines, the mine set is unchanged, and every other cell holds the number of mines among its in-bounds neighbours, computed from the original mines although the numbering happens in place |
| Mines.NewBoard | minesweeper/game.js:18-54 | the board of a new game: it exists iff the candidate stream holds MINES_COUNT distinct cells; its mines are exactly the cells of the shortest candidate prefix holding that many, and every safe cell holds its neighbour count |
| Mines.ZeroCellHasNoMineAround | minesweeper.py:99-106 | on a correctly numbered board no neighbour of a cell showing 0 is a mine |
| Mines.ZeroNeighbourSafe | minesweeper.py:99-106 | on a correctly numbered board each in-bounds neighbour of a 0 cell is safe, so the cascade can reveal it without hitting a mine |
| PythonGame.ResetGame | minesweeper.py:44-57 | a new game has nothing revealed or flagged, game_over and win false, flag_count 0, cells_to_reveal = ROWS * COLS - MINES_COUNT, MINES_COUNT mines and correct numbers; its mines are exactly the cells of the shortest candidate prefix holding MINES_COUNT distinct cells; it fails iff the candidate stream has fewer than MINES_COUNT distinct cells |
| PythonGame.FreshGameValid | minesweeper.py:46-52 | the freshly reset state satisfies the between-moves invariant |
| PythonGame.WonRevealsAllSafe | minesweeper.py:108-111 | in a won game the revealed cells are exactly the safe cells |
| PythonGame.RevealCell | minesweeper.py:85-111 | a call on a revealed or flagged cell, or after the game ended, changes nothing; otherwise the cell becomes revealed; a mine sets game_over, leaves win false and reveals nothing else; a cell with a non-zero number reveals only itself; board and flags never change; cells_to_reveal + number of revealed cells is conserved |
| PythonGame.RevealAround | minesweeper.py:99-106 | the cascade loops only add revealed cells on the grid, keep board and flags, and conserve counter + revealed |
| PythonGame.Visit | minesweeper.py:104-106 | one loop step only adds revealed cells on the grid, keeps board and flags, and conserves counter + revealed |
| PythonGame.MarkSafeConsistent | minesweeper.py:90-91 | revealing a safe cell and decrementing the counter keeps the invariant and the game running |
| PythonGame.MarkMineConsistent | minesweeper.py:90-96 | revealing a mine and setting game_over keeps the invariant: a lost game has exactly one revealed mine |
| PythonGame.CheckWinConsistent | minesweeper.py:108-111 | after the win check a game that was not lost is over iff the counter is zero, and then it is won |
| PythonGame.RevealCellKeeps | minesweeper.py:85-111 | reveal_cell keeps the invariant; it reveals no mine besides the clicked cell; a safe reveal ends the game iff the counter reaches zero, and then with a win |
| PythonGame.RevealAroundKeeps | minesweeper.py:99-106 | the cascade around a zero cell keeps the invariant, never loses and reveals no mine |
| PythonGame.RevealCellCloses | minesweeper.py:99-106 | every zero cell the call reveals ends up with each in-bounds neighbour revealed or flagged |
| PythonGame.RevealAroundCloses | minesweeper.py:100-106 | the loops from offset (dr, dc) on leave every later neighbour revealed or flagged, and the cascade they start is closed |
| PythonGame.RevealCellBounded | minesweeper.py:99-106 | every cell the call reveals besides the clicked one is a neighbour of a zero cell the same call revealed |
| PythonGame.RevealAroundBounded | minesweeper.py:100-106 | the cascade loops reveal only neighbours of the zero cell and neighbours of zero cells they revealed themselves |
| PythonGame.RevealCellWithin | minesweeper.py:86-106 | the call reveals nothing outside any set that holds the clicked cell and every neighbour of each zero cell in it that is neither revealed nor flagged (the cells the guard lets a call enter), so nothing outside the clicked cell's open flood region |
| PythonGame.RevealAroundWithin | minesweeper.py:86-106 | the cascade loops around a cell reveal nothing outside any set that holds its neighbours and every neighbour of each zero cell in it that is neither revealed nor flagged |
| PythonGame.RevealNeverFlags | minesweeper.py:86 | a reveal, cascade included, never reveals a flagged cell and never changes a flag |
| PythonGame.RevealPreservesValid | minesweeper.py:85-111 | the between-moves invariant survives reveal_cell |
| PythonGame.RevealIdempotent | minesweeper.py:86-88 | revealing the same cell a second time changes nothing |
| PythonGame.MineOnLastSafeCell | minesweeper.py:94-96 | a mine hit when one safe cell is left drops the counter to zero, yet the game is lost and not won |
| PythonGame.ToggleFlag | minesweeper.py:113-117 | a no-op on a revealed cell or a finished game; otherwise it flips exactly that cell's flag and keeps flag_count equal to the number of flags whenever it was before; nothing else changes |
| PythonGame.ToggleFlagTwice | minesweeper.py:113-117 | toggling a flag twice restores the state |
| PythonGame.ToggleFlagPreservesValid | minesweeper.py:113-117 | after a toggle flag_count still counts the flags and no cell is both revealed and flagged |
| JsGame.InitBoard | minesweeper/game.js:17-56 | a new game has nothing revealed or flagged, gameOver false, flagCount 0, cellsToReveal = ROWS * COLS - MINES_COUNT, MINES_COUNT mines and correct numbers; its mines are exactly the cells of the shortest candidate prefix holding MINES_COUNT distinct cells; it fails iff the candidate stream has fewer than MINES_COUNT distinct cells |
| JsGame.FreshGameValid | minesweeper/game.js:18-23 | the freshly initialised state satisfies the between-moves invariant |
| JsGame.WonRevealsAllSafe | minesweeper/game.js:127-128 | a game not lost whose counter is zero has revealed exactly the safe cells |
| JsGame.MarkMineCols | minesweeper/game.js:151-155 | the column loop over one row adds exactly that row's remaining mine cells to the revealed set and changes nothing else |
| JsGame.MarkMineRows | minesweeper/game.js:150-156 | the row loop adds exactly the mine cells of the remaining rows to the revealed set and changes nothing else |
| JsGame.RevealAllMinesLoops | minesweeper/game.js:149-157 | the nested loops of revealAllMines reveal every mine cell, flagged or not, and leave every other field, the counter included, unchanged |
| JsGame.RevealCell | minesweeper/game.js:103-135 | a call on a revealed or flagged cell, or after gameOver, changes nothing; otherwise the cell becomes revealed; a cell with a non-zero number reveals only itself and lowers the counter by one; board and flags never change |
| JsGame.RevealAround | minesweeper/game.js:114-125 | the cascade loops only add revealed cells on the grid and keep board and flags |
| JsGame.Visit | minesweeper/game.js:118-122 | one loop step only adds revealed cells on the grid and keeps board and flags |
| JsGame.RevealMineShowsAllMines | minesweeper/game.js:106-111 | revealing a mine sets gameOver and reveals every mine; no safe cell's revealed state changes and the counter drops by one only |
| JsGame.RevealMineLost | minesweeper/game.js:106-113 | a mine hit leaves a lost game: all mines revealed, counter one below what the revealed safe cells account for |
| JsGame.MarkSafeRunning | minesweeper/game.js:106-107 | revealing a safe cell and decrementing the counter keeps a running game running |
| JsGame.CheckWinRunning | minesweeper/game.js:127-128 | after the win check a game not lost is over iff the counter is zero |
| JsGame.RevealCellKeeps | minesweeper/game.js:103-131 | revealCell keeps the invariant; from a game not lost a safe reveal keeps it not lost, reveals no mine, and ends the game iff the counter reaches zero; a mine reveal loses it |
| JsGame.RevealAroundKeeps | minesweeper/game.js:114-125 | the cascade around a zero cell keeps the game not lost and reveals no mine |
| JsGame.RevealCellCloses | minesweeper/game.js:114-125 | every zero cell the call reveals ends up with each in-bounds neighbour revealed or flagged |
| JsGame.RevealAroundCloses | minesweeper/game.js:115-124 | the loops from offset (dr, dc) on leave every later neighbour revealed or flagged, and the cascade they start is closed |
| JsGame.RevealCellBounded | minesweeper/game.js:114-125 | on a cell that is not a mine, every cell the call reveals besides the clicked one is a neighbour of a zero cell the same call revealed |
| JsGame.RevealAroundBounded | minesweeper/game.js:115-124 | the cascade loops reveal only neighbours of the zero cell and neighbours of zero cells they revealed themselves |
| JsGame.RevealCellWithin | minesweeper/game.js:104-125 | on a cell that is not a mine, the call reveals nothing outside any set that holds the clicked cell and every neighbour of each zero cell in it that is neither revealed nor flagged (the cells the guard lets a call enter), so nothing outside the clicked cell's open flood region |
| JsGame.RevealAroundWithin | minesweeper/game.js:104-124 | the cascade loops around a zero cell reveal nothing outside any set that holds its neighbours and every neighbour of each zero cell in it that is neither revealed nor flagged |
| JsGame.RevealNeverFlags | minesweeper/game.js:104 | revealing a safe cell, cascade included, never reveals a flagged cell and never changes a flag |
| JsGame.FlaggedMineRevealedOnLoss | minesweeper/game.js:149-157 | on a loss a flagged mine is revealed and keeps its flag, so a cell can be both revealed and flagged |
| JsGame.RevealPreservesValid | minesweeper/game.js:103-131 | the between-moves invariant survives revealCell |
| JsGame.RevealIdempotent | minesweeper/game.js:104 | revealing the same cell a second time changes nothing |
| JsGame.MineOnLastSafeCell | minesweeper/game.js:106-130 | a mine hit with one safe cell left drops the counter to zero, so the win branch also sets gameOver; the game is lost and a safe cell is still hidden |
| JsGame.FlagCell | minesweeper/game.js:138-142 | a no-op on a revealed cell or after gameOver; otherwise it flips exactly that cell's flag and keeps flagCount equal to the number of flags whenever it was before; nothing else changes |
| JsGame.FlagCellTwice | minesweeper/game.js:138-142 | flagging a cell twice restores the state |
| JsGame.FlagCellPreservesValid | minesweeper/game.js:138-142 | after flagCell flagCount still counts the flags and no revealed safe cell is flagged |

## Left out

- Rendering: the pygame window, fonts and `draw` (minesweeper.py:5-38, 119-173) and the canvas `drawBoard` (minesweeper/game.js:59-100). They are presentation only.
- Event loops and input mapping (minesweeper.py:175-201, minesweeper/game.js:180-200). The pixel-to-cell division and bounds check become `InBounds` preconditions on the cell.
- Side effects in the browser handlers: `playSound`, `updateInfo`, `alert`/`setTimeout` and DOM access (minesweeper/game.js:55, 112-113, 129-134, 143-145, 160-172). These are I/O and timers, and no game state depends on them.
- Randomness: `random.randint` and `Math.random` are replaced by a supplied stream of in-range candidates. `_place_mines` and `initBoard` draw until MINES_COUNT mines are placed. When the stream runs out first, the model returns `None` instead.
- `__init__` (minesweeper.py:41-42) and `restartGame` (minesweeper/game.js:175-178) only call the reset and redraw.
- Integer widths: the counters count cells of a 100-cell grid and never approach a machine limit, so unbounded integers stand for Python's and JavaScript's numbers.
