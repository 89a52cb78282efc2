/** The browser version's game state and its handlers `initBoard`, `revealCell` (with
    its recursive flood fill), `flagCell` and `revealAllMines`. This version has a
    single `gameOver` flag: a revealed mine sets it, reveals every mine and then falls
    through to the win check instead of returning. */
module JsGame {
  import opened Grid
  import opened Mines
  import opened Cascade

  /** The module-level variables of the script; revealed/flagged hold the cells whose
      entry in the boolean grids is true. */
  datatype GameState = GameState(
    board: Board,
    revealed: set<Pos>,
    flagged: set<Pos>,
    gameOver: bool,
    flagCount: int,
    cellsToReveal: int)

  // ---------------------------------------------------------------------------
  // Invariants.

  /** A game not lost: no revealed cell is flagged or a mine, the counter and the
      revealed cells add up to SAFE_CELLS, and the game is over only when the counter
      is zero (a win). */
  ghost predicate Running(s: GameState)
    requires WellFormed(s.board)
  {
    && s.revealed !! s.flagged
    && s.revealed !! MineSet(s.board)
    && s.cellsToReveal + |s.revealed| == SAFE_CELLS
    && (s.gameOver ==> s.cellsToReveal == 0)
  }

  /** A lost game: every mine is revealed, flagged ones included; no revealed safe cell
      is flagged; the reveal of the mine was counted, so the counter is one lower than
      the safe cells revealed account for. */
  ghost predicate Lost(s: GameState)
    requires WellFormed(s.board)
  {
    && s.gameOver
    && MineSet(s.board) <= s.revealed
    && (s.revealed - MineSet(s.board)) !! s.flagged
    && s.cellsToReveal + |s.revealed - MineSet(s.board)| == SAFE_CELLS - 1
  }

  /** What holds of every state reached from initBoard, including the states in the
      middle of a flood fill (besides the board being set up). */
  ghost predicate Consistent(s: GameState) {
    && WellFormed(s.board)
    && s.revealed <= AllPos() && s.flagged <= AllPos()
    && s.flagCount == |s.flagged|
    && (Running(s) || Lost(s))
  }

  /** The invariant between two player actions: in addition, a counter at zero means
      the game is over. */
  ghost predicate Valid(s: GameState) {
    Setup(s.board) && Consistent(s) && (s.cellsToReveal == 0 ==> s.gameOver)
  }

  /** A game not lost whose counter is zero has revealed every safe cell. */
  lemma WonRevealsAllSafe(s: GameState)
    requires Setup(s.board) && Consistent(s) && Running(s) && s.cellsToReveal == 0
    ensures s.revealed == SafeSet(s.board)
  {
    AllSafeCovered(s.board, s.revealed);
  }

  // ---------------------------------------------------------------------------
  // initBoard

  /** A new game: nothing revealed or flagged, gameOver false, no flags counted, the
      counter at SAFE_CELLS, MINES_COUNT mines placed from the candidate stream and
      every safe cell numbered. None when the stream holds too few distinct cells. */
  method InitBoard(candidates: seq<Pos>) returns (r: Option<GameState>)
    requires forall i :: 0 <= i < |candidates| ==> InBounds(candidates[i])
    ensures r.Some? <==> |Elems(candidates)| >= MINES_COUNT
    ensures r.Some? ==> r.value.revealed == {} && r.value.flagged == {}
    ensures r.Some? ==> !r.value.gameOver
    ensures r.Some? ==> r.value.flagCount == 0 && r.value.cellsToReveal == SAFE_CELLS
    ensures r.Some? ==> Setup(r.value.board) && Valid(r.value)
    ensures r.Some? ==> exists n ::
      ShortestPrefix(candidates, {}, n) && MineSet(r.value.board) == Elems(candidates[..n])
  {
    var board := NewBoard(candidates);
    if board.None? {
      return None;
    }
    FreshGameValid(board.value);
    r := Some(GameState(board.value, {}, {}, false, 0, ROWS * COLS - MINES_COUNT));
  }

  /** A fresh game on a set-up board satisfies the invariant. */
  lemma FreshGameValid(board: Board)
    requires Setup(board)
    ensures Valid(GameState(board, {}, {}, false, 0, ROWS * COLS - MINES_COUNT))
  {
  }

  // ---------------------------------------------------------------------------
  // revealAllMines

  /** The mines in rows row .. ROWS - 1. */
  ghost function MinesFrom(b: Board, row: int): set<Pos>
    requires WellFormed(b)
  {
    set q | q in MineSet(b) && row <= q.row
  }

  /** The mines in row `row` from column col on. */
  ghost function MinesInRow(b: Board, row: int, col: int): set<Pos>
    requires WellFormed(b)
  {
    set q | q in MineSet(b) && q.row == row && col <= q.col
  }

  /** What revealAllMines does: every mine cell becomes revealed, flagged or not, and
      nothing else changes; the counter in particular is left alone. */
  function RevealAllMines(s: GameState): GameState
    requires WellFormed(s.board)
  {
    s.(revealed := s.revealed + MineSet(s.board))
  }

  /** The nested row and column loops of revealAllMines compute exactly that. */
  lemma RevealAllMinesLoops(s: GameState)
    requires WellFormed(s.board)
    ensures MarkMineRows(s, 0) == RevealAllMines(s)
  {
    assert MinesFrom(s.board, 0) == MineSet(s.board);
  }

  /** The row loop of revealAllMines from row `row` on. */
  function MarkMineRows(s: GameState, row: int): (r: GameState)
    requires WellFormed(s.board) && 0 <= row <= ROWS
    ensures r == s.(revealed := s.revealed + MinesFrom(s.board, row))
    decreases ROWS - row
  {
    if row == ROWS then
      assert MinesFrom(s.board, row) == {};
      s
    else
      MinesFromSplit(s.board, row, s.revealed);
      MarkMineRows(MarkMineCols(s, row, 0), row + 1)
  }

  /** The mines from row `row` on are those of that row and those after it. */
  lemma MinesFromSplit(b: Board, row: int, seen: set<Pos>)
    requires WellFormed(b) && 0 <= row < ROWS
    ensures seen + MinesInRow(b, row, 0) + MinesFrom(b, row + 1) == seen + MinesFrom(b, row)
  {
    forall q | q in MinesFrom(b, row)
      ensures q in MinesInRow(b, row, 0) + MinesFrom(b, row + 1)
    {
      assert q in MineSet(b);
    }
  }

  /** The column loop of revealAllMines over row `row` from column col on. */
  function MarkMineCols(s: GameState, row: int, col: int): (r: GameState)
    requires WellFormed(s.board) && 0 <= row < ROWS && 0 <= col <= COLS
    ensures r == s.(revealed := s.revealed + MinesInRow(s.board, row, col))
    decreases COLS - col
  {
    if col == COLS then
      assert MinesInRow(s.board, row, col) == {};
      s
    else
      var here := if s.board[row][col] == Mine then {Pos(row, col)} else {};
      assert MinesInRow(s.board, row, col) == here + MinesInRow(s.board, row, col + 1);
      MarkMineCols(s.(revealed := s.revealed + here), row, col + 1)
  }

  // ---------------------------------------------------------------------------
  // revealCell

  /** The guard at the top of revealCell: such a call changes nothing. */
  predicate Blocked(s: GameState, p: Pos) {
    p in s.revealed || p in s.flagged || s.gameOver
  }

  /** The cells not yet revealed: every call that gets past the guard shrinks it. */
  ghost function Unrevealed(s: GameState): set<Pos> {
    AllPos() - s.revealed
  }

  /** revealCell(r, c): reveal p and count it; a mine ends the game and reveals every
      mine; a zero cell reveals its neighbours recursively; in every case the counter
      at zero then ends the game. */
  function RevealCell(s: GameState, p: Pos): (r: GameState)
    requires WellFormed(s.board) && InBounds(p)
    ensures r.board == s.board && r.flagged == s.flagged && r.flagCount == s.flagCount
    ensures s.revealed <= r.revealed && r.revealed - s.revealed <= AllPos()
    ensures Blocked(s, p) ==> r == s
    ensures !Blocked(s, p) ==> p in r.revealed
    ensures !Blocked(s, p) && At(s.board, p).Num? && At(s.board, p).n != 0 ==>
      r.revealed == s.revealed + {p} && r.cellsToReveal == s.cellsToReveal - 1
    decreases Unrevealed(s), 0, 0, 0, 0
  {
    if Blocked(s, p) then s
    else
      var s1 := Mark(s, p);
      assert p in Unrevealed(s) - Unrevealed(s1);
      if At(s.board, p) == Mine then CheckWin(RevealAllMines(s1.(gameOver := true)))
      else if At(s.board, p) == Num(0) then CheckWin(RevealAround(s1, p, -1, -1))
      else CheckWin(s1)
  }

  /** revealed[r][c] = true; cellsToReveal-- */
  function Mark(s: GameState, p: Pos): GameState {
    s.(revealed := s.revealed + {p}, cellsToReveal := s.cellsToReveal - 1)
  }

  /** The win check that ends every revealCell call, a mine hit included. */
  function CheckWin(s: GameState): GameState {
    if s.cellsToReveal == 0 then s.(gameOver := true) else s
  }

  /** The flood-fill loops of revealCell around p, from offset (dr, dc) on in the
      order of revealCell's dr and dc loops, skipping (0, 0) and offsets that leave the grid. */
  function RevealAround(s: GameState, p: Pos, dr: int, dc: int): (r: GameState)
    requires WellFormed(s.board) && InBounds(p)
    requires -1 <= dr <= 2 && -1 <= dc <= 2
    ensures r.board == s.board && r.flagged == s.flagged && r.flagCount == s.flagCount
    ensures s.revealed <= r.revealed && r.revealed - s.revealed <= AllPos()
    decreases Unrevealed(s), 1, 2 - dr, 2 - dc, 1
  {
    if dr > 1 then s
    else if dc > 1 then RevealAround(s, p, dr + 1, -1)
    else if dr == 0 && dc == 0 then RevealAround(s, p, dr, dc + 1)
    else RevealAround(Visit(s, p, dr, dc), p, dr, dc + 1)
  }

  /** The loop body at offset (dr, dc): reveal that neighbour if it is on the grid. */
  function Visit(s: GameState, p: Pos, dr: int, dc: int): (r: GameState)
    requires WellFormed(s.board) && InBounds(p)
    requires -1 <= dr <= 1 && -1 <= dc <= 1
    ensures r.board == s.board && r.flagged == s.flagged && r.flagCount == s.flagCount
    ensures s.revealed <= r.revealed && r.revealed - s.revealed <= AllPos()
    decreases Unrevealed(s), 1, 2 - dr, 2 - dc, 0
  {
    var n := Pos(p.row + dr, p.col + dc);
    if InBounds(n) then RevealCell(s, n) else s
  }

  /** Revealing a mine ends the game and reveals every mine, flagged or not; no safe
      cell changes and the counter drops by one only, for the mine itself. */
  lemma RevealMineShowsAllMines(s: GameState, p: Pos)
    requires WellFormed(s.board) && InBounds(p) && !Blocked(s, p) && At(s.board, p) == Mine
    ensures RevealCell(s, p) ==
      s.(revealed := s.revealed + MineSet(s.board), cellsToReveal := s.cellsToReveal - 1, gameOver := true)
  {
    MineBranch(s, p);
    MineBranchReveals(s, p);
  }

  /** The mine branch of revealCell: the win check after revealAllMines changes nothing,
      since gameOver is already set. */
  lemma MineBranch(s: GameState, p: Pos)
    requires WellFormed(s.board) && InBounds(p) && !Blocked(s, p) && At(s.board, p) == Mine
    ensures RevealCell(s, p) == RevealAllMines(Mark(s, p).(gameOver := true))
  {
  }

  /** The mine itself is among the mines revealAllMines marks. */
  lemma MineBranchReveals(s: GameState, p: Pos)
    requires WellFormed(s.board) && InBounds(p) && At(s.board, p) == Mine
    ensures RevealAllMines(Mark(s, p).(gameOver := true)).revealed == s.revealed + MineSet(s.board)
  {
    var m := MineSet(s.board);
    assert p in m;
    assert s.revealed + {p} + m == s.revealed + m;
  }

  /** Revealing a safe cell in a running game keeps the game running. */
  lemma MarkSafeRunning(s: GameState, p: Pos)
    requires Setup(s.board) && Consistent(s) && InBounds(p) && !Blocked(s, p) && At(s.board, p) != Mine
    ensures Consistent(Mark(s, p)) && Running(Mark(s, p)) && !Mark(s, p).gameOver
  {
    assert Running(s);
    assert p !in MineSet(s.board);
    assert |s.revealed + {p}| == |s.revealed| + 1;
  }

  /** Revealing a mine in a running game loses it. */
  lemma RevealMineLost(s: GameState, p: Pos)
    requires Setup(s.board) && Consistent(s) && InBounds(p) && !Blocked(s, p) && At(s.board, p) == Mine
    ensures Consistent(RevealCell(s, p)) && Lost(RevealCell(s, p))
  {
    RevealMineShowsAllMines(s, p);
    MineHitLost(s, p);
  }

  /** The state a mine hit leaves: every mine revealed, the counter one lower. */
  lemma MineHitLost(s: GameState, p: Pos)
    requires Setup(s.board) && Consistent(s) && InBounds(p) && !Blocked(s, p) && At(s.board, p) == Mine
    ensures var r := s.(revealed := s.revealed + MineSet(s.board), cellsToReveal := s.cellsToReveal - 1, gameOver := true);
      Consistent(r) && Lost(r)
  {
    var m := MineSet(s.board);
    var r := s.(revealed := s.revealed + m, cellsToReveal := s.cellsToReveal - 1, gameOver := true);
    assert r.revealed - m == s.revealed;
  }

  /** The win check keeps a game not lost so, and then the game is over exactly when the
      counter is zero. */
  lemma CheckWinRunning(s: GameState)
    requires Consistent(s) && Running(s)
    ensures Consistent(CheckWin(s)) && Running(CheckWin(s))
    ensures CheckWin(s).gameOver <==> CheckWin(s).cellsToReveal == 0
  {
  }

  /** revealCell keeps the invariant. From a game not lost, revealing a safe cell
      keeps it not lost, reveals no mine and ends the game exactly when the counter
      reaches zero; revealing a mine loses it. */
  lemma {:induction false} RevealCellKeeps(s: GameState, p: Pos)
    requires Setup(s.board) && Consistent(s) && InBounds(p)
    ensures Consistent(RevealCell(s, p))
    ensures Running(s) && At(s.board, p) != Mine ==>
      var r := RevealCell(s, p);
      Running(r) && r.revealed - s.revealed !! MineSet(s.board)
    ensures !Blocked(s, p) && At(s.board, p) != Mine ==>
      var r := RevealCell(s, p);
      r.gameOver <==> r.cellsToReveal == 0
    ensures !Blocked(s, p) && At(s.board, p) == Mine ==> Lost(RevealCell(s, p))
    decreases Unrevealed(s), 0, 0, 0, 0
  {
    if !Blocked(s, p) {
      var s1 := Mark(s, p);
      assert p in Unrevealed(s) - Unrevealed(s1);
      if At(s.board, p) == Mine {
        RevealMineLost(s, p);
      } else if At(s.board, p) == Num(0) {
        MarkSafeRunning(s, p);
        var s2 := RevealAround(s1, p, -1, -1);
        RevealAroundKeeps(s1, p, -1, -1);
        CheckWinRunning(s2);
        assert RevealCell(s, p) == CheckWin(s2);
      } else {
        MarkSafeRunning(s, p);
        CheckWinRunning(s1);
        assert RevealCell(s, p) == CheckWin(s1);
      }
    }
  }

  /** The flood fill around a zero cell keeps the game not lost and reveals no mine. */
  lemma {:induction false} RevealAroundKeeps(s: GameState, p: Pos, dr: int, dc: int)
    requires Setup(s.board) && Consistent(s) && Running(s) && InBounds(p) && At(s.board, p) == Num(0)
    requires -1 <= dr <= 2 && -1 <= dc <= 2
    ensures var r := RevealAround(s, p, dr, dc); Consistent(r) && Running(r)
    ensures RevealAround(s, p, dr, dc).revealed - s.revealed !! MineSet(s.board)
    decreases Unrevealed(s), 1, 2 - dr, 2 - dc, 2
  {
    if dr > 1 {
    } else if dc > 1 {
      RevealAroundKeeps(s, p, dr + 1, -1);
    } else if dr == 0 && dc == 0 {
      RevealAroundKeeps(s, p, dr, dc + 1);
    } else {
      VisitKeeps(s, p, dr, dc);
    }
  }

  /** One loop step of the flood fill, then the rest of the loops. */
  lemma {:induction false} VisitKeeps(s: GameState, p: Pos, dr: int, dc: int)
    requires Setup(s.board) && Consistent(s) && Running(s) && InBounds(p) && At(s.board, p) == Num(0)
    requires -1 <= dr <= 1 && -1 <= dc <= 1 && !(dr == 0 && dc == 0)
    ensures var r := RevealAround(s, p, dr, dc); Consistent(r) && Running(r)
    ensures RevealAround(s, p, dr, dc).revealed - s.revealed !! MineSet(s.board)
    decreases Unrevealed(s), 1, 2 - dr, 2 - dc, 1
  {
    var s' := Visit(s, p, dr, dc);
    VisitCellKeeps(s, p, dr, dc);
    RevealAroundKeeps(s', p, dr, dc + 1);
    assert RevealAround(s, p, dr, dc) == RevealAround(s', p, dr, dc + 1);
  }

  /** The loop step at (dr, dc) alone keeps the game not lost and reveals no mine: the
      neighbours of a zero cell are safe. */
  lemma {:induction false} VisitCellKeeps(s: GameState, p: Pos, dr: int, dc: int)
    requires Setup(s.board) && Consistent(s) && Running(s) && InBounds(p) && At(s.board, p) == Num(0)
    requires -1 <= dr <= 1 && -1 <= dc <= 1 && !(dr == 0 && dc == 0)
    ensures var s' := Visit(s, p, dr, dc); Consistent(s') && Running(s')
    ensures Visit(s, p, dr, dc).revealed - s.revealed !! MineSet(s.board)
    decreases Unrevealed(s), 1, 2 - dr, 2 - dc, 0
  {
    var n := Pos(p.row + dr, p.col + dc);
    if InBounds(n) {
      VisitInBounds(s, p, dr, dc);
      NeighbourRevealKeeps(s, p, n);
    } else {
      assert Visit(s, p, dr, dc) == s;
    }
  }

  /** The loop step at an in-bounds offset is a revealCell call on that neighbour. */
  lemma VisitInBounds(s: GameState, p: Pos, dr: int, dc: int)
    requires WellFormed(s.board) && InBounds(p) && -1 <= dr <= 1 && -1 <= dc <= 1
    requires InBounds(Pos(p.row + dr, p.col + dc))
    ensures Visit(s, p, dr, dc) == RevealCell(s, Pos(p.row + dr, p.col + dc))
  {
  }

  /** Revealing a neighbour of a zero cell keeps the game not lost and reveals no mine. */
  lemma {:induction false} NeighbourRevealKeeps(s: GameState, p: Pos, n: Pos)
    requires Setup(s.board) && Consistent(s) && Running(s) && InBounds(p) && At(s.board, p) == Num(0)
    requires InBounds(n) && Adjacent(p, n)
    ensures Consistent(RevealCell(s, n)) && Running(RevealCell(s, n))
    ensures RevealCell(s, n).revealed - s.revealed !! MineSet(s.board)
    decreases Unrevealed(s), 0, 0, 0, 1
  {
    ZeroNeighbourSafe(s.board, p, n);
    RevealCellKeeps(s, n);
  }

  /** The cascade of revealCell is closed: every zero cell it reveals ends up with all
      its neighbours revealed or flagged. */
  lemma {:induction false} RevealCellCloses(s: GameState, p: Pos)
    requires Setup(s.board) && Consistent(s) && InBounds(p)
    ensures CascadeClosed(s.board, s.revealed, RevealCell(s, p).revealed, s.flagged)
    decreases Unrevealed(s), 0, 0, 0, 0
  {
    if !Blocked(s, p) && At(s.board, p) == Num(0) {
      var s1 := Mark(s, p);
      assert p in Unrevealed(s) - Unrevealed(s1);
      MarkSafeRunning(s, p);
      RevealAroundCloses(s1, p, -1, -1);
      var s2 := RevealAround(s1, p, -1, -1);
      assert Settled(s2.revealed, s.flagged, p) by {
        forall q | q in Around(p) ensures NotBefore(p, q, -1, -1) { }
      }
      assert RevealCell(s, p) == CheckWin(s2);
      CascadeClosedExtend(s.board, s.revealed, p, s2.revealed, s.flagged);
    } else if !Blocked(s, p) && At(s.board, p) == Mine {
      RevealMineShowsAllMines(s, p);
      MineHitClosed(s);
    } else if !Blocked(s, p) {
      assert RevealCell(s, p) == CheckWin(Mark(s, p));
    }
  }

  /** Revealing every mine reveals no zero cell, so there is no cascade to close. */
  lemma MineHitClosed(s: GameState)
    requires WellFormed(s.board)
    ensures CascadeClosed(s.board, s.revealed, s.revealed + MineSet(s.board), s.flagged)
  {
    forall q | InBounds(q) && q in s.revealed + MineSet(s.board) && q !in s.revealed
      ensures At(s.board, q) == Mine
    {
      assert q in MineSet(s.board);
    }
  }

  /** The flood fill around a zero cell is closed and leaves every neighbour from
      offset (dr, dc) on revealed or flagged. */
  lemma {:induction false} RevealAroundCloses(s: GameState, p: Pos, dr: int, dc: int)
    requires Setup(s.board) && Consistent(s) && Running(s) && InBounds(p) && At(s.board, p) == Num(0)
    requires -1 <= dr <= 2 && -1 <= dc <= 2
    ensures CascadeClosed(s.board, s.revealed, RevealAround(s, p, dr, dc).revealed, s.flagged)
    ensures var r := RevealAround(s, p, dr, dc);
      forall q :: q in Around(p) && NotBefore(p, q, dr, dc) ==> q in r.revealed + r.flagged
    decreases Unrevealed(s), 1, 2 - dr, 2 - dc, 2
  {
    if dr > 1 {
    } else if dc > 1 {
      RevealAroundCloses(s, p, dr + 1, -1);
    } else if dr == 0 && dc == 0 {
      RevealAroundCloses(s, p, dr, dc + 1);
    } else {
      VisitCloses(s, p, dr, dc);
    }
  }

  /** One loop step of the flood fill, then the rest of the loops. */
  lemma {:induction false} VisitCloses(s: GameState, p: Pos, dr: int, dc: int)
    requires Setup(s.board) && Consistent(s) && Running(s) && InBounds(p) && At(s.board, p) == Num(0)
    requires -1 <= dr <= 1 && -1 <= dc <= 1 && !(dr == 0 && dc == 0)
    ensures CascadeClosed(s.board, s.revealed, RevealAround(s, p, dr, dc).revealed, s.flagged)
    ensures var r := RevealAround(s, p, dr, dc);
      forall q :: q in Around(p) && NotBefore(p, q, dr, dc) ==> q in r.revealed + r.flagged
    decreases Unrevealed(s), 1, 2 - dr, 2 - dc, 1
  {
    var s' := Visit(s, p, dr, dc);
    var r := RevealAround(s', p, dr, dc + 1);
    assert RevealAround(s, p, dr, dc) == r;
    VisitCellKeeps(s, p, dr, dc);
    RevealAroundCloses(s', p, dr, dc + 1);
    assert CascadeClosed(s.board, s.revealed, r.revealed, s.flagged) by {
      VisitCellCloses(s, p, dr, dc);
      CascadeClosedTrans(s.board, s.revealed, s'.revealed, r.revealed, s.flagged);
    }
    assert forall q :: q in Around(p) && NotBefore(p, q, dr, dc) ==> q in r.revealed + r.flagged by {
      VisitCovers(s, p, dr, dc);
      CoverStep(p, dr, dc, r.revealed + r.flagged);
    }
  }

  /** The loop step at (dr, dc) alone leaves a closed cascade. */
  lemma {:induction false} VisitCellCloses(s: GameState, p: Pos, dr: int, dc: int)
    requires Setup(s.board) && Consistent(s) && InBounds(p)
    requires -1 <= dr <= 1 && -1 <= dc <= 1
    ensures CascadeClosed(s.board, s.revealed, Visit(s, p, dr, dc).revealed, s.flagged)
    decreases Unrevealed(s), 1, 2 - dr, 2 - dc, 0
  {
    var n := Pos(p.row + dr, p.col + dc);
    if InBounds(n) {
      VisitInBounds(s, p, dr, dc);
      RevealCellCloses(s, n);
    } else {
      assert Visit(s, p, dr, dc) == s;
    }
  }

  /** After the loop step at (dr, dc) that neighbour is revealed or flagged, even when
      an earlier step already won the game: a won game has revealed every safe cell,
      and the neighbours of a zero cell are safe. */
  lemma VisitCovers(s: GameState, p: Pos, dr: int, dc: int)
    requires Setup(s.board) && Consistent(s) && Running(s) && InBounds(p) && At(s.board, p) == Num(0)
    requires -1 <= dr <= 1 && -1 <= dc <= 1 && !(dr == 0 && dc == 0)
    ensures var n := Pos(p.row + dr, p.col + dc);
      InBounds(n) ==> n in Visit(s, p, dr, dc).revealed + Visit(s, p, dr, dc).flagged
  {
    var n := Pos(p.row + dr, p.col + dc);
    if InBounds(n) {
      if s.gameOver {
        WonNeighbourRevealed(s, p, n);
      } else if n !in s.revealed + s.flagged {
        VisitReveals(s, p, dr, dc);
      }
    }
  }

  /** A loop step whose neighbour is on the grid and not blocked reveals it. */
  lemma VisitReveals(s: GameState, p: Pos, dr: int, dc: int)
    requires WellFormed(s.board) && InBounds(p) && -1 <= dr <= 1 && -1 <= dc <= 1
    requires InBounds(Pos(p.row + dr, p.col + dc)) && !Blocked(s, Pos(p.row + dr, p.col + dc))
    ensures Pos(p.row + dr, p.col + dc) in Visit(s, p, dr, dc).revealed
  {
    VisitInBounds(s, p, dr, dc);
  }

  /** In a won game the neighbours of a zero cell are revealed already. */
  lemma WonNeighbourRevealed(s: GameState, p: Pos, n: Pos)
    requires Setup(s.board) && Consistent(s) && Running(s) && s.gameOver
    requires InBounds(p) && At(s.board, p) == Num(0) && InBounds(n) && Adjacent(p, n)
    ensures n in s.revealed
  {
    ZeroNeighbourSafe(s.board, p, n);
    WonRevealsAllSafe(s);
  }

  // ---------------------------------------------------------------------------
  // What a cascade may reveal.

  /** revealCell, on a cell that is not a mine, reveals the clicked cell and, besides it, only neighbours of zero
      cells it revealed itself: the cascade spreads from zero cells alone. */
  lemma {:induction false} RevealCellBounded(s: GameState, p: Pos)
    requires Setup(s.board) && InBounds(p) && At(s.board, p) != Mine
    ensures CascadeBounded(s.board, s.revealed, RevealCell(s, p).revealed, {p})
    decreases Unrevealed(s), 0, 0, 0, 0
  {
    if !Blocked(s, p) && At(s.board, p) == Num(0) {
      var s1 := Mark(s, p);
      assert p in Unrevealed(s) - Unrevealed(s1);
      var s2 := RevealAround(s1, p, -1, -1);
      RevealAroundBounded(s1, p, -1, -1);
      var r := RevealCell(s, p);
      assert r.revealed == s2.revealed;
      forall q | q in r.revealed && q !in s.revealed && q !in {p}
        ensures FedBy(s.board, s.revealed, r.revealed, q)
      {
        if q in Around(p) {
          assert p in r.revealed && p !in s.revealed && At(s.board, p) == Num(0);
        } else {
          assert FedBy(s.board, s1.revealed, s2.revealed, q);
          FedByWiden(s.board, s1.revealed, s2.revealed, s.revealed, r.revealed, q);
        }
      }
    }
  }

  /** The flood-fill loops from offset (dr, dc) on reveal only neighbours of p and
      neighbours of zero cells they revealed themselves. */
  lemma {:induction false} RevealAroundBounded(s: GameState, p: Pos, dr: int, dc: int)
    requires Setup(s.board) && InBounds(p) && At(s.board, p) == Num(0)
    requires -1 <= dr <= 2 && -1 <= dc <= 2
    ensures CascadeBounded(s.board, s.revealed, RevealAround(s, p, dr, dc).revealed, Around(p))
    decreases Unrevealed(s), 1, 2 - dr, 2 - dc, 2
  {
    if dr > 1 {
    } else if dc > 1 {
      RevealAroundBounded(s, p, dr + 1, -1);
    } else if dr == 0 && dc == 0 {
      RevealAroundBounded(s, p, dr, dc + 1);
    } else {
      VisitBounded(s, p, dr, dc);
    }
  }

  /** One loop step of the flood fill, then the rest of the loops. */
  lemma {:induction false} VisitBounded(s: GameState, p: Pos, dr: int, dc: int)
    requires Setup(s.board) && InBounds(p) && At(s.board, p) == Num(0)
    requires -1 <= dr <= 1 && -1 <= dc <= 1 && !(dr == 0 && dc == 0)
    ensures CascadeBounded(s.board, s.revealed, RevealAround(s, p, dr, dc).revealed, Around(p))
    decreases Unrevealed(s), 1, 2 - dr, 2 - dc, 1
  {
    var s' := Visit(s, p, dr, dc);
    var r := RevealAround(s', p, dr, dc + 1);
    assert RevealAround(s, p, dr, dc) == r;
    VisitCellBounded(s, p, dr, dc);
    RevealAroundBounded(s', p, dr, dc + 1);
    forall q | q in r.revealed && q !in s.revealed && q !in Around(p)
      ensures FedBy(s.board, s.revealed, r.revealed, q)
    {
      if q in s'.revealed {
        assert FedBy(s.board, s.revealed, s'.revealed, q);
        FedByWiden(s.board, s.revealed, s'.revealed, s.revealed, r.revealed, q);
      } else {
        assert FedBy(s.board, s'.revealed, r.revealed, q);
        FedByWiden(s.board, s'.revealed, r.revealed, s.revealed, r.revealed, q);
      }
    }
  }

  /** The loop step at (dr, dc) reveals only that neighbour of p and neighbours of
      zero cells it revealed itself; the neighbour is safe, so no mine hit reveals
      the mines. */
  lemma {:induction false} VisitCellBounded(s: GameState, p: Pos, dr: int, dc: int)
    requires Setup(s.board) && InBounds(p) && At(s.board, p) == Num(0)
    requires -1 <= dr <= 1 && -1 <= dc <= 1 && !(dr == 0 && dc == 0)
    ensures CascadeBounded(s.board, s.revealed, Visit(s, p, dr, dc).revealed, Around(p))
    decreases Unrevealed(s), 1, 2 - dr, 2 - dc, 0
  {
    var n := Pos(p.row + dr, p.col + dc);
    if InBounds(n) {
      VisitInBounds(s, p, dr, dc);
      ZeroNeighbourSafe(s.board, p, n);
      RevealCellBounded(s, n);
      assert n in Around(p);
    } else {
      assert Visit(s, p, dr, dc) == s;
    }
  }

  /** revealCell, on a cell that is not a mine, reveals nothing outside any set that
      holds the clicked cell and is closed through the zero cells it could still enter
      (neither revealed nor flagged), so nothing outside the clicked cell's open flood
      region. */
  lemma {:induction false} RevealCellWithin(s: GameState, p: Pos, c: set<Pos>)
    requires Setup(s.board) && InBounds(p) && At(s.board, p) != Mine
    requires p in c && ZeroClosed(s.board, s.revealed, s.flagged, c)
    ensures RevealCell(s, p).revealed - s.revealed <= c
    decreases Unrevealed(s), 0, 0, 0, 0
  {
    if !Blocked(s, p) && At(s.board, p) == Num(0) {
      var s1 := Mark(s, p);
      assert p in Unrevealed(s) - Unrevealed(s1);
      assert Around(p) <= c;
      assert ZeroClosed(s.board, s1.revealed, s1.flagged, c);
      RevealAroundWithin(s1, p, -1, -1, c);
      assert RevealCell(s, p).revealed == RevealAround(s1, p, -1, -1).revealed;
    }
  }

  /** The flood-fill loops around a zero cell stay inside any set that holds its
      neighbours and is closed through the zero cells they could still enter. */
  lemma {:induction false} RevealAroundWithin(s: GameState, p: Pos, dr: int, dc: int, c: set<Pos>)
    requires Setup(s.board) && InBounds(p) && At(s.board, p) == Num(0)
    requires Around(p) <= c && ZeroClosed(s.board, s.revealed, s.flagged, c)
    requires -1 <= dr <= 2 && -1 <= dc <= 2
    ensures RevealAround(s, p, dr, dc).revealed - s.revealed <= c
    decreases Unrevealed(s), 1, 2 - dr, 2 - dc, 2
  {
    if dr > 1 {
    } else if dc > 1 {
      RevealAroundWithin(s, p, dr + 1, -1, c);
    } else if dr == 0 && dc == 0 {
      RevealAroundWithin(s, p, dr, dc + 1, c);
    } else {
      var s' := Visit(s, p, dr, dc);
      var n := Pos(p.row + dr, p.col + dc);
      if InBounds(n) {
        assert n in Around(p);
        ZeroNeighbourSafe(s.board, p, n);
        RevealCellWithin(s, n, c);
        VisitInBounds(s, p, dr, dc);
      } else {
        assert s' == s;
      }
      assert ZeroClosed(s.board, s'.revealed, s'.flagged, c);
      RevealAroundWithin(s', p, dr, dc + 1, c);
      assert RevealAround(s, p, dr, dc) == RevealAround(s', p, dr, dc + 1);
    }
  }

  /** Revealing a safe cell, cascade included, never reveals a flagged cell and never
      changes a flag (a mine hit does reveal flagged mines). */
  lemma RevealNeverFlags(s: GameState, p: Pos)
    requires Setup(s.board) && Consistent(s) && Running(s) && InBounds(p) && At(s.board, p) != Mine
    ensures RevealCell(s, p).flagged == s.flagged
    ensures (RevealCell(s, p).revealed - s.revealed) !! s.flagged
  {
    RevealCellKeeps(s, p);
  }

  /** The invariant between player actions survives a reveal. */
  lemma RevealPreservesValid(s: GameState, p: Pos)
    requires Valid(s) && InBounds(p)
    ensures Valid(RevealCell(s, p))
  {
    RevealCellKeeps(s, p);
  }

  /** Revealing a cell twice is the same as revealing it once. */
  lemma RevealIdempotent(s: GameState, p: Pos)
    requires WellFormed(s.board) && InBounds(p)
    ensures RevealCell(RevealCell(s, p), p) == RevealCell(s, p)
  {
  }

  /** Hitting a mine while one safe cell is left: the counter drops to zero, so the
      win check after the mine branch fires as well, although the game is lost and a
      safe cell is still hidden. */
  lemma MineOnLastSafeCell(s: GameState, p: Pos)
    requires Valid(s) && InBounds(p) && !Blocked(s, p) && At(s.board, p) == Mine
    requires s.cellsToReveal == 1
    ensures var r := RevealCell(s, p);
      r.cellsToReveal == 0 && r.gameOver && Lost(r) && !(SafeSet(s.board) <= r.revealed)
  {
    RevealMineLost(s, p);
    RevealMineShowsAllMines(s, p);
    SafeCellHidden(s.board, RevealCell(s, p).revealed);
  }

  /** Fewer than SAFE_CELLS safe cells among `seen` leave a safe cell outside it. */
  lemma SafeCellHidden(b: Board, seen: set<Pos>)
    requires Setup(b) && |seen - MineSet(b)| < SAFE_CELLS
    ensures !(SafeSet(b) <= seen)
  {
    SafeSetSize(b);
    var safeSeen := seen - MineSet(b);
    var inside := SafeSet(b) * seen;
    assert inside <= safeSeen;
    assert safeSeen == inside + (safeSeen - inside);
    var outside := SafeSet(b) - inside;
    assert SafeSet(b) == inside + outside;
    assert |outside| > 0;
    var q :| q in outside;
    assert q !in seen;
  }

  /** A flagged mine is revealed when the game is lost, and keeps its flag: unlike the
      pygame version, a cell can end up both revealed and flagged. */
  lemma FlaggedMineRevealedOnLoss(s: GameState, p: Pos, q: Pos)
    requires Valid(s) && InBounds(p) && !Blocked(s, p) && At(s.board, p) == Mine
    requires q in s.flagged && q in MineSet(s.board)
    ensures q in RevealCell(s, p).revealed && q in RevealCell(s, p).flagged
  {
    RevealMineShowsAllMines(s, p);
  }

  // ---------------------------------------------------------------------------
  // flagCell

  /** The guard of flagCell. */
  predicate FlagBlocked(s: GameState, p: Pos) {
    p in s.revealed || s.gameOver
  }

  /** flagCell(r, c): flips the flag of an unrevealed cell while the game runs and
      moves flagCount by one in the same direction. */
  function FlagCell(s: GameState, p: Pos): (r: GameState)
    requires InBounds(p)
    ensures FlagBlocked(s, p) ==> r == s
    ensures !FlagBlocked(s, p) ==> (p in r.flagged <==> p !in s.flagged)
    ensures forall q :: q != p ==> (q in r.flagged <==> q in s.flagged)
    ensures r.flagCount - |r.flagged| == s.flagCount - |s.flagged|
    ensures r.(flagged := s.flagged, flagCount := s.flagCount) == s
  {
    if FlagBlocked(s, p) then s
    else
      var flagged := if p in s.flagged then s.flagged - {p} else s.flagged + {p};
      s.(flagged := flagged, flagCount := s.flagCount + if p in flagged then 1 else -1)
  }

  /** Flagging a cell twice restores the state. */
  lemma FlagCellTwice(s: GameState, p: Pos)
    requires InBounds(p)
    ensures FlagCell(FlagCell(s, p), p) == s
  {
  }

  /** The invariant between player actions survives flagCell: flagCount still counts
      the flags and no flagged cell is revealed while the game runs. */
  lemma FlagCellPreservesValid(s: GameState, p: Pos)
    requires Valid(s) && InBounds(p)
    ensures Valid(FlagCell(s, p))
  {
  }
}
