/** The pygame version's `Minesweeper` class: the game state as an immutable record
    and `reset_game`, `reveal_cell` (with its recursive flood fill) and `toggle_flag`
    as transitions. This version keeps two flags, `game_over` and `win`; a revealed
    mine ends the call before the win check. */
module PythonGame {
  import opened Grid
  import opened Mines
  import opened Cascade

  /** revealed/flagged hold the cells whose entry in the class's boolean grids is True. */
  datatype Minesweeper = Minesweeper(
    board: Board,
    revealed: set<Pos>,
    flagged: set<Pos>,
    gameOver: bool,
    win: bool,
    flagCount: int,
    cellsToReveal: int)

  // ---------------------------------------------------------------------------
  // Invariants.

  /** What holds of every state reached from a reset, including the states in the
      middle of a flood fill (besides the board being set up): the counter and the revealed set
      add up to SAFE_CELLS, no cell is both revealed and flagged, flagCount counts the
      flags, a won game revealed no mine and a lost game revealed exactly one. */
  ghost predicate Consistent(s: Minesweeper) {
    && WellFormed(s.board)
    && s.revealed <= AllPos() && s.flagged <= AllPos()
    && s.revealed !! s.flagged
    && s.flagCount == |s.flagged|
    && s.cellsToReveal + |s.revealed| == SAFE_CELLS
    && (s.win ==> s.gameOver && s.cellsToReveal == 0)
    && (!s.gameOver || s.win ==> s.revealed !! MineSet(s.board))
    && (s.gameOver && !s.win ==> |s.revealed * MineSet(s.board)| == 1)
  }

  /** The invariant between two player actions: in addition, a counter at zero means
      the game is over. */
  ghost predicate Valid(s: Minesweeper) {
    Setup(s.board) && Consistent(s) && (s.cellsToReveal == 0 ==> s.gameOver)
  }

  /** A won game has revealed every safe cell. */
  lemma WonRevealsAllSafe(s: Minesweeper)
    requires Setup(s.board) && Consistent(s) && s.win
    ensures s.revealed == SafeSet(s.board)
  {
    AllSafeCovered(s.board, s.revealed);
  }

  // ---------------------------------------------------------------------------
  // reset_game

  /** A new game: nothing revealed or flagged, both flags false, no flags counted, the
      counter at SAFE_CELLS, MINES_COUNT mines placed from the candidate stream and
      every safe cell numbered. None when the stream holds too few distinct cells. */
  method ResetGame(candidates: seq<Pos>) returns (r: Option<Minesweeper>)
    requires forall i :: 0 <= i < |candidates| ==> InBounds(candidates[i])
    ensures r.Some? <==> |Elems(candidates)| >= MINES_COUNT
    ensures r.Some? ==> r.value.revealed == {} && r.value.flagged == {}
    ensures r.Some? ==> !r.value.gameOver && !r.value.win
    ensures r.Some? ==> r.value.flagCount == 0 && r.value.cellsToReveal == SAFE_CELLS
    ensures r.Some? ==> Setup(r.value.board) && Valid(r.value)
    ensures r.Some? ==> exists n ::
      ShortestPrefix(candidates, {}, n) && MineSet(r.value.board) == Elems(candidates[..n])
  {
    var board := NewBoard(candidates);
    if board.None? {
      return None;
    }
    FreshGameValid(board.value);
    r := Some(Minesweeper(board.value, {}, {}, false, false, 0, ROWS * COLS - MINES_COUNT));
  }

  /** A fresh game on a set-up board satisfies the invariant. */
  lemma FreshGameValid(board: Board)
    requires Setup(board)
    ensures Valid(Minesweeper(board, {}, {}, false, false, 0, ROWS * COLS - MINES_COUNT))
  {
  }

  // ---------------------------------------------------------------------------
  // reveal_cell

  /** The guard at the top of reveal_cell: such a call changes nothing. */
  predicate Blocked(s: Minesweeper, p: Pos) {
    p in s.revealed || p in s.flagged || s.gameOver || s.win
  }

  /** The cells not yet revealed: every call that gets past the guard shrinks it. */
  ghost function Unrevealed(s: Minesweeper): set<Pos> {
    AllPos() - s.revealed
  }

  /** reveal_cell(row, col): reveal p and count it; a mine ends the game at once; a
      zero cell reveals its neighbours recursively; then the counter at zero wins. */
  function RevealCell(s: Minesweeper, p: Pos): (r: Minesweeper)
    requires WellFormed(s.board) && InBounds(p)
    ensures r.board == s.board && r.flagged == s.flagged && r.flagCount == s.flagCount
    ensures s.revealed <= r.revealed && r.revealed - s.revealed <= AllPos()
    ensures r.cellsToReveal + |r.revealed| == s.cellsToReveal + |s.revealed|
    ensures Blocked(s, p) ==> r == s
    ensures !Blocked(s, p) ==> p in r.revealed
    ensures !Blocked(s, p) && At(s.board, p) == Mine ==>
      r == s.(revealed := s.revealed + {p}, cellsToReveal := s.cellsToReveal - 1, gameOver := true)
    ensures !Blocked(s, p) && At(s.board, p).Num? && At(s.board, p).n != 0 ==> r.revealed == s.revealed + {p}
    decreases Unrevealed(s), 0, 0, 0, 0
  {
    if Blocked(s, p) then s
    else
      var s1 := Mark(s, p);
      assert p in Unrevealed(s) - Unrevealed(s1);
      if At(s.board, p) == Mine then s1.(gameOver := true)
      else if At(s.board, p) == Num(0) then CheckWin(RevealAround(s1, p, -1, -1))
      else CheckWin(s1)
  }

  /** revealed[row][col] = True; cells_to_reveal -= 1 */
  function Mark(s: Minesweeper, p: Pos): Minesweeper {
    s.(revealed := s.revealed + {p}, cellsToReveal := s.cellsToReveal - 1)
  }

  /** The win check that ends every reveal_cell call that did not hit a mine. */
  function CheckWin(s: Minesweeper): Minesweeper {
    if s.cellsToReveal == 0 then s.(win := true, gameOver := true) else s
  }

  /** The flood-fill loops of reveal_cell around p, from offset (dr, dc) on in the
      loops' order (dr, then dc, each over -1, 0, 1), skipping (0, 0) and offsets
      that leave the grid. */
  function RevealAround(s: Minesweeper, p: Pos, dr: int, dc: int): (r: Minesweeper)
    requires WellFormed(s.board) && InBounds(p)
    requires -1 <= dr <= 2 && -1 <= dc <= 2
    ensures r.board == s.board && r.flagged == s.flagged && r.flagCount == s.flagCount
    ensures s.revealed <= r.revealed && r.revealed - s.revealed <= AllPos()
    ensures r.cellsToReveal + |r.revealed| == s.cellsToReveal + |s.revealed|
    decreases Unrevealed(s), 1, 2 - dr, 2 - dc, 1
  {
    if dr > 1 then s
    else if dc > 1 then RevealAround(s, p, dr + 1, -1)
    else if dr == 0 && dc == 0 then RevealAround(s, p, dr, dc + 1)
    else RevealAround(Visit(s, p, dr, dc), p, dr, dc + 1)
  }

  /** The loop body at offset (dr, dc): reveal that neighbour if it is on the grid. */
  function Visit(s: Minesweeper, p: Pos, dr: int, dc: int): (r: Minesweeper)
    requires WellFormed(s.board) && InBounds(p)
    requires -1 <= dr <= 1 && -1 <= dc <= 1
    ensures r.board == s.board && r.flagged == s.flagged && r.flagCount == s.flagCount
    ensures s.revealed <= r.revealed && r.revealed - s.revealed <= AllPos()
    ensures r.cellsToReveal + |r.revealed| == s.cellsToReveal + |s.revealed|
    decreases Unrevealed(s), 1, 2 - dr, 2 - dc, 0
  {
    var n := Pos(p.row + dr, p.col + dc);
    if InBounds(n) then RevealCell(s, n) else s
  }

  /** Revealing a safe cell in a running game keeps the invariant. */
  lemma MarkSafeConsistent(s: Minesweeper, p: Pos)
    requires Setup(s.board) && Consistent(s) && InBounds(p) && !Blocked(s, p) && At(s.board, p) != Mine
    ensures Consistent(Mark(s, p)) && !Mark(s, p).gameOver
  {
  }

  /** Revealing a mine in a running game and ending it keeps the invariant. */
  lemma MarkMineConsistent(s: Minesweeper, p: Pos)
    requires Setup(s.board) && Consistent(s) && InBounds(p) && !Blocked(s, p) && At(s.board, p) == Mine
    ensures Consistent(Mark(s, p).(gameOver := true))
  {
    assert Mark(s, p).revealed * MineSet(s.board) == {p};
  }

  /** The win check keeps the invariant and, in a game not lost, ends it exactly when
      the counter is zero, by a win. */
  lemma CheckWinConsistent(s: Minesweeper)
    requires Setup(s.board) && Consistent(s) && (s.gameOver ==> s.win)
    ensures Consistent(CheckWin(s))
    ensures CheckWin(s).gameOver <==> CheckWin(s).cellsToReveal == 0
    ensures CheckWin(s).win == CheckWin(s).gameOver
  {
  }

  /** reveal_cell keeps the invariant; the cells it reveals besides p are never mines;
      a safe reveal ends the game exactly when the counter reaches zero, and then by a
      win. */
  lemma {:induction false} RevealCellKeeps(s: Minesweeper, p: Pos)
    requires Setup(s.board) && Consistent(s) && InBounds(p)
    ensures Consistent(RevealCell(s, p))
    ensures forall q :: q in RevealCell(s, p).revealed - s.revealed && q != p ==> q !in MineSet(s.board)
    ensures !Blocked(s, p) && At(s.board, p) != Mine ==>
      var r := RevealCell(s, p);
      (r.gameOver <==> r.cellsToReveal == 0) && r.win == r.gameOver
    decreases Unrevealed(s), 0, 0, 0, 0
  {
    if !Blocked(s, p) {
      var s1 := Mark(s, p);
      assert p in Unrevealed(s) - Unrevealed(s1);
      if At(s.board, p) == Mine {
        MarkMineConsistent(s, p);
      } else {
        MarkSafeConsistent(s, p);
        var s2 := if At(s.board, p) == Num(0) then RevealAround(s1, p, -1, -1) else s1;
        if At(s.board, p) == Num(0) {
          RevealAroundKeeps(s1, p, -1, -1);
        }
        CheckWinConsistent(s2);
        assert RevealCell(s, p) == CheckWin(s2);
      }
    }
  }

  /** The flood fill around a zero cell keeps the invariant, never loses and reveals
      no mine. */
  lemma {:induction false} RevealAroundKeeps(s: Minesweeper, p: Pos, dr: int, dc: int)
    requires Setup(s.board) && Consistent(s) && InBounds(p) && At(s.board, p) == Num(0)
    requires -1 <= dr <= 2 && -1 <= dc <= 2
    requires s.gameOver ==> s.win
    ensures var r := RevealAround(s, p, dr, dc); Consistent(r) && (r.gameOver ==> r.win)
    ensures RevealAround(s, p, dr, dc).revealed - s.revealed !! MineSet(s.board)
    decreases Unrevealed(s), 1, 2 - dr, 2 - dc, 2
  {
    if dr > 1 {
    } else if dc > 1 {
      RevealAroundKeeps(s, p, dr + 1, -1);
    } else if dr == 0 && dc == 0 {
      RevealAroundKeeps(s, p, dr, dc + 1);
    } else {
      VisitKeeps(s, p, dr, dc);
    }
  }

  /** One loop step of the flood fill, then the rest of the loops. */
  lemma {:induction false} VisitKeeps(s: Minesweeper, p: Pos, dr: int, dc: int)
    requires Setup(s.board) && Consistent(s) && InBounds(p) && At(s.board, p) == Num(0)
    requires -1 <= dr <= 1 && -1 <= dc <= 1 && !(dr == 0 && dc == 0)
    requires s.gameOver ==> s.win
    ensures var r := RevealAround(s, p, dr, dc); Consistent(r) && (r.gameOver ==> r.win)
    ensures RevealAround(s, p, dr, dc).revealed - s.revealed !! MineSet(s.board)
    decreases Unrevealed(s), 1, 2 - dr, 2 - dc, 1
  {
    var s' := Visit(s, p, dr, dc);
    VisitCellKeeps(s, p, dr, dc);
    RevealAroundKeeps(s', p, dr, dc + 1);
    assert RevealAround(s, p, dr, dc) == RevealAround(s', p, dr, dc + 1);
  }

  /** The loop step at (dr, dc) alone keeps the invariant, never loses and reveals no
      mine: the neighbours of a zero cell are safe. */
  lemma {:induction false} VisitCellKeeps(s: Minesweeper, p: Pos, dr: int, dc: int)
    requires Setup(s.board) && Consistent(s) && InBounds(p) && At(s.board, p) == Num(0)
    requires -1 <= dr <= 1 && -1 <= dc <= 1 && !(dr == 0 && dc == 0)
    requires s.gameOver ==> s.win
    ensures var s' := Visit(s, p, dr, dc); Consistent(s') && (s'.gameOver ==> s'.win)
    ensures Visit(s, p, dr, dc).revealed - s.revealed !! MineSet(s.board)
    decreases Unrevealed(s), 1, 2 - dr, 2 - dc, 0
  {
    var n := Pos(p.row + dr, p.col + dc);
    if InBounds(n) {
      VisitInBounds(s, p, dr, dc);
      ZeroNeighbourSafe(s.board, p, n);
      RevealCellKeeps(s, n);
    } else {
      assert Visit(s, p, dr, dc) == s;
    }
  }

  /** The cascade of reveal_cell is closed: every zero cell it reveals ends up with all
      its neighbours revealed or flagged. */
  lemma {:induction false} RevealCellCloses(s: Minesweeper, p: Pos)
    requires Setup(s.board) && Consistent(s) && InBounds(p)
    ensures CascadeClosed(s.board, s.revealed, RevealCell(s, p).revealed, s.flagged)
    decreases Unrevealed(s), 0, 0, 0, 0
  {
    if !Blocked(s, p) && At(s.board, p) == Num(0) {
      var s1 := Mark(s, p);
      assert p in Unrevealed(s) - Unrevealed(s1);
      MarkSafeConsistent(s, p);
      RevealAroundCloses(s1, p, -1, -1);
      var s2 := RevealAround(s1, p, -1, -1);
      assert Settled(s2.revealed, s.flagged, p) by {
        forall q | q in Around(p) ensures NotBefore(p, q, -1, -1) { }
      }
      assert RevealCell(s, p) == CheckWin(s2);
      CascadeClosedExtend(s.board, s.revealed, p, s2.revealed, s.flagged);
    } else if !Blocked(s, p) && At(s.board, p) != Mine {
      assert RevealCell(s, p) == CheckWin(Mark(s, p));
    }
  }

  /** The flood fill around a zero cell is closed and leaves every neighbour from
      offset (dr, dc) on revealed or flagged. */
  lemma {:induction false} RevealAroundCloses(s: Minesweeper, p: Pos, dr: int, dc: int)
    requires Setup(s.board) && Consistent(s) && InBounds(p) && At(s.board, p) == Num(0)
    requires -1 <= dr <= 2 && -1 <= dc <= 2
    requires s.gameOver ==> s.win
    ensures CascadeClosed(s.board, s.revealed, RevealAround(s, p, dr, dc).revealed, s.flagged)
    ensures var r := RevealAround(s, p, dr, dc);
      forall q :: q in Around(p) && NotBefore(p, q, dr, dc) ==> q in r.revealed + r.flagged
    decreases Unrevealed(s), 1, 2 - dr, 2 - dc, 2
  {
    if dr > 1 {
    } else if dc > 1 {
      RevealAroundCloses(s, p, dr + 1, -1);
    } else if dr == 0 && dc == 0 {
      RevealAroundCloses(s, p, dr, dc + 1);
    } else {
      VisitCloses(s, p, dr, dc);
    }
  }

  /** One loop step of the flood fill, then the rest of the loops. */
  lemma {:induction false} VisitCloses(s: Minesweeper, p: Pos, dr: int, dc: int)
    requires Setup(s.board) && Consistent(s) && InBounds(p) && At(s.board, p) == Num(0)
    requires -1 <= dr <= 1 && -1 <= dc <= 1 && !(dr == 0 && dc == 0)
    requires s.gameOver ==> s.win
    ensures CascadeClosed(s.board, s.revealed, RevealAround(s, p, dr, dc).revealed, s.flagged)
    ensures var r := RevealAround(s, p, dr, dc);
      forall q :: q in Around(p) && NotBefore(p, q, dr, dc) ==> q in r.revealed + r.flagged
    decreases Unrevealed(s), 1, 2 - dr, 2 - dc, 1
  {
    var s' := Visit(s, p, dr, dc);
    var r := RevealAround(s', p, dr, dc + 1);
    assert RevealAround(s, p, dr, dc) == r;
    VisitCellKeeps(s, p, dr, dc);
    RevealAroundCloses(s', p, dr, dc + 1);
    assert CascadeClosed(s.board, s.revealed, r.revealed, s.flagged) by {
      VisitCellCloses(s, p, dr, dc);
      CascadeClosedTrans(s.board, s.revealed, s'.revealed, r.revealed, s.flagged);
    }
    assert forall q :: q in Around(p) && NotBefore(p, q, dr, dc) ==> q in r.revealed + r.flagged by {
      VisitCovers(s, p, dr, dc);
      CoverStep(p, dr, dc, r.revealed + r.flagged);
    }
  }

  /** The loop step at (dr, dc) alone leaves a closed cascade. */
  lemma {:induction false} VisitCellCloses(s: Minesweeper, p: Pos, dr: int, dc: int)
    requires Setup(s.board) && Consistent(s) && InBounds(p)
    requires -1 <= dr <= 1 && -1 <= dc <= 1
    ensures CascadeClosed(s.board, s.revealed, Visit(s, p, dr, dc).revealed, s.flagged)
    decreases Unrevealed(s), 1, 2 - dr, 2 - dc, 0
  {
    var n := Pos(p.row + dr, p.col + dc);
    if InBounds(n) {
      VisitInBounds(s, p, dr, dc);
      RevealCellCloses(s, n);
    } else {
      assert Visit(s, p, dr, dc) == s;
    }
  }

  /** After the loop step at (dr, dc) that neighbour is revealed or flagged, even when
      an earlier step already won the game: a won game has revealed every safe cell,
      and the neighbours of a zero cell are safe. */
  lemma VisitCovers(s: Minesweeper, p: Pos, dr: int, dc: int)
    requires Setup(s.board) && Consistent(s) && InBounds(p) && At(s.board, p) == Num(0)
    requires -1 <= dr <= 1 && -1 <= dc <= 1 && !(dr == 0 && dc == 0)
    requires s.gameOver ==> s.win
    ensures var n := Pos(p.row + dr, p.col + dc);
      InBounds(n) ==> n in Visit(s, p, dr, dc).revealed + Visit(s, p, dr, dc).flagged
  {
    var n := Pos(p.row + dr, p.col + dc);
    if InBounds(n) {
      if s.gameOver || s.win {
        WonNeighbourRevealed(s, p, n);
      } else if n !in s.revealed + s.flagged {
        VisitReveals(s, p, dr, dc);
      }
    }
  }

  /** A loop step whose neighbour is on the grid and not blocked reveals it. */
  lemma VisitReveals(s: Minesweeper, p: Pos, dr: int, dc: int)
    requires WellFormed(s.board) && InBounds(p) && -1 <= dr <= 1 && -1 <= dc <= 1
    requires InBounds(Pos(p.row + dr, p.col + dc)) && !Blocked(s, Pos(p.row + dr, p.col + dc))
    ensures Pos(p.row + dr, p.col + dc) in Visit(s, p, dr, dc).revealed
  {
    VisitInBounds(s, p, dr, dc);
  }

  /** The loop step at an in-bounds offset is a reveal_cell call on that neighbour. */
  lemma VisitInBounds(s: Minesweeper, p: Pos, dr: int, dc: int)
    requires WellFormed(s.board) && InBounds(p) && -1 <= dr <= 1 && -1 <= dc <= 1
    requires InBounds(Pos(p.row + dr, p.col + dc))
    ensures Visit(s, p, dr, dc) == RevealCell(s, Pos(p.row + dr, p.col + dc))
  {
  }

  /** In a won game the neighbours of a zero cell are revealed already. */
  lemma WonNeighbourRevealed(s: Minesweeper, p: Pos, n: Pos)
    requires Setup(s.board) && Consistent(s) && s.win && InBounds(p) && At(s.board, p) == Num(0)
    requires InBounds(n) && Adjacent(p, n)
    ensures n in s.revealed
  {
    ZeroNeighbourSafe(s.board, p, n);
    WonRevealsAllSafe(s);
  }

  // ---------------------------------------------------------------------------
  // What a cascade may reveal.

  /** reveal_cell reveals the clicked cell and, besides it, only neighbours of zero
      cells it revealed itself: the cascade spreads from zero cells alone. */
  lemma {:induction false} RevealCellBounded(s: Minesweeper, p: Pos)
    requires WellFormed(s.board) && InBounds(p)
    ensures CascadeBounded(s.board, s.revealed, RevealCell(s, p).revealed, {p})
    decreases Unrevealed(s), 0, 0, 0, 0
  {
    if !Blocked(s, p) && At(s.board, p) == Num(0) {
      var s1 := Mark(s, p);
      assert p in Unrevealed(s) - Unrevealed(s1);
      var s2 := RevealAround(s1, p, -1, -1);
      RevealAroundBounded(s1, p, -1, -1);
      var r := RevealCell(s, p);
      assert r.revealed == s2.revealed;
      forall q | q in r.revealed && q !in s.revealed && q !in {p}
        ensures FedBy(s.board, s.revealed, r.revealed, q)
      {
        if q in Around(p) {
          assert p in r.revealed && p !in s.revealed && At(s.board, p) == Num(0);
        } else {
          assert FedBy(s.board, s1.revealed, s2.revealed, q);
          FedByWiden(s.board, s1.revealed, s2.revealed, s.revealed, r.revealed, q);
        }
      }
    }
  }

  /** The flood-fill loops from offset (dr, dc) on reveal only neighbours of p and
      neighbours of zero cells they revealed themselves. */
  lemma {:induction false} RevealAroundBounded(s: Minesweeper, p: Pos, dr: int, dc: int)
    requires WellFormed(s.board) && InBounds(p)
    requires -1 <= dr <= 2 && -1 <= dc <= 2
    ensures CascadeBounded(s.board, s.revealed, RevealAround(s, p, dr, dc).revealed, Around(p))
    decreases Unrevealed(s), 1, 2 - dr, 2 - dc, 2
  {
    if dr > 1 {
    } else if dc > 1 {
      RevealAroundBounded(s, p, dr + 1, -1);
    } else if dr == 0 && dc == 0 {
      RevealAroundBounded(s, p, dr, dc + 1);
    } else {
      VisitBounded(s, p, dr, dc);
    }
  }

  /** One loop step of the flood fill, then the rest of the loops. */
  lemma {:induction false} VisitBounded(s: Minesweeper, p: Pos, dr: int, dc: int)
    requires WellFormed(s.board) && InBounds(p)
    requires -1 <= dr <= 1 && -1 <= dc <= 1 && !(dr == 0 && dc == 0)
    ensures CascadeBounded(s.board, s.revealed, RevealAround(s, p, dr, dc).revealed, Around(p))
    decreases Unrevealed(s), 1, 2 - dr, 2 - dc, 1
  {
    var s' := Visit(s, p, dr, dc);
    var r := RevealAround(s', p, dr, dc + 1);
    assert RevealAround(s, p, dr, dc) == r;
    VisitCellBounded(s, p, dr, dc);
    RevealAroundBounded(s', p, dr, dc + 1);
    forall q | q in r.revealed && q !in s.revealed && q !in Around(p)
      ensures FedBy(s.board, s.revealed, r.revealed, q)
    {
      if q in s'.revealed {
        assert FedBy(s.board, s.revealed, s'.revealed, q);
        FedByWiden(s.board, s.revealed, s'.revealed, s.revealed, r.revealed, q);
      } else {
        assert FedBy(s.board, s'.revealed, r.revealed, q);
        FedByWiden(s.board, s'.revealed, r.revealed, s.revealed, r.revealed, q);
      }
    }
  }

  /** The loop step at (dr, dc) reveals only that neighbour of p and neighbours of
      zero cells it revealed itself. */
  lemma {:induction false} VisitCellBounded(s: Minesweeper, p: Pos, dr: int, dc: int)
    requires WellFormed(s.board) && InBounds(p)
    requires -1 <= dr <= 1 && -1 <= dc <= 1 && !(dr == 0 && dc == 0)
    ensures CascadeBounded(s.board, s.revealed, Visit(s, p, dr, dc).revealed, Around(p))
    decreases Unrevealed(s), 1, 2 - dr, 2 - dc, 0
  {
    var n := Pos(p.row + dr, p.col + dc);
    if InBounds(n) {
      VisitInBounds(s, p, dr, dc);
      RevealCellBounded(s, n);
      assert n in Around(p);
    } else {
      assert Visit(s, p, dr, dc) == s;
    }
  }

  /** reveal_cell reveals nothing outside any set that holds the clicked cell and is
      closed through the zero cells it could still enter (neither revealed nor
      flagged), so nothing outside the clicked cell's open flood region. */
  lemma {:induction false} RevealCellWithin(s: Minesweeper, p: Pos, c: set<Pos>)
    requires WellFormed(s.board) && InBounds(p) && p in c && ZeroClosed(s.board, s.revealed, s.flagged, c)
    ensures RevealCell(s, p).revealed - s.revealed <= c
    decreases Unrevealed(s), 0, 0, 0, 0
  {
    if !Blocked(s, p) && At(s.board, p) == Num(0) {
      var s1 := Mark(s, p);
      assert p in Unrevealed(s) - Unrevealed(s1);
      assert Around(p) <= c;
      assert ZeroClosed(s.board, s1.revealed, s1.flagged, c);
      RevealAroundWithin(s1, p, -1, -1, c);
      assert RevealCell(s, p).revealed == RevealAround(s1, p, -1, -1).revealed;
    }
  }

  /** The flood-fill loops around p stay inside any set that holds p's neighbours and
      is closed through the zero cells they could still enter. */
  lemma {:induction false} RevealAroundWithin(s: Minesweeper, p: Pos, dr: int, dc: int, c: set<Pos>)
    requires WellFormed(s.board) && InBounds(p) && Around(p) <= c && ZeroClosed(s.board, s.revealed, s.flagged, c)
    requires -1 <= dr <= 2 && -1 <= dc <= 2
    ensures RevealAround(s, p, dr, dc).revealed - s.revealed <= c
    decreases Unrevealed(s), 1, 2 - dr, 2 - dc, 2
  {
    if dr > 1 {
    } else if dc > 1 {
      RevealAroundWithin(s, p, dr + 1, -1, c);
    } else if dr == 0 && dc == 0 {
      RevealAroundWithin(s, p, dr, dc + 1, c);
    } else {
      var s' := Visit(s, p, dr, dc);
      var n := Pos(p.row + dr, p.col + dc);
      if InBounds(n) {
        assert n in Around(p);
        RevealCellWithin(s, n, c);
        VisitInBounds(s, p, dr, dc);
      } else {
        assert s' == s;
      }
      assert ZeroClosed(s.board, s'.revealed, s'.flagged, c);
      RevealAroundWithin(s', p, dr, dc + 1, c);
      assert RevealAround(s, p, dr, dc) == RevealAround(s', p, dr, dc + 1);
    }
  }

  /** A reveal, cascade included, never reveals a flagged cell and never changes a
      flag. */
  lemma RevealNeverFlags(s: Minesweeper, p: Pos)
    requires Setup(s.board) && Consistent(s) && InBounds(p)
    ensures RevealCell(s, p).flagged == s.flagged
    ensures (RevealCell(s, p).revealed - s.revealed) !! s.flagged
  {
    RevealCellKeeps(s, p);
  }

  /** The invariant between player actions survives a reveal. */
  lemma RevealPreservesValid(s: Minesweeper, p: Pos)
    requires Valid(s) && InBounds(p)
    ensures Valid(RevealCell(s, p))
  {
    RevealCellKeeps(s, p);
  }

  /** Revealing a cell twice is the same as revealing it once. */
  lemma RevealIdempotent(s: Minesweeper, p: Pos)
    requires WellFormed(s.board) && InBounds(p)
    ensures RevealCell(RevealCell(s, p), p) == RevealCell(s, p)
  {
  }

  /** Hitting a mine while one safe cell is left: the counter drops to zero, yet the
      game is lost, not won, since the call returns before the win check. */
  lemma MineOnLastSafeCell(s: Minesweeper, p: Pos)
    requires Valid(s) && InBounds(p) && !Blocked(s, p) && At(s.board, p) == Mine
    requires s.cellsToReveal == 1
    ensures var r := RevealCell(s, p); r.cellsToReveal == 0 && r.gameOver && !r.win
  {
  }

  // ---------------------------------------------------------------------------
  // toggle_flag

  /** The guard of toggle_flag. */
  predicate FlagBlocked(s: Minesweeper, p: Pos) {
    p in s.revealed || s.gameOver || s.win
  }

  /** toggle_flag(row, col): flips the flag of an unrevealed cell while the game runs
      and moves flagCount by one in the same direction. */
  function ToggleFlag(s: Minesweeper, p: Pos): (r: Minesweeper)
    requires InBounds(p)
    ensures FlagBlocked(s, p) ==> r == s
    ensures !FlagBlocked(s, p) ==> (p in r.flagged <==> p !in s.flagged)
    ensures forall q :: q != p ==> (q in r.flagged <==> q in s.flagged)
    ensures r.flagCount - |r.flagged| == s.flagCount - |s.flagged|
    ensures r.(flagged := s.flagged, flagCount := s.flagCount) == s
  {
    if FlagBlocked(s, p) then s
    else
      var flagged := if p in s.flagged then s.flagged - {p} else s.flagged + {p};
      s.(flagged := flagged, flagCount := s.flagCount + if p in flagged then 1 else -1)
  }

  /** Toggling a flag twice restores the state. */
  lemma ToggleFlagTwice(s: Minesweeper, p: Pos)
    requires InBounds(p)
    ensures ToggleFlag(ToggleFlag(s, p), p) == s
  {
  }

  /** The invariant between player actions survives a flag toggle: flagCount still
      counts the flags and no flagged cell is revealed. */
  lemma ToggleFlagPreservesValid(s: Minesweeper, p: Pos)
    requires Valid(s) && InBounds(p)
    ensures Valid(ToggleFlag(s, p))
  {
  }
}
