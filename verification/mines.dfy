/** The mine field shared by both versions of the game: cells, the board, the set
    of mines, the neighbour count, and the two set-up steps (placing the mines from a
    stream of candidate coordinates and writing the counts into the safe cells). */
module Mines {
  import opened Grid

  datatype Option<T> = None | Some(value: T)

  /** A board cell holds either the mine marker 'M' or the number of adjacent mines. */
  datatype Cell = Mine | Num(n: nat)

  /** board[row][col], a ROWS x COLS list of lists. */
  type Board = seq<seq<Cell>>

  predicate WellFormed(b: Board) {
    |b| == ROWS && forall r :: 0 <= r < ROWS ==> |b[r]| == COLS
  }

  function At(b: Board, p: Pos): Cell
    requires WellFormed(b) && InBounds(p)
  {
    b[p.row][p.col]
  }

  /** board[p.row][p.col] = v */
  function Put(b: Board, p: Pos, v: Cell): (b': Board)
    requires WellFormed(b) && InBounds(p)
    ensures WellFormed(b')
    ensures forall q {:trigger At(b', q)} :: InBounds(q) ==> At(b', q) == if q == p then v else At(b, q)
  {
    b[p.row := b[p.row][p.col := v]]
  }

  /** The all-zero board a new game starts from. */
  function EmptyBoard(): (b: Board)
    ensures WellFormed(b)
    ensures forall p {:trigger At(b, p)} :: InBounds(p) ==> At(b, p) == Num(0)
  {
    seq(ROWS, _ => seq(COLS, _ => Num(0)))
  }

  /** The cells holding a mine. */
  function MineSet(b: Board): (m: set<Pos>)
    requires WellFormed(b)
    ensures forall p {:trigger p in m} :: p in m <==> InBounds(p) && At(b, p) == Mine
    ensures m <= AllPos()
  {
    set p | p in AllPos() && At(b, p) == Mine
  }

  /** The cells a player has to reveal to win. */
  function SafeSet(b: Board): (s: set<Pos>)
    requires WellFormed(b)
    ensures forall p {:trigger p in s} :: p in s <==> InBounds(p) && At(b, p) != Mine
  {
    AllPos() - MineSet(b)
  }

  /** With MINES_COUNT mines on the board, exactly SAFE_CELLS cells are safe. */
  lemma SafeSetSize(b: Board)
    requires WellFormed(b) && |MineSet(b)| == MINES_COUNT
    ensures |SafeSet(b)| == SAFE_CELLS
  {
    AllPosSize();
    assert MineSet(b) <= AllPos();
  }

  /** A set of cells with as many members as the safe cells, none of them a mine,
      is the set of all safe cells. */
  lemma AllSafeCovered(b: Board, cells: set<Pos>)
    requires WellFormed(b) && |MineSet(b)| == MINES_COUNT
    requires cells <= AllPos() && cells !! MineSet(b) && |cells| == SAFE_CELLS
    ensures cells == SafeSet(b)
  {
    SafeSetSize(b);
    assert cells <= SafeSet(b);
    assert |SafeSet(b) - cells| == |SafeSet(b)| - |cells| == 0;
  }

  function Elems(s: seq<Pos>): set<Pos> {
    set p | p in s
  }

  // ---------------------------------------------------------------------------
  // Adjacency count: the loops over dr in [-1, 0, 1] and dc in [-1, 0, 1],
  // skipping (0, 0) and offsets that leave the grid.

  /** 1 when offset (dr, dc) from p is a real neighbour inside the grid holding a mine. */
  function Hit(m: set<Pos>, p: Pos, dr: int, dc: int): nat {
    var q := Pos(p.row + dr, p.col + dc);
    if dr == 0 && dc == 0 then 0
    else if InBounds(q) && q in m then 1
    else 0
  }

  /** Mines at offsets (dr, -1) .. (dr, hi - 1): the inner loop after hi + 1 steps. */
  function CountRow(m: set<Pos>, p: Pos, dr: int, hi: int): nat
    requires -1 <= hi <= 2
    decreases hi + 1
  {
    if hi == -1 then 0 else CountRow(m, p, dr, hi - 1) + Hit(m, p, dr, hi - 1)
  }

  /** Mines in offset rows -1 .. hi - 1: the outer loop after hi + 1 steps. */
  function CountRows(m: set<Pos>, p: Pos, hi: int): nat
    requires -1 <= hi <= 2
    decreases hi + 1
  {
    if hi == -1 then 0 else CountRows(m, p, hi - 1) + CountRow(m, p, hi - 1, 2)
  }

  /** The number _calculate_numbers and initBoard write into a safe cell p, given the mine set m. */
  function AdjacentMines(m: set<Pos>, p: Pos): (k: nat)
    ensures k <= 8
  {
    CountRows(m, p, 2)
  }

  /** The neighbours at offsets (dr, -1) .. (dr, hi - 1) that hold a mine. */
  ghost function RowHits(m: set<Pos>, p: Pos, dr: int, hi: int): (hits: set<Pos>)
    requires -1 <= hi <= 2
    ensures forall q {:trigger q in hits} :: q in hits <==>
      q.row == p.row + dr && -1 <= q.col - p.col < hi && q != p && InBounds(q) && q in m
    decreases hi + 1
  {
    if hi == -1 then {}
    else RowHits(m, p, dr, hi - 1) + if Hit(m, p, dr, hi - 1) == 1 then {Pos(p.row + dr, p.col + hi - 1)} else {}
  }

  /** The neighbours in offset rows -1 .. hi - 1 that hold a mine. */
  ghost function RowsHits(m: set<Pos>, p: Pos, hi: int): (hits: set<Pos>)
    requires -1 <= hi <= 2
    ensures forall q {:trigger q in hits} :: q in hits <==>
      -1 <= q.row - p.row < hi && -1 <= q.col - p.col < 2 && q != p && InBounds(q) && q in m
    decreases hi + 1
  {
    if hi == -1 then {} else RowsHits(m, p, hi - 1) + RowHits(m, p, hi - 1, 2)
  }

  lemma {:induction false} RowHitsSize(m: set<Pos>, p: Pos, dr: int, hi: int)
    requires -1 <= hi <= 2
    ensures |RowHits(m, p, dr, hi)| == CountRow(m, p, dr, hi)
    decreases hi + 1
  {
    if hi > -1 {
      RowHitsSize(m, p, dr, hi - 1);
    }
  }

  lemma {:induction false} RowsHitsSize(m: set<Pos>, p: Pos, hi: int)
    requires -1 <= hi <= 2
    ensures |RowsHits(m, p, hi)| == CountRows(m, p, hi)
    decreases hi + 1
  {
    if hi > -1 {
      assert |RowsHits(m, p, hi - 1)| == CountRows(m, p, hi - 1) by {
        RowsHitsSize(m, p, hi - 1);
      }
      assert |RowHits(m, p, hi - 1, 2)| == CountRow(m, p, hi - 1, 2) by {
        RowHitsSize(m, p, hi - 1, 2);
      }
      RowsHitsStep(m, p, hi);
    }
  }

  /** Adding offset row hi - 1 adds its hits to the count. */
  lemma RowsHitsStep(m: set<Pos>, p: Pos, hi: int)
    requires 0 <= hi <= 2
    ensures |RowsHits(m, p, hi)| == |RowsHits(m, p, hi - 1)| + |RowHits(m, p, hi - 1, 2)|
  {
    var earlier, last := RowsHits(m, p, hi - 1), RowHits(m, p, hi - 1, 2);
    forall q | q in earlier
      ensures q !in last
    {
    }
    assert earlier * last == {};
  }

  /** The loop-computed count equals the number of mines among the in-bounds
      neighbours of p: an independent, set-based definition of the same number. */
  lemma AdjacentMinesCountsAround(m: set<Pos>, p: Pos)
    ensures AdjacentMines(m, p) == |Around(p) * m|
  {
    RowsHitsSize(m, p, 2);
    RowsHitsAround(m, p);
  }

  /** All three offset rows together hit exactly the mines around p. */
  lemma RowsHitsAround(m: set<Pos>, p: Pos)
    ensures RowsHits(m, p, 2) == Around(p) * m
  {
    var hits := RowsHits(m, p, 2);
    forall q
      ensures q in hits <==> q in Around(p) * m
    {
    }
  }

  /** The count is 0 exactly when no mine is around p. */
  lemma ZeroMeansNoMineAround(m: set<Pos>, p: Pos)
    ensures AdjacentMines(m, p) == 0 <==> Around(p) !! m
  {
    AdjacentMinesCountsAround(m, p);
    var both := Around(p) * m;
    if Around(p) !! m {
      assert both == {};
    } else {
      var q :| q in Around(p) && q in m;
      assert q in both;
    }
  }

  /** Cell p holds the number of mines among its in-bounds neighbours. */
  ghost predicate Numbered(b: Board, p: Pos)
    requires WellFormed(b) && InBounds(p)
  {
    At(b, p) == Num(|Around(p) * MineSet(b)|)
  }

  /** Every safe cell is numbered. */
  ghost predicate NumbersCorrect(b: Board)
    requires WellFormed(b)
  {
    forall p {:trigger Numbered(b, p)} :: p in SafeSet(b) ==> Numbered(b, p)
  }

  /** On a correctly numbered board a cell showing 0 has no mine around it. */
  lemma ZeroCellHasNoMineAround(b: Board, p: Pos)
    requires WellFormed(b) && NumbersCorrect(b) && InBounds(p) && At(b, p) == Num(0)
    ensures Around(p) !! MineSet(b)
  {
    assert Numbered(b, p);
    var both := Around(p) * MineSet(b);
    assert both == {};
    forall q | q in Around(p)
      ensures q !in MineSet(b)
    {
      assert q !in both;
    }
  }

  /** On a correctly numbered board the neighbours of a cell showing 0 are safe. */
  lemma ZeroNeighbourSafe(b: Board, p: Pos, n: Pos)
    requires WellFormed(b) && NumbersCorrect(b) && InBounds(p) && At(b, p) == Num(0)
    requires InBounds(n) && Adjacent(p, n)
    ensures n in SafeSet(b) && n !in MineSet(b)
  {
    ZeroCellHasNoMineAround(b, p);
    assert n in Around(p);
  }

  /** A board as the set-up leaves it: MINES_COUNT mines and correct numbers. */
  ghost predicate Setup(b: Board) {
    WellFormed(b) && |MineSet(b)| == MINES_COUNT && NumbersCorrect(b)
  }

  // ---------------------------------------------------------------------------
  // Set-up steps.

  /** Rejection sampling of mine positions, with the random draws supplied as a stream
      of in-range candidates: a candidate that already holds a mine is skipped and not
      counted; the loop stops once MINES_COUNT mines have been added. None when the
      stream runs out first (random.randint and Math.random would keep drawing). The mines added are the
      new cells of the shortest candidate prefix holding MINES_COUNT of them. */
  method PlaceMines(b: Board, candidates: seq<Pos>) returns (r: Option<Board>)
    requires WellFormed(b)
    requires forall i :: 0 <= i < |candidates| ==> InBounds(candidates[i])
    ensures r.Some? <==> |Elems(candidates) - MineSet(b)| >= MINES_COUNT
    ensures r.Some? ==> WellFormed(r.value) && |MineSet(r.value)| == |MineSet(b)| + MINES_COUNT
    ensures r.Some? ==> exists n ::
      ShortestPrefix(candidates, MineSet(b), n) && MineSet(r.value) == MineSet(b) + Elems(candidates[..n])
    ensures r.Some? ==> forall p :: InBounds(p) && At(r.value, p) != Mine ==> At(r.value, p) == At(b, p)
  {
    ghost var m0 := MineSet(b);
    var board := b;
    var placed := 0;
    var i := 0;
    while placed < MINES_COUNT
      invariant 0 <= i <= |candidates|
      invariant WellFormed(board)
      invariant MineSet(board) == m0 + Elems(candidates[..i])
      invariant placed == |Elems(candidates[..i]) - m0| <= MINES_COUNT
      invariant i == 0 || |Elems(candidates[..i - 1]) - m0| < MINES_COUNT
      invariant forall p {:trigger At(board, p)} :: InBounds(p) && At(board, p) != Mine ==> At(board, p) == At(b, p)
      decreases |candidates| - i
    {
      if i == |candidates| {
        assert candidates[..i] == candidates;
        return None;
      }
      var p := candidates[i];
      ElemsGrow(candidates, i, m0);
      var added;
      board, added := PlaceCandidate(board, p);
      if added {
        placed := placed + 1;
      }
      assert MineSet(board) == m0 + Elems(candidates[..i + 1]) by {
        SeenGrows(m0, Elems(candidates[..i]), p);
      }
      i := i + 1;
    }
    ElemsPrefix(candidates, i, m0);
    assert ShortestPrefix(candidates, m0, i);
    UnionSize(m0, Elems(candidates[..i]));
    r := Some(board);
  }

  /** The board of a new game, as reset_game and initBoard build it: the all-zero
      board, MINES_COUNT mines from the candidate stream, then the numbers. None when
      the stream holds too few distinct cells. */
  method NewBoard(candidates: seq<Pos>) returns (r: Option<Board>)
    requires forall i :: 0 <= i < |candidates| ==> InBounds(candidates[i])
    ensures r.Some? <==> |Elems(candidates)| >= MINES_COUNT
    ensures r.Some? ==> Setup(r.value)
    ensures r.Some? ==> exists n ::
      ShortestPrefix(candidates, {}, n) && MineSet(r.value) == Elems(candidates[..n])
  {
    var empty := EmptyBoard();
    assert MineSet(empty) == {} by {
      assert forall p :: p !in MineSet(empty);
    }
    assert Elems(candidates) - {} == Elems(candidates);
    var placed := PlaceMines(empty, candidates);
    if placed.None? {
      return None;
    }
    ghost var n :| ShortestPrefix(candidates, MineSet(empty), n) &&
      MineSet(placed.value) == MineSet(empty) + Elems(candidates[..n]);
    var board := CalculateNumbers(placed.value);
    assert ShortestPrefix(candidates, {}, n) && MineSet(board) == Elems(candidates[..n]) by {
      assert MineSet(empty) == {};
    }
    r := Some(board);
  }

  /** One draw of the placement loop: a mine goes into p unless p holds one already;
      added tells whether a mine was placed. */
  method PlaceCandidate(board: Board, p: Pos) returns (r: Board, added: bool)
    requires WellFormed(board) && InBounds(p)
    ensures WellFormed(r) && MineSet(r) == MineSet(board) + {p}
    ensures added <==> p !in MineSet(board)
    ensures forall q {:trigger At(r, q)} :: InBounds(q) && At(r, q) != Mine ==> At(r, q) == At(board, q)
  {
    r, added := board, false;
    if board[p.row][p.col] != Mine {
      PutMineAddsMine(board, p);
      r, added := Put(board, p, Mine), true;
    } else {
      assert p in MineSet(board);
    }
  }

  /** candidates[..n] stops no later than the first prefix holding MINES_COUNT cells
      outside m: no strictly shorter prefix reaches that many (they only grow with
      the prefix). */
  ghost predicate ShortestPrefix(candidates: seq<Pos>, m: set<Pos>, n: int) {
    0 <= n <= |candidates| && (n == 0 || |Elems(candidates[..n - 1]) - m| < MINES_COUNT)
  }

  /** One more candidate adds its cell to the cells seen, and one new cell outside m
      unless it was seen or in m already. */
  lemma ElemsGrow(s: seq<Pos>, i: int, m: set<Pos>)
    requires 0 <= i < |s|
    ensures Elems(s[..i + 1]) == Elems(s[..i]) + {s[i]}
    ensures |Elems(s[..i + 1]) - m| == |Elems(s[..i]) - m| + if s[i] in m + Elems(s[..i]) then 0 else 1
  {
    assert s[..i + 1] == s[..i] + [s[i]];
    var before := Elems(s[..i]) - m;
    if s[i] !in m + Elems(s[..i]) {
      assert Elems(s[..i + 1]) - m == before + {s[i]};
    } else {
      assert Elems(s[..i + 1]) - m == before;
    }
  }

  /** A prefix holds no more distinct cells outside m than the whole stream. */
  lemma ElemsPrefix(s: seq<Pos>, i: int, m: set<Pos>)
    requires 0 <= i <= |s|
    ensures Elems(s[..i]) <= Elems(s) && |Elems(s[..i]) - m| <= |Elems(s) - m|
  {
    var prefix := Elems(s[..i]);
    forall q | q in prefix
      ensures q in Elems(s)
    {
      var k :| 0 <= k < i && s[..i][k] == q;
      assert s[k] == q;
    }
    var inner, outer := prefix - m, Elems(s) - m;
    assert outer == inner + (outer - inner);
  }

  /** Seeing one more cell adds it to the mines seen. */
  lemma SeenGrows(m: set<Pos>, e: set<Pos>, p: Pos)
    ensures m + e + {p} == m + (e + {p})
  {
  }

  /** The union with e adds to a the cells of e outside a. */
  lemma UnionSize(a: set<Pos>, e: set<Pos>)
    ensures |a + e| == |a| + |e - a|
  {
    assert a + e == a + (e - a);
  }

  /** Putting a mine into a cell without one adds exactly that cell to the mines. */
  lemma PutMineAddsMine(b: Board, p: Pos)
    requires WellFormed(b) && InBounds(p) && At(b, p) != Mine
    ensures MineSet(Put(b, p, Mine)) == MineSet(b) + {p}
  {
    var after := Put(b, p, Mine);
    forall q
      ensures q in MineSet(after) <==> q in MineSet(b) + {p}
    {
    }
  }

  /** Writing a number into a safe cell leaves the mines where they are. */
  lemma PutNumberKeepsMines(b: Board, p: Pos, k: nat)
    requires WellFormed(b) && InBounds(p) && At(b, p) != Mine
    ensures MineSet(Put(b, p, Num(k))) == MineSet(b)
  {
    assert forall q :: q in MineSet(Put(b, p, Num(k))) <==> q in MineSet(b);
  }

  /** The dr/dc loops for one cell: counts the mines among the in-bounds neighbours
      of (row, col), skipping the cell itself. */
  method CountNeighbourMines(board: Board, row: int, col: int) returns (count: nat)
    requires WellFormed(board) && InBounds(Pos(row, col))
    ensures count == AdjacentMines(MineSet(board), Pos(row, col))
  {
    ghost var m, p := MineSet(board), Pos(row, col);
    count := 0;
    var dr := -1;
    while dr <= 1
      invariant -1 <= dr <= 2
      invariant count == CountRows(m, p, dr)
    {
      var k := CountOffsetRow(board, row, col, dr);
      count := count + k;
      dr := dr + 1;
    }
    assert dr == 2;
  }

  /** The inner dc loop for offset row dr. */
  method CountOffsetRow(board: Board, row: int, col: int, dr: int) returns (count: nat)
    requires WellFormed(board)
    ensures count == CountRow(MineSet(board), Pos(row, col), dr, 2)
  {
    ghost var m, p := MineSet(board), Pos(row, col);
    count := 0;
    var dc := -1;
    while dc <= 1
      invariant -1 <= dc <= 2
      invariant count == CountRow(m, p, dr, dc)
    {
      if !(dr == 0 && dc == 0) {
        var nr, nc := row + dr, col + dc;
        if 0 <= nr < ROWS && 0 <= nc < COLS && board[nr][nc] == Mine {
          assert Pos(nr, nc) in m;
          count := count + 1;
        } else {
          assert Pos(nr, nc) !in m;
        }
      }
      dc := dc + 1;
    }
    assert dc == 2;
  }

  /** One pass of the column loop: writes the count into every safe cell of the row. */
  method NumberRow(board: Board, row: int) returns (r: Board)
    requires WellFormed(board) && 0 <= row < ROWS
    ensures WellFormed(r) && MineSet(r) == MineSet(board)
    ensures forall p {:trigger At(r, p)} :: InBounds(p) && p.row == row && p !in MineSet(board) ==>
      At(r, p) == Num(AdjacentMines(MineSet(board), p))
    ensures forall p {:trigger At(r, p)} :: InBounds(p) && p.row != row ==> At(r, p) == At(board, p)
  {
    ghost var m := MineSet(board);
    r := board;
    var col := 0;
    while col < COLS
      invariant 0 <= col <= COLS
      invariant WellFormed(r) && MineSet(r) == m
      invariant forall p {:trigger At(r, p)} :: InBounds(p) && p.row == row && p.col < col && p !in m ==> At(r, p) == Num(AdjacentMines(m, p))
      invariant forall p {:trigger At(r, p)} :: InBounds(p) && (p.row != row || col <= p.col) ==> At(r, p) == At(board, p)
    {
      if r[row][col] != Mine {
        var count := CountNeighbourMines(r, row, col);
        PutNumberKeepsMines(r, Pos(row, col), count);
        r := Put(r, Pos(row, col), Num(count));
      }
      col := col + 1;
    }
  }

  /** Writes into every safe cell the number of mines among its in-bounds neighbours,
      row by row and in place, as _calculate_numbers and initBoard do; mine cells are skipped. Writing a
      number never turns a cell into a mine, so later counts see the original mines. */
  method CalculateNumbers(b: Board) returns (r: Board)
    requires WellFormed(b)
    ensures WellFormed(r) && MineSet(r) == MineSet(b)
    ensures forall p {:trigger At(r, p)} :: InBounds(p) && At(b, p) == Mine ==> At(r, p) == Mine
    ensures forall p {:trigger At(r, p)} :: InBounds(p) && At(b, p) != Mine ==> At(r, p) == Num(AdjacentMines(MineSet(b), p))
    ensures NumbersCorrect(r)
  {
    ghost var m := MineSet(b);
    r := b;
    var row := 0;
    while row < ROWS
      invariant 0 <= row <= ROWS
      invariant WellFormed(r) && MineSet(r) == m
      invariant forall p {:trigger At(r, p)} :: InBounds(p) && p.row < row && p !in m ==> At(r, p) == Num(AdjacentMines(m, p))
      invariant forall p {:trigger At(r, p)} :: InBounds(p) && row <= p.row ==> At(r, p) == At(b, p)
    {
      r := NumberRow(r, row);
      row := row + 1;
    }
    forall p | InBounds(p) && At(b, p) == Mine
      ensures At(r, p) == Mine
    {
      assert p in MineSet(r);
    }
    forall p | p in SafeSet(r)
      ensures Numbered(r, p)
    {
      AdjacentMinesCountsAround(m, p);
    }
  }
}
