/** Geometry of the fixed Minesweeper grid: its dimensions, cell coordinates,
    the set of all cells and the 8-neighbourhood of a cell, clipped at the edges. */
module Grid {

  /** Board dimensions and mine count; both versions of the game use the same values. */
  const ROWS: int := 10
  const COLS: int := 10
  const MINES_COUNT: int := 15

  /** Number of cells that are not mines: the initial value of the reveal counter. */
  const SAFE_CELLS: int := ROWS * COLS - MINES_COUNT

  /** A cell coordinate (row, column). */
  datatype Pos = Pos(row: int, col: int)

  predicate InBounds(p: Pos) {
    0 <= p.row < ROWS && 0 <= p.col < COLS
  }

  /** Every cell of the grid. */
  function AllPos(): (all: set<Pos>)
    ensures forall p {:trigger p in all} :: p in all <==> InBounds(p)
  {
    var all := set r, c | 0 <= r < ROWS && 0 <= c < COLS :: Pos(r, c);
    assert forall p | InBounds(p) :: Pos(p.row, p.col) in all;
    all
  }

  /** q is one of the (up to) 8 cells around p; p itself is excluded. */
  predicate Adjacent(p: Pos, q: Pos) {
    q != p && -1 <= q.row - p.row <= 1 && -1 <= q.col - p.col <= 1
  }

  /** The in-bounds neighbours of p. */
  function Around(p: Pos): (nbrs: set<Pos>)
    ensures forall q {:trigger q in nbrs} :: q in nbrs <==> InBounds(q) && Adjacent(p, q)
  {
    set q | q in AllPos() && Adjacent(p, q)
  }

  /** The cells of the first n rows. */
  ghost function Rows(n: int): set<Pos> {
    set r, c | 0 <= r < n && 0 <= c < COLS :: Pos(r, c)
  }

  /** The first m cells of row r. */
  ghost function RowPrefix(r: int, m: int): set<Pos> {
    set c | 0 <= c < m :: Pos(r, c)
  }

  lemma {:induction false} RowPrefixSize(r: int, m: nat)
    ensures |RowPrefix(r, m)| == m
  {
    if m > 0 {
      RowPrefixSize(r, m - 1);
      assert RowPrefix(r, m) == RowPrefix(r, m - 1) + {Pos(r, m - 1)};
    }
  }

  lemma {:induction false} RowsSize(n: nat)
    ensures |Rows(n)| == n * COLS
  {
    if n > 0 {
      RowsSize(n - 1);
      RowPrefixSize(n - 1, COLS);
      assert Rows(n) == Rows(n - 1) + RowPrefix(n - 1, COLS);
      assert Rows(n - 1) !! RowPrefix(n - 1, COLS);
    }
  }

  /** The grid has ROWS * COLS cells. */
  lemma AllPosSize()
    ensures |AllPos()| == ROWS * COLS
  {
    RowsSize(ROWS);
    assert AllPos() == Rows(ROWS);
  }

  // Order of the neighbour loops: dr over -1, 0, 1, and within it dc over -1, 0, 1.

  /** Offset (q - p) comes at or after (dr, dc) in the loops' order. */
  predicate NotBefore(p: Pos, q: Pos, dr: int, dc: int) {
    q.row - p.row > dr || (q.row - p.row == dr && q.col - p.col >= dc)
  }

  /** Covering the neighbour at (dr, dc) and every neighbour after it covers every
      neighbour from (dr, dc) on. */
  lemma CoverStep(p: Pos, dr: int, dc: int, covered: set<Pos>)
    requires InBounds(Pos(p.row + dr, p.col + dc)) ==> Pos(p.row + dr, p.col + dc) in covered
    requires forall q :: q in Around(p) && NotBefore(p, q, dr, dc + 1) ==> q in covered
    ensures forall q :: q in Around(p) && NotBefore(p, q, dr, dc) ==> q in covered
  {
    forall q | q in Around(p) && NotBefore(p, q, dr, dc)
      ensures q in covered
    {
      if q != Pos(p.row + dr, p.col + dc) {
        assert NotBefore(p, q, dr, dc + 1);
      }
    }
  }
}
