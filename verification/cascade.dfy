/** What a flood fill from a cell reveals, stated over the board and the revealed and
    flagged cells alone, so that both versions of the game share it: a lower bound
    (every zero cell it reveals ends up with all its neighbours revealed or flagged)
    and two upper bounds (every other cell it reveals neighbours a zero cell it
    revealed, and it stays inside every region closed through open zero cells). */
module Cascade {
  import opened Grid
  import opened Mines

  // ---------------------------------------------------------------------------
  // Lower bound: the cascade is closed.

  /** Every neighbour of q is revealed or flagged. */
  ghost predicate Settled(revealed: set<Pos>, flagged: set<Pos>, q: Pos) {
    Around(q) <= revealed + flagged
  }

  /** Every zero cell revealed since `before` is settled: the cascade reaches the whole
      zero region and its numbered border, stopping only at flags. */
  ghost predicate CascadeClosed(b: Board, before: set<Pos>, revealed: set<Pos>, flagged: set<Pos>)
    requires WellFormed(b)
  {
    forall q {:trigger Settled(revealed, flagged, q)} ::
      InBounds(q) && q in revealed && q !in before && At(b, q) == Num(0) ==> Settled(revealed, flagged, q)
  }

  /** A cascade closed after p was marked, where p itself is settled, is closed from
      before p was marked. */
  lemma CascadeClosedExtend(b: Board, before: set<Pos>, p: Pos, revealed: set<Pos>, flagged: set<Pos>)
    requires WellFormed(b)
    requires CascadeClosed(b, before + {p}, revealed, flagged) && Settled(revealed, flagged, p)
    ensures CascadeClosed(b, before, revealed, flagged)
  {
    forall q | InBounds(q) && q in revealed && q !in before && At(b, q) == Num(0)
      ensures Settled(revealed, flagged, q)
    {
      if q != p {
        assert q !in before + {p};
      }
    }
  }

  /** Closedness composes along a run whose revealed set only grows. */
  lemma CascadeClosedTrans(b: Board, before: set<Pos>, mid: set<Pos>, revealed: set<Pos>, flagged: set<Pos>)
    requires WellFormed(b) && mid <= revealed
    requires CascadeClosed(b, before, mid, flagged) && CascadeClosed(b, mid, revealed, flagged)
    ensures CascadeClosed(b, before, revealed, flagged)
  {
    forall q | InBounds(q) && q in revealed && q !in before && At(b, q) == Num(0)
      ensures Settled(revealed, flagged, q)
    {
      if q !in mid {
        assert Settled(revealed, flagged, q);
      } else {
        assert Settled(mid, flagged, q);
      }
    }
  }

  // ---------------------------------------------------------------------------
  // Upper bound: every cell revealed besides the start neighbours a revealed zero cell.

  /** q is a neighbour of a zero cell revealed since `before`. */
  ghost predicate FedBy(b: Board, before: set<Pos>, revealed: set<Pos>, q: Pos)
    requires WellFormed(b)
  {
    exists z {:trigger q in Around(z)} ::
      InBounds(z) && z in revealed && z !in before && At(b, z) == Num(0) && q in Around(z)
  }

  /** Every cell revealed since `before`, apart from those in `start`, is a neighbour of
      a zero cell revealed since then as well. */
  ghost predicate CascadeBounded(b: Board, before: set<Pos>, revealed: set<Pos>, start: set<Pos>)
    requires WellFormed(b)
  {
    forall q {:trigger FedBy(b, before, revealed, q)} ::
      q in revealed && q !in before && q !in start ==> FedBy(b, before, revealed, q)
  }

  /** A neighbour of a newly revealed zero cell stays one when `before` shrinks and the
      revealed set grows. */
  lemma FedByWiden(b: Board, before: set<Pos>, revealed: set<Pos>, before': set<Pos>, revealed': set<Pos>, q: Pos)
    requires WellFormed(b) && before' <= before && revealed <= revealed'
    requires FedBy(b, before, revealed, q)
    ensures FedBy(b, before', revealed', q)
  {
    var z :| InBounds(z) && z in revealed && z !in before && At(b, z) == Num(0) && q in Around(z);
    assert z in revealed' && z !in before';
  }

  // ---------------------------------------------------------------------------
  // Upper bound: the cascade stays inside the clicked cell's open flood region.

  /** c holds every in-bounds neighbour of each zero cell in it that a reveal call can
      still enter, i.e. that is neither revealed nor flagged. The smallest such set
      around a cell is its open flood region: the zero cells reachable from it without
      crossing a revealed or flagged cell, plus their border. */
  ghost predicate ZeroClosed(b: Board, revealed: set<Pos>, flagged: set<Pos>, c: set<Pos>)
    requires WellFormed(b)
  {
    forall z :: z in c && InBounds(z) && z !in revealed && z !in flagged && At(b, z) == Num(0) ==> Around(z) <= c
  }
}
