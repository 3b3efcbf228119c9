/**
 * The bookkeeping that ties a tenant's prize list, winners list and excluded
 * ids together, which the draw, invalidate, upsert and reset handlers keep.
 */
module Invariants {
  import opened Types

  /** The state a lottery keeps consistent:
      - prize ids and winner ids are each without duplicates;
      - the excluded ids are the winners' ids, in the order they won (so as a
        set they are exactly the winners' ids);
      - every record names a listed prize;
      - each prize's `count - remaining` is its number of records. */
  predicate Consistent(prizes: seq<Prize>, winners: seq<WinRecord>, excluded: seq<string>) {
    && Distinct(PrizeIds(prizes))
    && Distinct(WinnerIds(winners))
    && excluded == WinnerIds(winners)
    && (forall i :: 0 <= i < |winners| ==> winners[i].prizeId in PrizeIds(prizes))
    && StockMatches(prizes, winners)
  }

  /** Each prize's `count - remaining` is the number of records naming it. */
  predicate StockMatches(prizes: seq<Prize>, winners: seq<WinRecord>) {
    forall k :: 0 <= k < |prizes| ==> prizes[k].count - prizes[k].remaining == CountFor(winners, prizes[k].id)
  }

  /** A prize list at full stock with no winners is consistent. */
  lemma FreshIsConsistent(prizes: seq<Prize>)
    requires Distinct(PrizeIds(prizes))
    requires forall p :: p in prizes ==> p.remaining == p.count
    ensures Consistent(prizes, [], [])
  {
  }

  /** A prize id that no record names has no records. */
  lemma {:induction false} CountForAbsent(ws: seq<WinRecord>, pid: string)
    requires forall w :: w in ws ==> w.prizeId != pid
    ensures CountFor(ws, pid) == 0
  {
    if ws != [] {
      assert ws[|ws| - 1] in ws;
      CountForAbsent(ws[..|ws| - 1], pid);
    }
  }
}
